/**
 * The browser side of the search page (assets/js/app.js): how a project is
 * named in the picker, how the picker list is filtered as the user types,
 * how a search term is highlighted in a result excerpt, and the list of
 * selected project ids that the click handlers change and the search form
 * submits.
 *
 * Project ids are JavaScript numbers and are modelled as `int`; the DOM
 * elements the handlers write to are fields of `Selection`.
 */
module ProjectPicker {
  import opened Wrappers
  import opened Text
  import opened GitLab
  import Highlight
  import Utils
  import Matching

  // ---------------------------------------------------------------------
  // getProjectDisplayName

  /**
   * The group path (every `/`-segment of `path_with_namespace` but the last,
   * joined with " / ") followed by " - " and the project's name, or the name
   * alone when that group path is empty.
   */
  function DisplayName(p: RawProject): (r: string)
    ensures |r| >= |p.name| && r[|r| - |p.name|..] == p.name
    ensures '/' !in p.pathWithNamespace ==> r == p.name
  {
    var parts := Split(p.pathWithNamespace, '/');
    var group := Join(parts[..|parts| - 1], " / ");
    if group == "" then p.name else group + " - " + p.name
  }

  /** The first separator of `head + [sep] + tail` is the one after `head` when `head` has none. */
  lemma FirstIndexAfter(head: string, sep: char, tail: string)
    requires sep !in head
    ensures sep in head + [sep] + tail
    ensures FirstIndex(head + [sep] + tail, sep) == |head|
  {
    var s := head + [sep] + tail;
    assert s[|head|] == sep;
  }

  /** Splitting the join of separator-free parts on that separator gives the parts back. */
  lemma {:induction false} SplitJoin(parts: seq<string>, sep: char)
    requires |parts| >= 1
    requires forall k :: 0 <= k < |parts| ==> sep !in parts[k]
    ensures Split(Join(parts, [sep]), sep) == parts
  {
    if |parts| > 1 {
      var tail := parts[1..];
      SplitJoin(tail, sep);
      Text.JoinCons(parts[0], tail, [sep]);
      assert [parts[0]] + tail == parts;
      var s := Join(parts, [sep]);
      assert s == parts[0] + [sep] + Join(tail, [sep]);
      FirstIndexAfter(parts[0], sep, Join(tail, [sep]));
      assert s[..|parts[0]|] == parts[0];
      assert s[|parts[0]| + 1..] == Join(tail, [sep]);
    }
  }

  /**
   * For a path written as group segments and a last segment, none holding a
   * slash, the display name is the group segments joined with " / ", then
   * " - " and the name; with no group (or one empty group segment) it is the
   * name alone.
   */
  lemma DisplayNameOfPath(groups: seq<string>, last: string, p: RawProject)
    requires forall k :: 0 <= k < |groups| ==> '/' !in groups[k]
    requires '/' !in last
    requires p.pathWithNamespace == Join(groups + [last], "/")
    ensures var group := Join(groups, " / ");
      DisplayName(p) == if group == "" then p.name else group + " - " + p.name
  {
    var parts := groups + [last];
    assert forall k :: 0 <= k < |parts| ==> '/' !in parts[k] by {
      forall k | 0 <= k < |parts| ensures '/' !in parts[k] {
        if k < |groups| {
          assert parts[k] == groups[k];
        }
      }
    }
    SplitJoin(parts, '/');
    assert parts[..|parts| - 1] == groups;
  }

  // ---------------------------------------------------------------------
  // filterProjectsList and the filter input

  /** JavaScript's `hay.includes(needle)`: a case-sensitive substring test. */
  predicate Includes(hay: string, needle: string) {
    exists i :: 0 <= i <= |hay| - |needle| && needle <= hay[i..]
  }

  /**
   * `filterProjectsList(term)`: every project for an empty term, otherwise
   * the projects whose lower-cased display name includes the term, in list
   * order. The term itself is used as given.
   */
  function FilterProjectsList(projects: seq<RawProject>, term: string): (r: seq<RawProject>)
    ensures term == "" ==> r == projects
    ensures |r| <= |projects|
    ensures forall p :: p in r <==> p in projects && (term == "" || Includes(Lower(DisplayName(p)), term))
  {
    if term == "" then projects
    else
      var keep, same := (p: RawProject) => Includes(Lower(DisplayName(p)), term), (p: RawProject) => p;
      Matching.FilterMapMembers(projects, keep, same);
      Matching.FilterMap(projects, keep, same)
  }

  /** The filter input's handler: the typed text is lower-cased, then the list is filtered. */
  function FilterProjects(projects: seq<RawProject>, input: string): seq<RawProject> {
    FilterProjectsList(projects, Lower(input))
  }

  /** Lower-casing both sides turns `includes` into a case-insensitive occurrence test. */
  lemma IncludesLower(hay: string, needle: string)
    ensures Includes(Lower(hay), Lower(needle)) <==> ContainsCI(hay, needle)
  {
    var lh, ln := Lower(hay), Lower(needle);
    if Includes(lh, ln) {
      var i :| 0 <= i <= |lh| - |ln| && ln <= lh[i..];
      assert Lower(hay[i..i + |needle|]) == lh[i..i + |needle|];
      assert OccursAt(hay, needle, i);
    }
    if ContainsCI(hay, needle) {
      var i :| 0 <= i <= |hay| && OccursAt(hay, needle, i);
      assert Lower(hay[i..i + |needle|]) == lh[i..i + |needle|];
      assert ln <= lh[i..];
    }
  }

  /**
   * Typing in the filter shows, in list order, exactly the projects whose
   * display name contains the typed text up to ASCII case; empty text shows
   * them all.
   */
  lemma FilterProjectsMatches(projects: seq<RawProject>, input: string)
    ensures FilterProjects(projects, input)
      == Matching.FilterMap(projects, (p: RawProject) => ContainsCI(DisplayName(p), input), (p: RawProject) => p)
    ensures forall p :: p in FilterProjects(projects, input) <==> p in projects && ContainsCI(DisplayName(p), input)
  {
    var keep, id := (p: RawProject) => ContainsCI(DisplayName(p), input), (p: RawProject) => p;
    var term := Lower(input);
    if term == "" {
      assert forall p: RawProject :: OccursAt(DisplayName(p), input, 0);
      Matching.FilterMapKeepsAll(projects, keep, id);
    } else {
      forall p: RawProject | p in projects ensures Includes(Lower(DisplayName(p)), term) == keep(p) {
        IncludesLower(DisplayName(p), input);
      }
      Matching.FilterMapCongruent(projects, (p: RawProject) => Includes(Lower(DisplayName(p)), term), id, keep, id);
    }
    Matching.FilterMapMembers(projects, keep, id);
  }

  // ---------------------------------------------------------------------
  // highlightSearchTerm

  /**
   * `highlightSearchTerm(text, term)`: an empty text or term gives the text
   * back; otherwise every case-insensitive occurrence of the term, quoted so
   * that it matches literally, is wrapped in a highlight span, keeping its
   * own casing. Unlike PHP's `empty()`, the string "0" is not empty here.
   */
  function HighlightTerm(text: string, term: string): (r: string)
    ensures text == "" || term == "" ==> r == text
  {
    if text == "" || term == "" then text
    else Highlight.HighlightAll(text, term, Utils.SpanOpen, Utils.SpanClose)
  }

  /**
   * Otherwise the output is the text with spans inserted: stripping them
   * gives the text back, each span holds an occurrence of the term up to
   * case, no occurrence is left outside a span, and a text without the term
   * comes back unchanged.
   */
  lemma HighlightTermWraps(text: string, term: string)
    requires text != "" && term != ""
    ensures var segs := Highlight.Segments(text, term);
      && HighlightTerm(text, term) == Highlight.Render(segs, Utils.SpanOpen, Utils.SpanClose)
      && Highlight.Unmarked(segs) == text
      && (forall k :: 0 <= k < |segs| && segs[k].Marked? ==> Lower(segs[k].text) == Lower(term))
      && (forall k :: 0 <= k < |segs| && segs[k].Plain? ==>
            !OccursAt(text, term, Highlight.Offset(segs, k)))
    ensures !ContainsCI(text, term) ==> HighlightTerm(text, term) == text
  {
    Highlight.SegmentsUnmarked(text, term);
    Highlight.SegmentsMarkedAreTerm(text, term);
    Highlight.SegmentsPlainAreNotOccurrences(text, term);
    if !ContainsCI(text, term) {
      Highlight.HighlightAbsent(text, term, Utils.SpanOpen, Utils.SpanClose);
    }
  }

  // ---------------------------------------------------------------------
  // The selection list

  predicate NoDuplicates(ids: seq<int>) {
    forall i, j :: 0 <= i < j < |ids| ==> ids[i] != ids[j]
  }

  /** `ids.filter(x => x !== id)`: every copy of `id` removed, the rest in order. */
  function Without(ids: seq<int>, id: int): (r: seq<int>)
    ensures |r| <= |ids|
  {
    Matching.FilterMap(ids, (x: int) => x != id, (x: int) => x)
  }

  /** What is left is every other id, and a list without duplicates keeps none. */
  lemma {:induction false} WithoutMembers(ids: seq<int>, id: int)
    ensures forall x :: x in Without(ids, id) <==> x in ids && x != id
    ensures NoDuplicates(ids) ==> NoDuplicates(Without(ids, id))
  {
    var keep, same := (x: int) => x != id, (x: int) => x;
    Matching.FilterMapMembers(ids, keep, same);
    if ids != [] {
      var init, last := ids[..|ids| - 1], ids[|ids| - 1];
      WithoutMembers(init, id);
      if NoDuplicates(ids) {
        assert NoDuplicates(init);
        assert last !in init;
        var rest := Without(init, id);
        assert Without(ids, id) == rest + (if last != id then [last] else []);
        assert last !in rest;
      }
    }
  }

  /**
   * A project option's click: a check appends the id unless it is already
   * selected, an uncheck removes every copy of it.
   */
  function Toggled(ids: seq<int>, id: int, checked: bool): seq<int> {
    if checked then (if id in ids then ids else ids + [id])
    else Without(ids, id)
  }

  /**
   * After the click the id is selected exactly when the box is checked,
   * every other id keeps its membership, and a selection without duplicates
   * stays so.
   */
  lemma ToggledMembers(ids: seq<int>, id: int, checked: bool)
    ensures id in Toggled(ids, id, checked) <==> checked
    ensures forall x :: x != id ==> (x in Toggled(ids, id, checked) <==> x in ids)
    ensures NoDuplicates(ids) ==> NoDuplicates(Toggled(ids, id, checked))
  {
    WithoutMembers(ids, id);
  }

  /** `projects.map(project => project.id)`. */
  function Ids(projects: seq<RawProject>): (r: seq<int>)
    ensures |r| == |projects|
    ensures forall i :: 0 <= i < |projects| ==> r[i] == projects[i].id
  {
    seq(|projects|, i requires 0 <= i < |projects| => projects[i].id)
  }

  /** The projects shown as chips: those of the loaded list whose id is selected, in list order. */
  function ChipsOf(projects: seq<RawProject>, ids: seq<int>): seq<RawProject> {
    Matching.FilterMap(projects, (p: RawProject) => p.id in ids, (p: RawProject) => p)
  }

  lemma ChipsMembers(projects: seq<RawProject>, ids: seq<int>)
    ensures forall p :: p in ChipsOf(projects, ids) <==> p in projects && p.id in ids
  {
    Matching.FilterMapMembers(projects, (p: RawProject) => p.id in ids, (p: RawProject) => p);
  }

  /** The count label: the number between parentheses. */
  function CountText(n: nat): (r: string)
    ensures |r| >= 3 && r[0] == '(' && r[|r| - 1] == ')'
    ensures forall i :: 1 <= i < |r| - 1 ==> IsDigit(r[i])
    ensures DigitsValue(r[1..|r| - 1]) == n
  {
    var digits := NatToString(n);
    var r := "(" + digits + ")";
    assert r[1..|r| - 1] == digits;
    DigitsValueOfNatToString(n);
    r
  }

  // ---------------------------------------------------------------------
  // Chip removal

  /** The two JavaScript value types the chip handler compares. */
  datatype JsValue = Number(n: int) | Str(s: string)

  /**
   * The chip's removal handler as written: the id read back from the
   * `data-id` attribute is a string, and `id !== projectId` compares it with
   * the numeric ids, so the test holds for every id.
   */
  function WithoutChipAsWritten(ids: seq<int>, dataId: string): seq<int> {
    Matching.FilterMap(ids, (x: int) => Number(x) != Str(dataId), (x: int) => x)
  }

  /** Removing a chip as written never changes the selection. */
  lemma ChipRemovalAsWrittenKeepsAll(ids: seq<int>, dataId: string)
    ensures WithoutChipAsWritten(ids, dataId) == ids
  {
    Matching.FilterMapKeepsAll(ids, (x: int) => Number(x) != Str(dataId), (x: int) => x);
  }

  /** With project 7 selected, removing its chip (data-id "7") leaves it selected. */
  lemma ChipRemovalAsWrittenExample()
    ensures IntToString(7) == "7"
    ensures 7 in WithoutChipAsWritten([7], IntToString(7))
  {
    ChipRemovalAsWrittenKeepsAll([7], IntToString(7));
  }

  /** The removal compared as strings: every id that renders as the chip's `data-id` is dropped. */
  function WithoutChip(ids: seq<int>, dataId: string): (r: seq<int>)
    ensures forall x :: x in r <==> x in ids && IntToString(x) != dataId
  {
    var keep, same := (x: int) => IntToString(x) != dataId, (x: int) => x;
    Matching.FilterMapMembers(ids, keep, same);
    Matching.FilterMap(ids, keep, same)
  }

  /** A rendered integer starts with a minus sign exactly when it is negative. */
  lemma IntToStringSign(n: int)
    ensures IntToString(n)[0] == '-' <==> n < 0
  {
    if n >= 0 {
      assert IsDigit(NatToString(n)[0]);
    }
  }

  lemma NatToStringInjective(m: nat, n: nat)
    requires NatToString(m) == NatToString(n)
    ensures m == n
  {
    DigitsValueOfNatToString(m);
    DigitsValueOfNatToString(n);
  }

  /** Two integers that render alike are equal. */
  lemma IntToStringInjective(a: int, b: int)
    requires IntToString(a) == IntToString(b)
    ensures a == b
  {
    IntToStringSign(a);
    IntToStringSign(b);
    if a < 0 && b < 0 {
      assert IntToString(a)[1..] == NatToString(-a);
      assert IntToString(b)[1..] == NatToString(-b);
      NatToStringInjective(-a, -b);
    } else if a >= 0 && b >= 0 {
      NatToStringInjective(a, b);
    }
  }

  /**
   * Removing the chip of project `id` (whose `data-id` is the id rendered in
   * decimal) removes exactly that id from the selection.
   */
  lemma WithoutChipRemovesId(ids: seq<int>, id: int)
    ensures WithoutChip(ids, IntToString(id)) == Without(ids, id)
    ensures forall x :: x in WithoutChip(ids, IntToString(id)) <==> x in ids && x != id
  {
    forall x: int | x in ids ensures (IntToString(x) != IntToString(id)) == (x != id) {
      if IntToString(x) == IntToString(id) {
        IntToStringInjective(x, id);
      }
    }
    Matching.FilterMapCongruent(ids, (x: int) => IntToString(x) != IntToString(id), (x: int) => x,
                                (x: int) => x != id, (x: int) => x);
    WithoutMembers(ids, id);
  }

  /**
   * After a chip is removed the list is re-rendered with the filter input's
   * text as given, not lower-cased as the input handler does: with the text
   * "Web" a project named "web" is listed by the input handler but not by
   * the re-render.
   */
  lemma ChipRerenderAsWritten()
    ensures var p := RawProject(1, "web", "web", "", "web", None);
      && FilterProjects([p], "Web") == [p]
      && FilterProjectsList([p], "Web") == []
  {
    var p := RawProject(1, "web", "web", "", "web", None);
    assert DisplayName(p) == "web";
    assert Lower("Web") == "web";
    assert Includes(Lower(DisplayName(p)), "web") by {
      assert "web" <= Lower(DisplayName(p))[0..];
    }
    assert !Includes(Lower(DisplayName(p)), "Web") by {
      forall i | 0 <= i <= 0 ensures !("Web" <= Lower(DisplayName(p))[i..]) {
        assert Lower(DisplayName(p))[0] == 'w';
      }
    }
    var keep := (q: RawProject) => Includes(Lower(DisplayName(q)), "web");
    var keep' := (q: RawProject) => Includes(Lower(DisplayName(q)), "Web");
    assert [p][..0] == [];
    assert Matching.FilterMap([p], keep, (q: RawProject) => q) == [p];
    assert Matching.FilterMap([p], keep', (q: RawProject) => q) == [];
  }

  // ---------------------------------------------------------------------
  // The page state the handlers change

  /** What submitting the form does. */
  datatype SearchStart =
    | Alerted                                   // no project selected: an alert and no request
    | Posted(projectIds: Option<seq<int>>)     // a POST carrying the hidden input's value, if any

  /**
   * The module-level `projects` and `selectedProjectIds`, and what
   * `updateSelectedProjects` writes: the hidden `projectIds` input (absent
   * until the first update), the chips, the count label and the search
   * button's disabled flag.
   */
  class Selection {
    var projects: seq<RawProject>
    var selectedProjectIds: seq<int>
    var formIds: Option<seq<int>>
    var chips: seq<RawProject>
    var countText: string
    var searchDisabled: bool

    /** The form, the count and the button agree with the selection. */
    predicate Shown()
      reads this
    {
      && formIds == Some(selectedProjectIds)
      && countText == CountText(|selectedProjectIds|)
      && (searchDisabled <==> selectedProjectIds == [])
    }

    /** The page as loaded: nothing fetched or selected; the count and the button are the page's own markup. */
    constructor(initialCount: string, initiallyDisabled: bool)
      ensures projects == [] && selectedProjectIds == []
      ensures formIds == None && chips == []
      ensures countText == initialCount && searchDisabled == initiallyDisabled
    {
      projects := [];
      selectedProjectIds := [];
      formIds := None;
      chips := [];
      countText := initialCount;
      searchDisabled := initiallyDisabled;
    }

    /** `fetchProjects` succeeding: the list is replaced and nothing else changes. */
    method LoadProjects(data: seq<RawProject>)
      modifies this
      ensures projects == data
      ensures selectedProjectIds == old(selectedProjectIds) && formIds == old(formIds)
      ensures chips == old(chips) && countText == old(countText) && searchDisabled == old(searchDisabled)
    {
      projects := data;
    }

    /** `updateSelectedProjects`: everything shown is recomputed from the selection. */
    method UpdateSelectedProjects()
      modifies this
      ensures projects == old(projects) && selectedProjectIds == old(selectedProjectIds)
      ensures Shown()
      ensures chips == ChipsOf(projects, selectedProjectIds)
    {
      formIds := Some(selectedProjectIds);
      chips := ChipsOf(projects, selectedProjectIds);
      countText := CountText(|selectedProjectIds|);
      searchDisabled := |selectedProjectIds| == 0;
    }

    /** A project option's click, `checked` being the box's new state. */
    method Toggle(id: int, checked: bool)
      modifies this
      ensures projects == old(projects)
      ensures selectedProjectIds == Toggled(old(selectedProjectIds), id, checked)
      ensures Shown() && chips == ChipsOf(projects, selectedProjectIds)
    {
      if checked {
        if id !in selectedProjectIds {
          selectedProjectIds := selectedProjectIds + [id];
        }
      } else {
        selectedProjectIds := Without(selectedProjectIds, id);
      }
      UpdateSelectedProjects();
    }

    /**
     * The Select All option's click, `checked` being its new state: the ids
     * of the listed projects, in list order, or nothing.
     */
    method SelectAll(rendered: seq<RawProject>, checked: bool)
      modifies this
      ensures projects == old(projects)
      ensures checked ==> (|selectedProjectIds| == |rendered|
        && forall i :: 0 <= i < |rendered| ==> selectedProjectIds[i] == rendered[i].id)
      ensures !checked ==> selectedProjectIds == []
      ensures Shown() && chips == ChipsOf(projects, selectedProjectIds)
    {
      selectedProjectIds := if checked then Ids(rendered) else [];
      UpdateSelectedProjects();
    }

    /**
     * A chip's removal click, with the ids compared as strings, and the list
     * re-rendered through the filter input's handler; returns the projects
     * listed after it.
     */
    method RemoveChip(dataId: string, filterInput: string) returns (listed: seq<RawProject>)
      modifies this
      ensures projects == old(projects)
      ensures selectedProjectIds == WithoutChip(old(selectedProjectIds), dataId)
      ensures Shown() && chips == ChipsOf(projects, selectedProjectIds)
      ensures listed == FilterProjects(projects, filterInput)
    {
      selectedProjectIds := WithoutChip(selectedProjectIds, dataId);
      UpdateSelectedProjects();
      listed := FilterProjects(projects, filterInput);
    }

    /** `handleSearch`: an empty selection stops with an alert; otherwise the form is posted. */
    method HandleSearch() returns (r: SearchStart)
      ensures r.Alerted? <==> selectedProjectIds == []
      ensures r.Posted? ==> r.projectIds == formIds
      ensures Shown() && r.Posted? ==> (r.projectIds == Some(selectedProjectIds) && selectedProjectIds != [])
    {
      if |selectedProjectIds| == 0 {
        r := Alerted;
      } else {
        r := Posted(formIds);
      }
    }
  }
}
