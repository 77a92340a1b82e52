/**
 * Wrapping every case-insensitive occurrence of a literal term, scanning
 * left to right and never overlapping. This is what
 * `preg_replace('/(term)/i', '<mark>$1</mark>', ...)` does in search.php,
 * what `Utils::highlightSearchTerm` does with a `<span>` in src/Utils.php and
 * what `text.replace(new RegExp('(term)', 'gi'), ...)` does in
 * assets/js/app.js, once the term has been quoted so that it matches
 * literally.
 *
 * The scan is described as a list of segments: single characters left as
 * they are and matched stretches to be wrapped. Rendering the segments with
 * an opening and a closing tag gives the output string.
 */
module Highlight {
  import opened Text

  datatype Segment = Plain(c: char) | Marked(text: string)

  function Piece(g: Segment): string {
    match g
    case Plain(c) => [c]
    case Marked(t) => t
  }

  /** The text of the segments with the wrappers stripped. */
  function Unmarked(segs: seq<Segment>): string {
    if segs == [] then [] else Piece(segs[0]) + Unmarked(segs[1..])
  }

  /** Where segment `k` starts in the unwrapped text. */
  function Offset(segs: seq<Segment>, k: nat): nat
    requires k <= |segs|
  {
    |Unmarked(segs[..k])|
  }

  function RenderPiece(g: Segment, open: string, close: string): string {
    match g
    case Plain(c) => [c]
    case Marked(t) => open + t + close
  }

  function Render(segs: seq<Segment>, open: string, close: string): string {
    if segs == [] then [] else RenderPiece(segs[0], open, close) + Render(segs[1..], open, close)
  }

  /** The leftmost-first, non-overlapping scan for `term` in `s`. */
  function Segments(s: string, term: string): seq<Segment>
    requires term != []
    decreases |s|
  {
    if s == [] then []
    else if OccursAt(s, term, 0) then [Marked(s[..|term|])] + Segments(s[|term|..], term)
    else [Plain(s[0])] + Segments(s[1..], term)
  }

  /** `open + (every occurrence of term) + close`, everything else untouched. */
  function HighlightAll(s: string, term: string, open: string, close: string): string
    requires term != []
  {
    Render(Segments(s, term), open, close)
  }

  // ---------------------------------------------------------------------
  // What the scan guarantees

  lemma OccursShift(s: string, term: string, d: nat, p: int)
    requires d <= |s| && 0 <= p
    ensures OccursAt(s, term, d + p) <==> OccursAt(s[d..], term, p)
  {
    if d + p + |term| <= |s| {
      assert s[d..][p..p + |term|] == s[d + p..d + p + |term|];
    }
  }

  lemma UnmarkedCons(g: Segment, rest: seq<Segment>, k: nat)
    requires 1 <= k <= |rest| + 1
    ensures Unmarked(([g] + rest)[..k]) == Piece(g) + Unmarked(rest[..k - 1])
  {
    assert ([g] + rest)[..k] == [g] + rest[..k - 1];
    assert ([g] + rest[..k - 1])[1..] == rest[..k - 1];
  }

  /** The first segment of the scan and where the rest of the scan starts. */
  lemma SegmentsStep(s: string, term: string) returns (d: nat)
    requires term != [] && s != []
    ensures 1 <= d <= |s|
    ensures d == (if OccursAt(s, term, 0) then |term| else 1)
    ensures Segments(s, term) == [Segments(s, term)[0]] + Segments(s[d..], term)
    ensures Piece(Segments(s, term)[0]) == s[..d]
    ensures Segments(s, term)[0].Marked? <==> OccursAt(s, term, 0)
  {
    d := if OccursAt(s, term, 0) then |term| else 1;
  }

  /** Stripping the wrappers gives back the text, original casing included. */
  lemma {:induction false} SegmentsUnmarked(s: string, term: string)
    requires term != []
    ensures Unmarked(Segments(s, term)) == s
    decreases |s|
  {
    if s != [] {
      var d := SegmentsStep(s, term);
      SegmentsUnmarked(s[d..], term);
      UnmarkedStep(Segments(s, term), Segments(s[d..], term), s, d);
    }
  }

  lemma UnmarkedStep(segs: seq<Segment>, rest: seq<Segment>, s: string, d: nat)
    requires segs != [] && segs == [segs[0]] + rest && d <= |s|
    requires Piece(segs[0]) == s[..d] && Unmarked(rest) == s[d..]
    ensures Unmarked(segs) == s
  {
    assert segs[1..] == rest;
    assert s == s[..d] + s[d..];
  }

  /** Every wrapped stretch is the term up to case. */
  lemma {:induction false} SegmentsMarkedAreTerm(s: string, term: string)
    requires term != []
    ensures forall k :: 0 <= k < |Segments(s, term)| && Segments(s, term)[k].Marked? ==>
      |Segments(s, term)[k].text| == |term| && Lower(Segments(s, term)[k].text) == Lower(term)
    decreases |s|
  {
    if s != [] {
      var d := SegmentsStep(s, term);
      SegmentsMarkedAreTerm(s[d..], term);
    }
  }

  /** No occurrence of the term starts at a character that was left unwrapped. */
  lemma {:induction false} SegmentsPlainAreNotOccurrences(s: string, term: string)
    requires term != []
    ensures forall k :: 0 <= k < |Segments(s, term)| && Segments(s, term)[k].Plain? ==>
      !OccursAt(s, term, Offset(Segments(s, term), k))
    decreases |s|
  {
    if s != [] {
      var d := SegmentsStep(s, term);
      SegmentsPlainAreNotOccurrences(s[d..], term);
      PlainNotOccurrencesStep(Segments(s, term), Segments(s[d..], term), s, term, d);
    }
  }

  /** The same property of a scan, from the property of the scan of the rest. */
  lemma PlainNotOccurrencesStep(segs: seq<Segment>, rest: seq<Segment>, s: string, term: string, d: nat)
    requires segs != [] && segs == [segs[0]] + rest && 1 <= d <= |s|
    requires Piece(segs[0]) == s[..d]
    requires segs[0].Plain? ==> !OccursAt(s, term, 0)
    requires forall j :: 0 <= j < |rest| && rest[j].Plain? ==> !OccursAt(s[d..], term, Offset(rest, j))
    ensures forall k :: 0 <= k < |segs| && segs[k].Plain? ==> !OccursAt(s, term, Offset(segs, k))
  {
    forall k | 0 <= k < |segs| && segs[k].Plain?
      ensures !OccursAt(s, term, Offset(segs, k))
    {
      if k > 0 {
        UnmarkedCons(segs[0], rest, k);
        assert Offset(segs, k) == d + Offset(rest, k - 1);
        assert rest[k - 1].Plain?;
        OccursShift(s, term, d, Offset(rest, k - 1));
      } else {
        assert segs[..0] == [];
      }
    }
  }

  /** Text without any occurrence of the term comes out unchanged. */
  lemma {:induction false} HighlightAbsent(s: string, term: string, open: string, close: string)
    requires term != []
    requires !ContainsCI(s, term)
    ensures HighlightAll(s, term, open, close) == s
    decreases |s|
  {
    if s != [] {
      assert !OccursAt(s, term, 0);
      forall i | 0 <= i <= |s[1..]|
        ensures !OccursAt(s[1..], term, i)
      {
        OccursShift(s, term, 1, i);
      }
      HighlightAbsent(s[1..], term, open, close);
      assert Segments(s, term) == [Plain(s[0])] + Segments(s[1..], term);
      assert Render(Segments(s, term), open, close)
        == [s[0]] + Render(Segments(s[1..], term), open, close);
      assert s == [s[0]] + s[1..];
    }
  }
}
