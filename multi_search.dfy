/**
 * src/search.php: the search over several projects at once. It checks its
 * parameters, looks every project up (an inaccessible one is skipped),
 * builds one flat list of requests (per resolved project, in input order:
 * the issues request, then the wiki request, each only when that source is
 * wanted), lets a pool run them and store each answer in the slot of its
 * request's index, then walks the projects again with a running request
 * index to read the slots back, keeping the matching issues and wiki pages
 * and dropping projects without any.
 *
 * The GitLab answers, the order in which the pool completes the requests,
 * and `json_decode` of a response body are inputs.
 */
module MultiSearch {
  import opened Wrappers
  import opened Text
  import opened GitLab
  import opened Excerpt
  import opened Matching
  import opened PhpArray

  // ---------------------------------------------------------------------
  // Parameters

  const ConfigMissing: string := "GitLab configuration not found. Please check your .env file."
  const SearchStringRequired: string := "Search string is required"
  const ProjectRequired: string := "At least one project must be selected"

  /** The checks that run before the API client is created. */
  function Validate(configured: bool, searchString: string, projectIds: seq<int>): Option<string> {
    if !configured then Some(ConfigMissing)
    else if PhpEmpty(searchString) then Some(SearchStringRequired)
    else if projectIds == [] then Some(ProjectRequired)
    else None
  }

  /** The sources a request is for, and which of them `searchIn` asks for. */
  datatype Source = IssuesSource | WikiSource

  datatype Want = Want(issues: bool, wiki: bool)

  /** `$_POST['searchIn'] ?? ['issues', 'wiki']`, read with `in_array`. */
  function WantOf(searchIn: Option<seq<string>>): Want {
    var s := searchIn.GetOr(["issues", "wiki"]);
    Want("issues" in s, "wiki" in s)
  }

  // ---------------------------------------------------------------------
  // Project lookup

  /**
   * The first `foreach`: one `GET projects/:id` per id; `lookup` answers it,
   * `None` for a request that threw or a body that did not decode.
   */
  method ResolveProjects(ids: seq<int>, lookup: int -> Option<ProjectDetails>)
    returns (details: map<int, ProjectDetails>, lookups: seq<int>)
    ensures forall p :: p in details <==> p in ids && lookup(p).Some?
    ensures forall p :: p in details ==> details[p] == lookup(p).value
    ensures lookups == ids
  {
    details, lookups := map[], [];
    for i := 0 to |ids|
      invariant forall p :: p in details <==> p in ids[..i] && lookup(p).Some?
      invariant forall p :: p in details ==> details[p] == lookup(p).value
      invariant lookups == ids[..i]
    {
      assert ids[..i + 1] == ids[..i] + [ids[i]];
      lookups := lookups + [ids[i]];
      var answer := lookup(ids[i]);
      if answer.Some? {
        details := details[ids[i] := answer.value];
      }
    }
    assert ids[..|ids|] == ids;
  }

  /** The projects that resolved, with their details. */
  function Resolved(ids: seq<int>, lookup: int -> Option<ProjectDetails>): (details: map<int, ProjectDetails>)
    ensures forall p :: p in details <==> p in ids && lookup(p).Some?
    ensures forall p :: p in details ==> details[p] == lookup(p).value
  {
    map p | p in ids && lookup(p).Some? :: lookup(p).value
  }

  // ---------------------------------------------------------------------
  // Request list and initial results

  datatype Request = Request(projectId: int, source: Source)

  /** The requests one project adds: none when it did not resolve. */
  function ProjectRequests(p: int, details: map<int, ProjectDetails>, want: Want): seq<Request> {
    if p !in details then []
    else (if want.issues then [Request(p, IssuesSource)] else []) + (if want.wiki then [Request(p, WikiSource)] else [])
  }

  /** The flat request list, project by project. */
  function RequestsFor(ids: seq<int>, details: map<int, ProjectDetails>, want: Want): seq<Request> {
    ConcatMap(ids, p => ProjectRequests(p, details, want))
  }

  /** The header `$results[$projectId]` starts with. */
  datatype Header = Header(id: int, name: string, searchString: string)

  /** One project's result; a `None` field is an absent key. */
  datatype Entry = Entry(header: Option<Header>, issues: Option<seq<IssueRow>>, wiki: Option<seq<WikiHit>>)

  /** An issue result row of this script. */
  datatype IssueRow = IssueRow(id: int, iid: int, title: string, excerpt: string, webUrl: string)

  /** The header of a resolved project. */
  function HeaderOf(p: int, details: map<int, ProjectDetails>, term: string): Option<Header> {
    if p in details then Some(Header(p, details[p].name, term)) else None
  }

  function InitEntry(p: int, details: map<int, ProjectDetails>, term: string): Entry {
    Entry(HeaderOf(p, details, term), None, None)
  }

  /** `$results` after the second `foreach`: a header for each resolved project. */
  function InitResults(ids: seq<int>, details: map<int, ProjectDetails>, term: string): Arr<Entry> {
    if ids == [] then []
    else
      var init, p := ids[..|ids| - 1], ids[|ids| - 1];
      var r := InitResults(init, details, term);
      if p in details then Put(r, p, InitEntry(p, details, term)) else r
  }

  /**
   * The second `foreach`: for each resolved project, its result header and
   * its requests, issues before wiki.
   */
  method BuildRequests(ids: seq<int>, details: map<int, ProjectDetails>, want: Want, term: string)
    returns (requests: seq<Request>, results: Arr<Entry>)
    ensures requests == RequestsFor(ids, details, want)
    ensures results == InitResults(ids, details, term)
  {
    requests, results := [], [];
    for i := 0 to |ids|
      invariant requests == RequestsFor(ids[..i], details, want)
      invariant results == InitResults(ids[..i], details, term)
    {
      var p := ids[i];
      assert ids[..i + 1][..i] == ids[..i];
      if p !in details {
        continue;
      }
      results := Put(results, p, InitEntry(p, details, term));
      if want.issues {
        requests := requests + [Request(p, IssuesSource)];
      }
      if want.wiki {
        requests := requests + [Request(p, WikiSource)];
      }
    }
    assert ids[..|ids|] == ids;
  }

  /**
   * Every request is for a listed, resolved project and a wanted source,
   * and each resolved project has a request for each wanted source.
   */
  lemma RequestsForMembers(ids: seq<int>, details: map<int, ProjectDetails>, want: Want)
    ensures forall r :: r in RequestsFor(ids, details, want) ==>
      r.projectId in ids && r.projectId in details
      && (r.source == IssuesSource ==> want.issues) && (r.source == WikiSource ==> want.wiki)
    ensures forall p, src ::
      (p in ids && p in details && (src == IssuesSource ==> want.issues) && (src == WikiSource ==> want.wiki))
      ==> Request(p, src) in RequestsFor(ids, details, want)
  {
    var g := (p: int) => ProjectRequests(p, details, want);
    ConcatMapMembers(ids, g);
    forall r | r in RequestsFor(ids, details, want)
      ensures r.projectId in ids && r.projectId in details
      ensures (r.source == IssuesSource ==> want.issues) && (r.source == WikiSource ==> want.wiki)
    {
      var p :| p in ids && r in g(p);
      assert r in ProjectRequests(p, details, want);
    }
    forall p, src | p in ids && p in details && (src == IssuesSource ==> want.issues) && (src == WikiSource ==> want.wiki)
      ensures Request(p, src) in RequestsFor(ids, details, want)
    {
      assert Request(p, src) in g(p);
    }
  }

  // ---------------------------------------------------------------------
  // The pool

  /** What the pool stores for a request: the response, or the rejection reason. */
  datatype Outcome = Rejected(reason: string) | Fulfilled(body: string)

  /** The slots after the pool ran, the requests completing in the order `completion` lists their indices. */
  function PoolSlots(requests: seq<Request>, outcome: Request -> Outcome, completion: seq<int>): seq<Option<Outcome>> {
    seq(|requests|, k requires 0 <= k < |requests| => if k in completion then Some(outcome(requests[k])) else None)
  }

  /**
   * The pool's `fulfilled`/`rejected` callbacks: each completed request
   * writes its outcome to the slot of its index, whatever the completion
   * order. `outcome` is the answer GitLab gives each request.
   */
  method RunPool(requests: seq<Request>, outcome: Request -> Outcome, completion: seq<int>)
    returns (slots: array<Option<Outcome>>)
    ensures fresh(slots) && slots.Length == |requests|
    ensures forall k :: 0 <= k < |requests| ==> (slots[k].Some? <==> k in completion)
    ensures forall k :: 0 <= k < |requests| && slots[k].Some? ==> slots[k].value == outcome(requests[k])
    ensures slots[..] == PoolSlots(requests, outcome, completion)
  {
    slots := new Option<Outcome>[|requests|](_ => None);
    for c := 0 to |completion|
      invariant forall k :: 0 <= k < slots.Length ==>
        slots[k] == if k in completion[..c] then Some(outcome(requests[k])) else None
    {
      assert completion[..c + 1] == completion[..c] + [completion[c]];
      var index := completion[c];
      if 0 <= index < slots.Length {
        slots[index] := Some(outcome(requests[index]));
      }
    }
    assert completion[..|completion|] == completion;
  }

  // ---------------------------------------------------------------------
  // Reading the slots back

  /** The fixed parameters of one search. */
  datatype Search = Search(
    term: string,
    gitlabUrl: string,
    want: Want,
    details: map<int, ProjectDetails>,
    decodeIssues: string -> Payload<RawIssue>,
    decodeWiki: string -> Payload<RawWikiPage>)

  /** `$responses[$k]`, `None` when it is not set. */
  function SlotAt(slots: seq<Option<Outcome>>, k: nat): Option<Outcome> {
    if k < |slots| then slots[k] else None
  }

  /** The body of a set slot that is not an exception. */
  function BodyOf(slot: Option<Outcome>): Option<string> {
    if slot.Some? && slot.value.Fulfilled? then Some(slot.value.body) else None
  }

  function IssueRowOf(issue: RawIssue, term: string): IssueRow {
    IssueRow(issue.id, issue.iid, issue.title, ExtractExcerpt(issue.description.GetOr(""), term), issue.webUrl)
  }

  /** The rows of the matching issues. */
  function IssueRows(issues: seq<RawIssue>, term: string): seq<IssueRow> {
    FilterMap(issues, i => IssueMatches(i, term), i => IssueRowOf(i, term))
  }

  /** The issue `foreach` of the response loop. */
  method FilterIssueRows(issues: seq<RawIssue>, term: string) returns (rows: seq<IssueRow>)
    ensures rows == IssueRows(issues, term)
  {
    rows := [];
    for i := 0 to |issues|
      invariant rows == IssueRows(issues[..i], term)
    {
      assert issues[..i + 1][..i] == issues[..i];
      if IssueMatches(issues[i], term) {
        rows := rows + [IssueRowOf(issues[i], term)];
      }
    }
    assert issues[..|issues|] == issues;
  }

  /** An issue gets a row exactly when its title or description holds the term. */
  lemma IssueRowsKeepMatches(issues: seq<RawIssue>, term: string)
    ensures forall i :: i in issues && IssueMatches(i, term) ==> IssueRowOf(i, term) in IssueRows(issues, term)
    ensures forall r :: r in IssueRows(issues, term) ==>
      exists i :: i in issues && IssueMatches(i, term) && r == IssueRowOf(i, term)
    ensures IssueRows(issues, term) == [] <==> forall i :: i in issues ==> !IssueMatches(i, term)
  {
    var keep, f := (i: RawIssue) => IssueMatches(i, term), (i: RawIssue) => IssueRowOf(i, term);
    FilterMapMembers(issues, keep, f);
    FilterMapEmpty(issues, keep, f);
  }

  /** The issue rows a slot yields: none for an unset slot or an exception. */
  function IssueSlotRows(s: Search, slot: Option<Outcome>): seq<IssueRow> {
    match BodyOf(slot)
    case Some(body) => IssueRows(s.decodeIssues(body).List(), s.term)
    case None => []
  }

  /** The wiki rows a slot yields for project `p`. */
  function WikiSlotRows(s: Search, p: int, slot: Option<Outcome>): seq<WikiHit>
    requires p in s.details
  {
    match BodyOf(slot)
    case Some(body) => WikiHits(s.gitlabUrl, s.details[p], s.decodeWiki(body).List(), s.term)
    case None => []
  }

  const NoEntry: Entry := Entry(None, None, None)

  /** `$results[$projectId]['issues'] = $rows` when there are rows. */
  function SetIssues(results: Arr<Entry>, p: int, rows: seq<IssueRow>): Arr<Entry> {
    if rows == [] then results else Put(results, p, Get(results, p).GetOr(NoEntry).(issues := Some(rows)))
  }

  /** `$results[$projectId]['wiki'] = $rows` when there are rows. */
  function SetWiki(results: Arr<Entry>, p: int, rows: seq<WikiHit>): Arr<Entry> {
    if rows == [] then results else Put(results, p, Get(results, p).GetOr(NoEntry).(wiki := Some(rows)))
  }

  /** The `unset` of a project with neither issues nor wiki rows. */
  function Prune(results: Arr<Entry>, p: int): Arr<Entry> {
    var e := Get(results, p);
    if e.None? || (e.value.issues.None? && e.value.wiki.None?) then Unset(results, p) else results
  }

  /** One project of the response loop, given the slots its two reads see. */
  function ProcessProject(s: Search, p: int, issuesSlot: Option<Outcome>, wikiSlot: Option<Outcome>,
                          results: Arr<Entry>): Arr<Entry>
  {
    if p !in s.details then results
    else
      var r1 := if s.want.issues then SetIssues(results, p, IssueSlotRows(s, issuesSlot)) else results;
      var r2 := if s.want.wiki then SetWiki(r1, p, WikiSlotRows(s, p, wikiSlot)) else r1;
      Prune(r2, p)
  }

  /** The response loop from project list `ids` on, the running index at `idx`. */
  function ConsumeFrom(s: Search, ids: seq<int>, slots: seq<Option<Outcome>>, idx: nat, results: Arr<Entry>)
    : Arr<Entry>
    decreases |ids|
  {
    if ids == [] then results
    else
      var p := ids[0];
      var wikiIdx := if s.want.issues then idx + 1 else idx;
      var next := ProcessProject(s, p, SlotAt(slots, idx), SlotAt(slots, wikiIdx), results);
      ConsumeFrom(s, ids[1..], slots, idx + |ProjectRequests(p, s.details, s.want)|, next)
  }

  /** The issues half of one iteration of the response loop. */
  method ConsumeIssues(s: Search, p: int, slot: Option<Outcome>, results: Arr<Entry>)
    returns (results': Arr<Entry>)
    ensures results' == SetIssues(results, p, IssueSlotRows(s, slot))
  {
    results' := results;
    if slot.Some? && !slot.value.Rejected? {
      var rows := FilterIssueRows(s.decodeIssues(slot.value.body).List(), s.term);
      if rows != [] {
        results' := Put(results', p, Get(results', p).GetOr(NoEntry).(issues := Some(rows)));
      }
    }
  }

  /** The wiki half of one iteration of the response loop. */
  method ConsumeWiki(s: Search, p: int, slot: Option<Outcome>, results: Arr<Entry>)
    returns (results': Arr<Entry>)
    requires p in s.details
    ensures results' == SetWiki(results, p, WikiSlotRows(s, p, slot))
  {
    results' := results;
    if slot.Some? && !slot.value.Rejected? {
      var rows := FilterWikiPages(s.gitlabUrl, s.details[p], s.decodeWiki(slot.value.body).List(), s.term);
      if rows != [] {
        results' := Put(results', p, Get(results', p).GetOr(NoEntry).(wiki := Some(rows)));
      }
    }
  }

  /**
   * One iteration of the response loop: read the issues slot, then the
   * wiki slot, advancing the index once per wanted source whatever the
   * slot held; then drop the project if it has no rows.
   */
  method ConsumeProject(s: Search, p: int, slots: seq<Option<Outcome>>, idx: nat, results: Arr<Entry>)
    returns (results': Arr<Entry>, idx': nat, read: seq<Request>)
    ensures results' == ProcessProject(s, p, SlotAt(slots, idx), SlotAt(slots, if s.want.issues then idx + 1 else idx), results)
    ensures read == ProjectRequests(p, s.details, s.want)
    ensures idx' == idx + |read|
  {
    results', idx', read := results, idx, [];
    if p !in s.details {
      return;
    }
    if s.want.issues {
      results' := ConsumeIssues(s, p, SlotAt(slots, idx'), results');
      read := read + [Request(p, IssuesSource)];
      idx' := idx' + 1;
    }
    if s.want.wiki {
      results' := ConsumeWiki(s, p, SlotAt(slots, idx'), results');
      read := read + [Request(p, WikiSource)];
      idx' := idx' + 1;
    }
    var e := Get(results', p);
    if e.None? || (e.value.issues.None? && e.value.wiki.None?) {
      results' := Unset(results', p);
    }
  }

  /** The response loop's specification, unfolded once. */
  lemma ConsumeUnfold(s: Search, q: seq<int>, slots: seq<Option<Outcome>>, idx: nat,
                      results: Arr<Entry>, results': Arr<Entry>, read: seq<Request>)
    requires q != []
    requires results' == ProcessProject(s, q[0], SlotAt(slots, idx), SlotAt(slots, if s.want.issues then idx + 1 else idx), results)
    requires read == ProjectRequests(q[0], s.details, s.want)
    ensures ConsumeFrom(s, q, slots, idx, results) == ConsumeFrom(s, q[1..], slots, idx + |read|, results')
  {
  }

  /** One step of the response loop keeps the result it leads to. */
  lemma ConsumeAdvance(s: Search, ids: seq<int>, i: nat, slots: seq<Option<Outcome>>, idx: nat,
                       results: Arr<Entry>, results': Arr<Entry>, read: seq<Request>, total: Arr<Entry>)
    requires i < |ids|
    requires ConsumeFrom(s, ids[i..], slots, idx, results) == total
    requires results' == ProcessProject(s, ids[i], SlotAt(slots, idx), SlotAt(slots, if s.want.issues then idx + 1 else idx), results)
    requires read == ProjectRequests(ids[i], s.details, s.want)
    ensures ConsumeFrom(s, ids[i + 1..], slots, idx + |read|, results') == total
  {
    ConsumeUnfold(s, ids[i..], slots, idx, results, results', read);
    assert ids[i..][1..] == ids[i + 1..];
  }

  /** The request list grows by one project's requests. */
  lemma RequestsForSnoc(ids: seq<int>, i: nat, details: map<int, ProjectDetails>, want: Want)
    requires i < |ids|
    ensures RequestsFor(ids[..i + 1], details, want) == RequestsFor(ids[..i], details, want) + ProjectRequests(ids[i], details, want)
  {
    assert ids[..i + 1][..i] == ids[..i];
  }

  /**
   * The third `foreach`, with `$requestIndex`. `consumed` lists, in order,
   * the request each slot read was made for: it is exactly the request
   * list, so slot `k` is read by the project and source that created
   * request `k`, and every slot is read once.
   */
  method ConsumeResponses(s: Search, ids: seq<int>, slots: seq<Option<Outcome>>, init: Arr<Entry>)
    returns (results: Arr<Entry>, consumed: seq<Request>)
    ensures consumed == RequestsFor(ids, s.details, s.want)
    ensures results == ConsumeFrom(s, ids, slots, 0, init)
  {
    results, consumed := init, [];
    var requestIndex: nat := 0;
    for i := 0 to |ids|
      invariant requestIndex == |consumed|
      invariant consumed == RequestsFor(ids[..i], s.details, s.want)
      invariant ConsumeFrom(s, ids[i..], slots, requestIndex, results) == ConsumeFrom(s, ids, slots, 0, init)
    {
      var results', requestIndex', read := ConsumeProject(s, ids[i], slots, requestIndex, results);
      ConsumeAdvance(s, ids, i, slots, requestIndex, results, results', read,
                     ConsumeFrom(s, ids, slots, 0, init));
      RequestsForSnoc(ids, i, s.details, s.want);
      results, requestIndex, consumed := results', requestIndex', consumed + read;
    }
    assert ids[..|ids|] == ids;
  }

  // ---------------------------------------------------------------------
  // What the response loop computes

  /** The response loop when each request's answer is `resp` of that request. */
  function ByRequest(s: Search, ids: seq<int>, resp: Request -> Option<Outcome>, results: Arr<Entry>): Arr<Entry>
    decreases |ids|
  {
    if ids == [] then results
    else
      var p := ids[0];
      ByRequest(s, ids[1..], resp, ProcessProject(s, p, resp(Request(p, IssuesSource)), resp(Request(p, WikiSource)), results))
  }

  /** A source that is not wanted is never read. */
  lemma ProcessProjectReads(s: Search, p: int, a: Option<Outcome>, a': Option<Outcome>,
                            b: Option<Outcome>, b': Option<Outcome>, results: Arr<Entry>)
    requires p in s.details && s.want.issues ==> a == a'
    requires p in s.details && s.want.wiki ==> b == b'
    ensures ProcessProject(s, p, a, b, results) == ProcessProject(s, p, a', b', results)
  {
  }

  /** The first project's requests head the list. */
  lemma RequestsForCons(ids: seq<int>, details: map<int, ProjectDetails>, want: Want)
    requires ids != []
    ensures RequestsFor(ids, details, want) == ProjectRequests(ids[0], details, want) + RequestsFor(ids[1..], details, want)
  {
    var g := (p: int) => ProjectRequests(p, details, want);
    assert ids == [ids[0]] + ids[1..];
    ConcatMapAppend([ids[0]], ids[1..], g);
    assert [ids[0]][..0] == [];
  }

  /** The first project reads the slots of its own requests. */
  lemma HeadSlots(s: Search, ids: seq<int>, slots: seq<Option<Outcome>>, idx: nat,
                  resp: Request -> Option<Outcome>, results: Arr<Entry>)
    requires ids != []
    requires forall k :: 0 <= k < |RequestsFor(ids, s.details, s.want)| ==>
      SlotAt(slots, idx + k) == resp(RequestsFor(ids, s.details, s.want)[k])
    ensures var p := ids[0];
      ProcessProject(s, p, SlotAt(slots, idx), SlotAt(slots, if s.want.issues then idx + 1 else idx), results)
      == ProcessProject(s, p, resp(Request(p, IssuesSource)), resp(Request(p, WikiSource)), results)
  {
    var p := ids[0];
    var all := RequestsFor(ids, s.details, s.want);
    RequestsForCons(ids, s.details, s.want);
    var wikiIdx := if s.want.issues then idx + 1 else idx;
    if p in s.details && s.want.issues {
      assert all[0] == Request(p, IssuesSource);
      assert SlotAt(slots, idx + 0) == resp(all[0]);
    }
    if p in s.details && s.want.wiki {
      assert all[wikiIdx - idx] == Request(p, WikiSource);
      assert SlotAt(slots, idx + (wikiIdx - idx)) == resp(all[wikiIdx - idx]);
    }
    ProcessProjectReads(s, p, SlotAt(slots, idx), resp(Request(p, IssuesSource)),
                        SlotAt(slots, wikiIdx), resp(Request(p, WikiSource)), results);
  }

  /** The other projects' requests follow the first project's. */
  lemma TailSlots(s: Search, ids: seq<int>, slots: seq<Option<Outcome>>, idx: nat, resp: Request -> Option<Outcome>)
    requires ids != []
    requires forall k :: 0 <= k < |RequestsFor(ids, s.details, s.want)| ==>
      SlotAt(slots, idx + k) == resp(RequestsFor(ids, s.details, s.want)[k])
    ensures var n := |ProjectRequests(ids[0], s.details, s.want)|;
      forall k :: 0 <= k < |RequestsFor(ids[1..], s.details, s.want)| ==>
        SlotAt(slots, idx + n + k) == resp(RequestsFor(ids[1..], s.details, s.want)[k])
  {
    var n := |ProjectRequests(ids[0], s.details, s.want)|;
    var all, rest := RequestsFor(ids, s.details, s.want), RequestsFor(ids[1..], s.details, s.want);
    RequestsForCons(ids, s.details, s.want);
    forall k | 0 <= k < |rest| ensures SlotAt(slots, idx + n + k) == resp(rest[k]) {
      assert all[n + k] == rest[k];
      assert SlotAt(slots, idx + (n + k)) == resp(all[n + k]);
    }
  }

  /**
   * Reading slot `idx + k` for the `k`-th request: when each slot holds the
   * answer to the request of its index, the response loop processes every
   * project with the answers to its own two requests.
   */
  lemma {:induction false} SlotsFollowRequests(s: Search, ids: seq<int>, slots: seq<Option<Outcome>>, idx: nat,
                                               resp: Request -> Option<Outcome>, results: Arr<Entry>)
    requires forall k :: 0 <= k < |RequestsFor(ids, s.details, s.want)| ==>
      SlotAt(slots, idx + k) == resp(RequestsFor(ids, s.details, s.want)[k])
    ensures ConsumeFrom(s, ids, slots, idx, results) == ByRequest(s, ids, resp, results)
    decreases |ids|
  {
    if ids != [] {
      var p := ids[0];
      var mine := ProjectRequests(p, s.details, s.want);
      var viaSlots := ProcessProject(s, p, SlotAt(slots, idx), SlotAt(slots, if s.want.issues then idx + 1 else idx), results);
      var next := ProcessProject(s, p, resp(Request(p, IssuesSource)), resp(Request(p, WikiSource)), results);
      HeadSlots(s, ids, slots, idx, resp, results);
      TailSlots(s, ids, slots, idx, resp);
      ConsumeUnfold(s, ids, slots, idx, results, viaSlots, mine);
      SlotsFollowRequests(s, ids[1..], slots, idx + |mine|, resp, next);
    }
  }

  /** Each request answered by the outcome the pool recorded for it. */
  function Answers(outcome: Request -> Outcome): Request -> Option<Outcome> {
    r => Some(outcome(r))
  }

  /** The slots of a pool in which every request completed. */
  lemma PoolSlotsComplete(requests: seq<Request>, outcome: Request -> Outcome, completion: seq<int>)
    requires forall k :: 0 <= k < |requests| ==> k in completion
    ensures forall k :: 0 <= k < |requests| ==>
      SlotAt(PoolSlots(requests, outcome, completion), k) == Some(outcome(requests[k]))
  {
  }

  /**
   * Once every request has completed, the order in which they did makes no
   * difference: the response loop sees each project's own answers.
   */
  lemma AllCompleted(s: Search, ids: seq<int>, outcome: Request -> Outcome, completion: seq<int>, init: Arr<Entry>)
    requires forall k :: 0 <= k < |RequestsFor(ids, s.details, s.want)| ==> k in completion
    ensures ConsumeFrom(s, ids, PoolSlots(RequestsFor(ids, s.details, s.want), outcome, completion), 0, init)
      == ByRequest(s, ids, Answers(outcome), init)
  {
    var requests := RequestsFor(ids, s.details, s.want);
    PoolSlotsComplete(requests, outcome, completion);
    SlotsFollowRequests(s, ids, PoolSlots(requests, outcome, completion), 0, Answers(outcome), init);
  }

  // ---------------------------------------------------------------------
  // The results, project by project

  /** The issue rows a project keeps, none when issues are not searched. */
  function IssuesFound(s: Search, resp: Request -> Option<Outcome>, p: int): seq<IssueRow> {
    if s.want.issues then IssueSlotRows(s, resp(Request(p, IssuesSource))) else []
  }

  /** The wiki rows a project keeps, none when the wiki is not searched. */
  function WikiFound(s: Search, resp: Request -> Option<Outcome>, p: int): seq<WikiHit> {
    if p in s.details && s.want.wiki then WikiSlotRows(s, p, resp(Request(p, WikiSource))) else []
  }

  /** A project stays in the results: it resolved and has issue or wiki rows. */
  predicate Kept(s: Search, resp: Request -> Option<Outcome>, p: int) {
    p in s.details && (IssuesFound(s, resp, p) != [] || WikiFound(s, resp, p) != [])
  }

  function RowsField<H>(rows: seq<H>): Option<seq<H>> {
    if rows == [] then None else Some(rows)
  }

  /** A kept project's entry: its header, and each kind of rows it has. */
  function FinalEntry(s: Search, resp: Request -> Option<Outcome>, p: int): Entry {
    Entry(HeaderOf(p, s.details, s.term), RowsField(IssuesFound(s, resp, p)), RowsField(WikiFound(s, resp, p)))
  }

  /** The kept projects with their entries, in input order. */
  function Finished(s: Search, resp: Request -> Option<Outcome>, ids: seq<int>): Arr<Entry> {
    FilterMap(ids, p => Kept(s, resp, p), p => (p, FinalEntry(s, resp, p)))
  }

  /** The resolved projects with their initial entries, in input order. */
  function Pending(s: Search, ids: seq<int>): Arr<Entry> {
    FilterMap(ids, p => p in s.details, p => (p, InitEntry(p, s.details, s.term)))
  }

  predicate Distinct(xs: seq<int>) {
    forall i, j :: 0 <= i < j < |xs| ==> xs[i] != xs[j]
  }

  /** A keyed list built from `ids` has no key outside `ids`. */
  lemma {:induction false} KeysFrom<V>(ids: seq<int>, keep: int -> bool, f: int -> (int, V), key: int)
    requires forall x :: f(x).0 == x
    requires key !in ids
    ensures Absent(FilterMap(ids, keep, f), key)
  {
    if ids != [] {
      var init, last := ids[..|ids| - 1], ids[|ids| - 1];
      assert ids == init + [last];
      KeysFrom(init, keep, f, key);
      assert f(last).0 != key;
    }
  }

  /** A keyed list over one id. */
  lemma FilterMapOne<V>(p: int, keep: int -> bool, f: int -> (int, V))
    ensures FilterMap([p], keep, f) == if keep(p) then [f(p)] else []
  {
    assert [p][..0] == [];
  }

  /** Initial headers are appended in input order when no id repeats. */
  lemma {:induction false} InitResultsPending(s: Search, ids: seq<int>)
    requires Distinct(ids)
    ensures InitResults(ids, s.details, s.term) == Pending(s, ids)
  {
    if ids != [] {
      var init, p := ids[..|ids| - 1], ids[|ids| - 1];
      InitResultsPending(s, init);
      if p in s.details {
        KeysFrom(init, q => q in s.details, q => (q, InitEntry(q, s.details, s.term)), p);
        PutAbsent(Pending(s, init), p, InitEntry(p, s.details, s.term));
      }
    }
  }

  /**
   * One resolved project, its header standing after entries that do not
   * hold its key: its entry gets its rows, or is removed when it has none.
   */
  lemma ProcessResolved(s: Search, resp: Request -> Option<Outcome>, p: int, pre: Arr<Entry>, post: Arr<Entry>)
    requires p in s.details && Absent(pre, p)
    ensures ProcessProject(s, p, resp(Request(p, IssuesSource)), resp(Request(p, WikiSource)),
                           pre + [(p, InitEntry(p, s.details, s.term))] + post)
      == pre + (if Kept(s, resp, p) then [(p, FinalEntry(s, resp, p))] else []) + post
  {
    var e0 := InitEntry(p, s.details, s.term);
    var ri, rw := IssuesFound(s, resp, p), WikiFound(s, resp, p);
    var e1 := e0.(issues := RowsField(ri));
    var e2 := e1.(wiki := RowsField(rw));
    var arr := pre + [(p, e0)] + post;
    AtKey(pre, p, e0, post, e1);
    var r1 := if s.want.issues then SetIssues(arr, p, IssueSlotRows(s, resp(Request(p, IssuesSource)))) else arr;
    assert r1 == pre + [(p, e1)] + post;
    AtKey(pre, p, e1, post, e2);
    var r2 := if s.want.wiki then SetWiki(r1, p, WikiSlotRows(s, p, resp(Request(p, WikiSource)))) else r1;
    assert r2 == pre + [(p, e2)] + post;
    AtKey(pre, p, e2, post, e2);
    assert e2 == FinalEntry(s, resp, p);
  }

  /** The headers of `ids`, the first project's in front. */
  lemma PendingCons(s: Search, ids: seq<int>)
    requires ids != []
    ensures Pending(s, ids) ==
      (if ids[0] in s.details then [(ids[0], InitEntry(ids[0], s.details, s.term))] else []) + Pending(s, ids[1..])
  {
    var keep, f := (q: int) => q in s.details, (q: int) => (q, InitEntry(q, s.details, s.term));
    assert ids == [ids[0]] + ids[1..];
    FilterMapAppend([ids[0]], ids[1..], keep, f);
    FilterMapOne(ids[0], keep, f);
  }

  /** The kept projects of `done` and then `p`. */
  lemma FinishedSnoc(s: Search, resp: Request -> Option<Outcome>, done: seq<int>, p: int)
    ensures Finished(s, resp, done + [p]) ==
      Finished(s, resp, done) + (if Kept(s, resp, p) then [(p, FinalEntry(s, resp, p))] else [])
  {
    var keep, f := (q: int) => Kept(s, resp, q), (q: int) => (q, FinalEntry(s, resp, q));
    FilterMapAppend(done, [p], keep, f);
    FilterMapOne(p, keep, f);
  }

  /** With no repeated ids, the first of `ids` has no entry among the kept projects of `done`. */
  lemma FinishedLacks(s: Search, resp: Request -> Option<Outcome>, done: seq<int>, ids: seq<int>)
    requires ids != [] && Distinct(done + ids)
    ensures Absent(Finished(s, resp, done), ids[0])
  {
    var p := ids[0];
    assert (done + ids)[|done|] == p;
    forall i | 0 <= i < |done| ensures done[i] != p {
      assert (done + ids)[i] == done[i];
    }
    KeysFrom(done, (q: int) => Kept(s, resp, q), (q: int) => (q, FinalEntry(s, resp, q)), p);
  }

  /** One project of the response loop, with no repeated ids. */
  lemma DistinctStep(s: Search, resp: Request -> Option<Outcome>, done: seq<int>, ids: seq<int>)
    requires ids != [] && Distinct(done + ids)
    ensures var p := ids[0];
      ProcessProject(s, p, resp(Request(p, IssuesSource)), resp(Request(p, WikiSource)),
                     Finished(s, resp, done) + Pending(s, ids))
      == Finished(s, resp, done + [p]) + Pending(s, ids[1..])
  {
    var p := ids[0];
    PendingCons(s, ids);
    FinishedSnoc(s, resp, done, p);
    if p in s.details {
      FinishedLacks(s, resp, done, ids);
      ProcessResolved(s, resp, p, Finished(s, resp, done), Pending(s, ids[1..]));
      assert Finished(s, resp, done) + Pending(s, ids)
        == Finished(s, resp, done) + [(p, InitEntry(p, s.details, s.term))] + Pending(s, ids[1..]);
    }
  }

  /**
   * With no repeated ids, after the projects `done` the results are the
   * kept ones among `done` followed by the headers of the rest.
   */
  lemma {:induction false} ByRequestDistinct(s: Search, resp: Request -> Option<Outcome>, done: seq<int>, ids: seq<int>)
    requires Distinct(done + ids)
    ensures ByRequest(s, ids, resp, Finished(s, resp, done) + Pending(s, ids)) == Finished(s, resp, done + ids)
    decreases |ids|
  {
    if ids == [] {
      assert done + ids == done;
    } else {
      var p, rest := ids[0], ids[1..];
      DistinctStep(s, resp, done, ids);
      assert done + ids == (done + [p]) + rest;
      ByRequestDistinct(s, resp, done + [p], rest);
    }
  }

  /**
   * When no id repeats, the results are the projects that resolved and
   * have issue or wiki rows, in input order, each with its header and its
   * non-empty rows.
   */
  lemma ResultsOfDistinct(s: Search, resp: Request -> Option<Outcome>, ids: seq<int>)
    requires Distinct(ids)
    ensures ByRequest(s, ids, resp, InitResults(ids, s.details, s.term)) == Finished(s, resp, ids)
  {
    InitResultsPending(s, ids);
    assert [] + ids == ids;
    assert Finished(s, resp, []) + Pending(s, ids) == Pending(s, ids);
    ByRequestDistinct(s, resp, [], ids);
  }

  /** A project has an entry exactly when it was listed and is kept. */
  lemma FinishedMembers(s: Search, resp: Request -> Option<Outcome>, ids: seq<int>)
    ensures forall p :: p in ids && Kept(s, resp, p) ==> (p, FinalEntry(s, resp, p)) in Finished(s, resp, ids)
    ensures forall e :: e in Finished(s, resp, ids) ==> e.0 in ids && Kept(s, resp, e.0) && e.1 == FinalEntry(s, resp, e.0)
  {
    var keep, f := (q: int) => Kept(s, resp, q), (q: int) => (q, FinalEntry(s, resp, q));
    FilterMapMembers(ids, keep, f);
  }

  // ---------------------------------------------------------------------
  // The script

  datatype Reply = Fatal(message: string) | Results(results: Arr<Entry>)

  /** The parameters of a search that passed validation. */
  function SearchOf(gitlabUrl: string, searchString: string, projectIds: seq<int>, searchIn: Option<seq<string>>,
                    lookup: int -> Option<ProjectDetails>,
                    decodeIssues: string -> Payload<RawIssue>, decodeWiki: string -> Payload<RawWikiPage>): Search
  {
    Search(searchString, gitlabUrl, WantOf(searchIn), Resolved(projectIds, lookup), decodeIssues, decodeWiki)
  }

  /** The results the script prints, the pool completing requests in the order `completion` lists. */
  function ResultsOf(s: Search, ids: seq<int>, outcome: Request -> Outcome, completion: seq<int>): Arr<Entry> {
    ConsumeFrom(s, ids, PoolSlots(RequestsFor(ids, s.details, s.want), outcome, completion), 0,
                InitResults(ids, s.details, s.term))
  }

  /**
   * src/search.php as a whole. `lookup` answers the project lookups,
   * `outcome` the issue and wiki requests, and `completion` is the order in
   * which the pool completed them (an index it does not list never
   * completed). A failed validation makes no request at all.
   */
  method SearchProjects(configured: bool, gitlabUrl: string, searchString: string, projectIds: seq<int>,
                        searchIn: Option<seq<string>>, lookup: int -> Option<ProjectDetails>,
                        outcome: Request -> Outcome, completion: seq<int>,
                        decodeIssues: string -> Payload<RawIssue>, decodeWiki: string -> Payload<RawWikiPage>)
    returns (reply: Reply, lookups: seq<int>, requests: seq<Request>)
    ensures var v := Validate(configured, searchString, projectIds);
      v.Some? ==> reply == Fatal(v.value) && lookups == [] && requests == []
    ensures Validate(configured, searchString, projectIds).None? ==>
      var s := SearchOf(gitlabUrl, searchString, projectIds, searchIn, lookup, decodeIssues, decodeWiki);
      && lookups == projectIds
      && requests == RequestsFor(projectIds, s.details, s.want)
      && reply == Results(ResultsOf(s, projectIds, outcome, completion))
  {
    var v := Validate(configured, searchString, projectIds);
    if v.Some? {
      return Fatal(v.value), [], [];
    }
    var details;
    details, lookups := ResolveProjects(projectIds, lookup);
    var resolved := Resolved(projectIds, lookup);
    forall p ensures p in details <==> p in resolved {
    }
    forall p | p in details ensures details[p] == resolved[p] {
    }
    assert details == resolved;
    var s := Search(searchString, gitlabUrl, WantOf(searchIn), details, decodeIssues, decodeWiki);
    var init;
    requests, init := BuildRequests(projectIds, details, s.want, searchString);
    var slots := RunPool(requests, outcome, completion);
    var results, consumed := ConsumeResponses(s, projectIds, slots[..], init);
    reply := Results(results);
  }

  /**
   * When no id repeats and every request completed, in whatever order, the
   * script's results are the projects that resolved and have issue or wiki
   * rows, in input order, each with its header and its non-empty rows.
   */
  lemma ResultsWhenAllCompleted(s: Search, ids: seq<int>, outcome: Request -> Outcome, completion: seq<int>)
    requires Distinct(ids)
    requires forall k :: 0 <= k < |RequestsFor(ids, s.details, s.want)| ==> k in completion
    ensures ResultsOf(s, ids, outcome, completion) == Finished(s, Answers(outcome), ids)
  {
    AllCompleted(s, ids, outcome, completion, InitResults(ids, s.details, s.term));
    ResultsOfDistinct(s, Answers(outcome), ids);
  }
}
