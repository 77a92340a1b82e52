/**
 * src/search_project.php: the search in one project that the page calls once
 * per selected project. It checks its parameters, looks the project up
 * (a failure there is fatal), then searches each requested source
 * ("issues", "wiki", "comments") on its own: a source that fails records its
 * message under `errors` and leaves the others alone, and a source's key is
 * present only when it has at least one match.
 *
 * The GitLab answers are inputs (`ProjectApi`); a Guzzle exception is a
 * `Failure` carrying its message. The requests the script makes are returned
 * as a trace of `Call`s.
 */
module ProjectSearch {
  import opened Wrappers
  import opened Text
  import opened GitLab
  import opened Excerpt
  import opened Matching

  // ---------------------------------------------------------------------
  // Labels

  /** A label as the result row carries it. */
  datatype Label = Label(name: string, color: string, textColor: string)

  const DefaultColor: string := "#888"
  const DefaultTextColor: string := "#fff"

  /** The `array_map` callback over `$issue['labels']`. */
  function NormalizeLabel(l: RawLabel): Label {
    match l
    case DetailedLabel(name, color, textColor) =>
      Label(name, color.GetOr(DefaultColor), textColor.GetOr(DefaultTextColor))
    case BareLabel(name) => Label(name, DefaultColor, DefaultTextColor)
  }

  /** `array_map(..., $issue['labels'] ?? [])`. */
  function NormalizeLabels(labels: Option<seq<RawLabel>>): (r: seq<Label>)
    ensures labels.None? ==> r == []
  {
    var ls := labels.GetOr([]);
    seq(|ls|, k requires 0 <= k < |ls| => NormalizeLabel(ls[k]))
  }

  /**
   * A label keeps its name and the colours it has, a missing colour becomes
   * '#888' and a missing text colour '#fff', and a bare label name is treated
   * exactly like a detailed label without colours. The list keeps its length
   * and order.
   */
  lemma NormalizeLabelDefaults(labels: Option<seq<RawLabel>>)
    ensures forall n: string, c: string, t: string ::
      NormalizeLabel(DetailedLabel(n, Some(c), Some(t))) == Label(n, c, t)
    ensures forall n: string ::
      NormalizeLabel(BareLabel(n)) == NormalizeLabel(DetailedLabel(n, None, None)) == Label(n, "#888", "#fff")
    ensures labels.Some? ==> |NormalizeLabels(labels)| == |labels.value|
    ensures labels.Some? ==> forall k :: 0 <= k < |labels.value| ==>
      NormalizeLabels(labels)[k].name == (match labels.value[k]
                                          case DetailedLabel(n, _, _) => n
                                          case BareLabel(n) => n)
  {
  }

  // ---------------------------------------------------------------------
  // Issues

  /** An issue result row. */
  datatype IssueHit = IssueHit(
    id: int,
    iid: int,
    title: string,
    excerpt: string,
    webUrl: string,
    labels: seq<Label>,
    state: Option<string>)

  function IssueHitOf(issue: RawIssue, term: string): IssueHit {
    IssueHit(issue.id, issue.iid, issue.title, ExtractExcerpt(issue.description.GetOr(""), term),
             issue.webUrl, NormalizeLabels(issue.labels), issue.state)
  }

  /** The rows of the matching issues. */
  function IssueHits(issues: seq<RawIssue>, term: string): seq<IssueHit> {
    FilterMap(issues, i => IssueMatches(i, term), i => IssueHitOf(i, term))
  }

  /** The `foreach ($issues as $issue)` loop of the issues source. */
  method FilterIssues(issues: seq<RawIssue>, term: string) returns (hits: seq<IssueHit>)
    ensures hits == IssueHits(issues, term)
  {
    hits := [];
    for i := 0 to |issues|
      invariant hits == IssueHits(issues[..i], term)
    {
      assert issues[..i + 1][..i] == issues[..i];
      if IssueMatches(issues[i], term) {
        hits := hits + [IssueHitOf(issues[i], term)];
      }
    }
    assert issues[..|issues|] == issues;
  }

  /** An issue gets a row exactly when its title or description holds the term. */
  lemma IssueHitsKeepMatches(issues: seq<RawIssue>, term: string)
    ensures forall i :: i in issues && IssueMatches(i, term) ==> IssueHitOf(i, term) in IssueHits(issues, term)
    ensures forall h :: h in IssueHits(issues, term) ==>
      exists i :: i in issues && IssueMatches(i, term) && h == IssueHitOf(i, term)
    ensures IssueHits(issues, term) == [] <==> forall i :: i in issues ==> !IssueMatches(i, term)
  {
    var keep, f := (i: RawIssue) => IssueMatches(i, term), (i: RawIssue) => IssueHitOf(i, term);
    FilterMapMembers(issues, keep, f);
    FilterMapEmpty(issues, keep, f);
  }

  // ---------------------------------------------------------------------
  // Comments

  /** A comment result row. */
  datatype CommentHit = CommentHit(
    id: int,
    issueIid: int,
    issueTitle: string,
    issueUrl: string,
    author: string,
    createdAt: Option<string>,
    excerpt: string,
    webUrl: string)

  const UnknownAuthor: string := "Unknown"
  const NoteAnchor: string := "#note_"

  /** A note matches when it is not a system note and its body holds the term. */
  predicate NoteMatches(note: RawNote, term: string) {
    !note.system && ContainsCI(note.body.GetOr(""), term)
  }

  function CommentHitOf(issue: RawIssue, note: RawNote, term: string): CommentHit {
    CommentHit(note.id, issue.iid, issue.title, issue.webUrl, note.authorName.GetOr(UnknownAuthor),
               note.createdAt, ExtractExcerpt(note.body.GetOr(""), term),
               issue.webUrl + NoteAnchor + IntToString(note.id))
  }

  /** The notes `foreach` walks: none when the notes request failed. */
  function NotesOf(notes: Result<Payload<RawNote>, string>): seq<RawNote> {
    match notes
    case Success(p) => p.List()
    case Failure(_) => []
  }

  /** The rows one issue contributes. */
  function IssueComments(issue: RawIssue, notes: Result<Payload<RawNote>, string>, term: string): seq<CommentHit> {
    FilterMap(NotesOf(notes), n => NoteMatches(n, term), n => CommentHitOf(issue, n, term))
  }

  /** The rows of all issues, issue after issue; `notesOf` answers `GET .../issues/:iid/notes`. */
  function CommentHits(issues: seq<RawIssue>, notesOf: int -> Result<Payload<RawNote>, string>, term: string)
    : seq<CommentHit>
  {
    ConcatMap(issues, (i: RawIssue) => IssueComments(i, notesOf(i.iid), term))
  }

  /** The iids of the issues, in order: one notes request each. */
  function Iids(issues: seq<RawIssue>): (r: seq<int>)
    ensures |r| == |issues| && forall k :: 0 <= k < |issues| ==> r[k] == issues[k].iid
  {
    if issues == [] then [] else Iids(issues[..|issues| - 1]) + [issues[|issues| - 1].iid]
  }

  /**
   * The outer `foreach` of the comments source: one notes request per issue,
   * in order.
   */
  method CollectComments(issues: seq<RawIssue>, notesOf: int -> Result<Payload<RawNote>, string>, term: string)
    returns (hits: seq<CommentHit>, fetched: seq<int>)
    ensures hits == CommentHits(issues, notesOf, term)
    ensures fetched == Iids(issues)
  {
    hits, fetched := [], [];
    for i := 0 to |issues|
      invariant hits == CommentHits(issues[..i], notesOf, term)
      invariant fetched == Iids(issues[..i])
    {
      var issue := issues[i];
      assert issues[..i + 1][..i] == issues[..i];
      fetched := fetched + [issue.iid];
      var issueHits := CollectIssueComments(issue, notesOf(issue.iid), term);
      hits := hits + issueHits;
    }
    assert issues[..|issues|] == issues;
  }

  /**
   * The inner `foreach` over one issue's notes: system notes skipped, the
   * matching ones turned into rows; a failed notes request gives none.
   */
  method CollectIssueComments(issue: RawIssue, notes: Result<Payload<RawNote>, string>, term: string)
    returns (hits: seq<CommentHit>)
    ensures hits == IssueComments(issue, notes, term)
  {
    hits := [];
    if notes.Failure? {
      return;
    }
    var list := notes.value.List();
    for j := 0 to |list|
      invariant hits == FilterMap(list[..j], n => NoteMatches(n, term), n => CommentHitOf(issue, n, term))
    {
      assert list[..j + 1][..j] == list[..j];
      if list[j].system {
        continue;
      }
      if ContainsCI(list[j].body.GetOr(""), term) {
        hits := hits + [CommentHitOf(issue, list[j], term)];
      }
    }
    assert list[..|list|] == list;
  }

  /**
   * An issue whose notes request failed contributes nothing, and the rows of
   * the issues before and after it are collected as if it were absent.
   */
  lemma CommentsSkipFailedNotes(issues: seq<RawIssue>, k: nat,
                                notesOf: int -> Result<Payload<RawNote>, string>, term: string)
    requires k < |issues| && notesOf(issues[k].iid).Failure?
    ensures CommentHits(issues, notesOf, term)
         == CommentHits(issues[..k], notesOf, term) + CommentHits(issues[k + 1..], notesOf, term)
  {
    var g := (i: RawIssue) => IssueComments(i, notesOf(i.iid), term);
    assert g(issues[k]) == [];
    ConcatMapSkip(issues, k, g);
  }

  /**
   * A row is produced exactly for each non-system note whose body holds the
   * term, of an issue whose notes were fetched; it links to the note's anchor
   * on the issue page.
   */
  lemma CommentHitsMembers(issues: seq<RawIssue>, notesOf: int -> Result<Payload<RawNote>, string>, term: string)
    ensures forall i, n :: i in issues && n in NotesOf(notesOf(i.iid)) && NoteMatches(n, term) ==>
      CommentHitOf(i, n, term) in CommentHits(issues, notesOf, term)
    ensures forall h :: h in CommentHits(issues, notesOf, term) ==>
      exists i, n :: i in issues && n in NotesOf(notesOf(i.iid)) && NoteMatches(n, term) && h == CommentHitOf(i, n, term)
  {
    var g := (i: RawIssue) => IssueComments(i, notesOf(i.iid), term);
    ConcatMapMembers(issues, g);
    forall i, n | i in issues && n in NotesOf(notesOf(i.iid)) && NoteMatches(n, term)
      ensures CommentHitOf(i, n, term) in CommentHits(issues, notesOf, term)
    {
      IssueCommentsMembers(i, notesOf(i.iid), term);
    }
    forall h | h in CommentHits(issues, notesOf, term)
      ensures exists i, n :: i in issues && n in NotesOf(notesOf(i.iid)) && NoteMatches(n, term) && h == CommentHitOf(i, n, term)
    {
      var i :| i in issues && h in g(i);
      IssueCommentsMembers(i, notesOf(i.iid), term);
    }
  }

  lemma IssueCommentsMembers(issue: RawIssue, notes: Result<Payload<RawNote>, string>, term: string)
    ensures forall n :: n in NotesOf(notes) && NoteMatches(n, term) ==> CommentHitOf(issue, n, term) in IssueComments(issue, notes, term)
    ensures forall h :: h in IssueComments(issue, notes, term) ==>
      exists n :: n in NotesOf(notes) && NoteMatches(n, term) && h == CommentHitOf(issue, n, term)
  {
    FilterMapMembers(NotesOf(notes), n => NoteMatches(n, term), n => CommentHitOf(issue, n, term));
  }

  /** Every comment row links to its note: the issue URL, "#note_" and the note id. */
  lemma CommentHitAnchors(issues: seq<RawIssue>, notesOf: int -> Result<Payload<RawNote>, string>, term: string)
    ensures forall h :: h in CommentHits(issues, notesOf, term) ==>
      h.webUrl == h.issueUrl + "#note_" + IntToString(h.id)
  {
    CommentHitsMembers(issues, notesOf, term);
  }

  // ---------------------------------------------------------------------
  // The script

  /** The sources a search can cover; the keys of `errors`. */
  datatype Source = Issues | Wiki | Comments

  /** The answers GitLab gives this script, one per kind of request. */
  datatype ProjectApi = ProjectApi(
    project: Result<ProjectDetails, string>,         // GET projects/:id
    issueSearch: Result<Payload<RawIssue>, string>,  // GET projects/:id/issues?search=...
    wikis: Result<Payload<RawWikiPage>, string>,     // GET projects/:id/wikis?with_content=1
    issueList: Result<Payload<RawIssue>, string>,    // GET projects/:id/issues (comments source)
    notes: int -> Result<Payload<RawNote>, string>)  // GET projects/:id/issues/:iid/notes

  datatype Call = GetProject | SearchIssues | ListWikis | ListIssues | ListNotes(iid: int)

  /** The JSON object the script prints on success; a `None` field is an absent key. */
  datatype ProjectResult = ProjectResult(
    projectId: string,
    projectName: string,
    searchString: string,
    issues: Option<seq<IssueHit>>,
    wiki: Option<seq<WikiHit>>,
    comments: Option<seq<CommentHit>>,
    errors: map<Source, string>)

  /** The printed reply: the result, or `{error}` with HTTP 500. */
  datatype Reply = Found(result: ProjectResult) | Fatal(message: string)

  const ConfigMissing: string := "GitLab configuration not found."
  const ProjectIdRequired: string := "Project ID is required"
  const SearchStringRequired: string := "Search string is required"

  /** The check that runs before any request. */
  function Validate(configured: bool, projectId: string, searchString: string): Option<string> {
    if !configured then Some(ConfigMissing)
    else if PhpEmpty(projectId) then Some(ProjectIdRequired)
    else if PhpEmpty(searchString) then Some(SearchStringRequired)
    else None
  }

  /** `[]` for no rows, so that the key is left out. */
  function NonEmpty<H>(hits: seq<H>): (r: Option<seq<H>>)
    ensures r.Some? <==> hits != []
    ensures r.Some? ==> r.value == hits
  {
    if hits == [] then None else Some(hits)
  }

  function IssuesField(searchIn: seq<string>, api: ProjectApi, term: string): Option<seq<IssueHit>> {
    if "issues" in searchIn && api.issueSearch.Success? then NonEmpty(IssueHits(api.issueSearch.value.List(), term))
    else None
  }

  function WikiField(gitlabUrl: string, project: ProjectDetails, searchIn: seq<string>, api: ProjectApi, term: string)
    : Option<seq<WikiHit>>
  {
    if "wiki" in searchIn && api.wikis.Success? then NonEmpty(WikiHits(gitlabUrl, project, api.wikis.value.List(), term))
    else None
  }

  function CommentsField(searchIn: seq<string>, api: ProjectApi, term: string): Option<seq<CommentHit>> {
    if "comments" in searchIn && api.issueList.Success? then NonEmpty(CommentHits(api.issueList.value.List(), api.notes, term))
    else None
  }

  /** The message of a requested source's failed request. */
  function SourceError<T>(requested: bool, response: Result<T, string>): Option<string> {
    if requested && response.Failure? then Some(response.error) else None
  }

  function Record(errors: map<Source, string>, s: Source, e: Option<string>): map<Source, string> {
    if e.Some? then errors[s := e.value] else errors
  }

  function Errors(searchIn: seq<string>, api: ProjectApi): map<Source, string> {
    var e := Record(map[], Issues, SourceError("issues" in searchIn, api.issueSearch));
    var e := Record(e, Wiki, SourceError("wiki" in searchIn, api.wikis));
    Record(e, Comments, SourceError("comments" in searchIn, api.issueList))
  }

  /** The result object once the project was found. */
  function ResultOf(gitlabUrl: string, projectId: string, searchString: string, searchIn: seq<string>,
                    project: ProjectDetails, api: ProjectApi): ProjectResult
  {
    ProjectResult(projectId, project.name, searchString,
                  IssuesField(searchIn, api, searchString),
                  WikiField(gitlabUrl, project, searchIn, api, searchString),
                  CommentsField(searchIn, api, searchString),
                  Errors(searchIn, api))
  }

  function NotesCalls(iids: seq<int>): (r: seq<Call>)
    ensures |r| == |iids| && forall k :: 0 <= k < |iids| ==> r[k] == ListNotes(iids[k])
  {
    if iids == [] then [] else NotesCalls(iids[..|iids| - 1]) + [ListNotes(iids[|iids| - 1])]
  }

  /**
   * The requests made when the project lookup succeeded, in order: the
   * lookup, the issue search, the wiki list, the issue list, then one notes
   * request per listed issue.
   */
  function ApiCalls(searchIn: seq<string>, api: ProjectApi): seq<Call> {
    var comments := "comments" in searchIn;
    [GetProject]
    + (if "issues" in searchIn then [SearchIssues] else [])
    + (if "wiki" in searchIn then [ListWikis] else [])
    + (if comments then [ListIssues] else [])
    + (if comments && api.issueList.Success? && api.issueList.value.List() != []
       then NotesCalls(Iids(api.issueList.value.List())) else [])
  }

  /**
   * The whole script on its inputs: `configured` says whether `GITLAB_URL`
   * and `GITLAB_API_KEY` are set, `gitlabUrl` is `GITLAB_URL`.
   */
  method SearchProject(configured: bool, gitlabUrl: string, projectId: string, searchString: string,
                       searchIn: seq<string>, api: ProjectApi)
    returns (reply: Reply, calls: seq<Call>)
    ensures Validate(configured, projectId, searchString).Some? ==>
      reply == Fatal(Validate(configured, projectId, searchString).value) && calls == []
    ensures Validate(configured, projectId, searchString).None? && api.project.Failure? ==>
      reply == Fatal(api.project.error) && calls == [GetProject]
    ensures Validate(configured, projectId, searchString).None? && api.project.Success? ==>
      && reply == Found(ResultOf(gitlabUrl, projectId, searchString, searchIn, api.project.value, api))
      && calls == ApiCalls(searchIn, api)
  {
    var invalid := Validate(configured, projectId, searchString);
    if invalid.Some? {
      return Fatal(invalid.value), [];
    }
    calls := [GetProject];
    if api.project.Failure? {
      return Fatal(api.project.error), calls;
    }
    var project := api.project.value;
    var result := ProjectResult(projectId, project.name, searchString, None, None, None, map[]);
    result, calls := SearchIssuesSource(result, calls, searchIn, api, searchString);
    result, calls := SearchWikiSource(result, calls, gitlabUrl, project, searchIn, api, searchString);
    result, calls := SearchCommentsSource(result, calls, searchIn, api, searchString);
    reply := Found(result);
  }

  /** The "issues" block: one search request; its rows, or its error. */
  method SearchIssuesSource(result: ProjectResult, calls: seq<Call>, searchIn: seq<string>, api: ProjectApi, term: string)
    returns (result': ProjectResult, calls': seq<Call>)
    requires result.issues.None?
    ensures result' == result.(issues := IssuesField(searchIn, api, term),
                               errors := Record(result.errors, Issues, SourceError("issues" in searchIn, api.issueSearch)))
    ensures calls' == calls + (if "issues" in searchIn then [SearchIssues] else [])
  {
    result', calls' := result, calls;
    if "issues" in searchIn {
      calls' := calls' + [SearchIssues];
      match api.issueSearch {
        case Success(body) =>
          var hits := FilterIssues(body.List(), term);
          if hits != [] {
            result' := result'.(issues := Some(hits));
          }
        case Failure(message) =>
          result' := result'.(errors := result'.errors[Issues := message]);
      }
    }
  }

  /** The "wiki" block: one list request; its rows, or its error. */
  method SearchWikiSource(result: ProjectResult, calls: seq<Call>, gitlabUrl: string, project: ProjectDetails,
                          searchIn: seq<string>, api: ProjectApi, term: string)
    returns (result': ProjectResult, calls': seq<Call>)
    requires result.wiki.None?
    ensures result' == result.(wiki := WikiField(gitlabUrl, project, searchIn, api, term),
                               errors := Record(result.errors, Wiki, SourceError("wiki" in searchIn, api.wikis)))
    ensures calls' == calls + (if "wiki" in searchIn then [ListWikis] else [])
  {
    result', calls' := result, calls;
    if "wiki" in searchIn {
      calls' := calls' + [ListWikis];
      match api.wikis {
        case Success(body) =>
          var hits := FilterWikiPages(gitlabUrl, project, body.List(), term);
          if hits != [] {
            result' := result'.(wiki := Some(hits));
          }
        case Failure(message) =>
          result' := result'.(errors := result'.errors[Wiki := message]);
      }
    }
  }

  /**
   * The "comments" block: the issue list, then, when it is not empty, the
   * notes of each listed issue; a failed issue list is the source's error.
   */
  method SearchCommentsSource(result: ProjectResult, calls: seq<Call>, searchIn: seq<string>, api: ProjectApi, term: string)
    returns (result': ProjectResult, calls': seq<Call>)
    requires result.comments.None?
    ensures result' == result.(comments := CommentsField(searchIn, api, term),
                               errors := Record(result.errors, Comments, SourceError("comments" in searchIn, api.issueList)))
    ensures var comments := "comments" in searchIn;
      calls' == calls + (if comments then [ListIssues] else [])
                + (if comments && api.issueList.Success? && api.issueList.value.List() != []
                   then NotesCalls(Iids(api.issueList.value.List())) else [])
  {
    result', calls' := result, calls;
    if "comments" in searchIn {
      calls' := calls' + [ListIssues];
      match api.issueList {
        case Success(body) =>
          var issues := body.List();
          if issues != [] {
            var hits, fetched := CollectComments(issues, api.notes, term);
            calls' := calls' + NotesCalls(fetched);
            if hits != [] {
              result' := result'.(comments := Some(hits));
            }
          } else {
            assert CommentHits(issues, api.notes, term) == [];
          }
        case Failure(message) =>
          result' := result'.(errors := result'.errors[Comments := message]);
      }
    }
  }

  /**
   * Each source's key is present exactly when the source was requested, its
   * request succeeded and at least one item matched; its error is recorded
   * exactly when it was requested and its request failed, with the
   * request's message; the two never occur together.
   */
  lemma SourceKeys(gitlabUrl: string, projectId: string, searchString: string, searchIn: seq<string>,
                   project: ProjectDetails, api: ProjectApi)
    ensures var r := ResultOf(gitlabUrl, projectId, searchString, searchIn, project, api);
      && (r.issues.Some? <==> "issues" in searchIn && api.issueSearch.Success?
                              && exists i :: i in api.issueSearch.value.List() && IssueMatches(i, searchString))
      && (Issues in r.errors <==> "issues" in searchIn && api.issueSearch.Failure?)
      && (Issues in r.errors ==> r.errors[Issues] == api.issueSearch.error && r.issues.None?)
      && (r.wiki.Some? <==> "wiki" in searchIn && api.wikis.Success?
                            && exists p :: p in api.wikis.value.List() && WikiMatches(p, searchString))
      && (Wiki in r.errors <==> "wiki" in searchIn && api.wikis.Failure?)
      && (Wiki in r.errors ==> r.errors[Wiki] == api.wikis.error && r.wiki.None?)
      && (Comments in r.errors <==> "comments" in searchIn && api.issueList.Failure?)
      && (Comments in r.errors ==> r.errors[Comments] == api.issueList.error && r.comments.None?)
      && (r.comments.Some? <==> "comments" in searchIn && api.issueList.Success?
                                && CommentHits(api.issueList.value.List(), api.notes, searchString) != [])
  {
    if api.issueSearch.Success? {
      IssueHitsKeepMatches(api.issueSearch.value.List(), searchString);
    }
    if api.wikis.Success? {
      WikiHitsKeepMatches(gitlabUrl, project, api.wikis.value.List(), searchString);
    }
  }

  /**
   * The sources do not interfere: two runs whose answers for one source
   * agree produce the same key and the same error for that source, whatever
   * the other sources answered.
   */
  lemma SourcesIndependent(gitlabUrl: string, projectId: string, searchString: string, searchIn: seq<string>,
                           project: ProjectDetails, api1: ProjectApi, api2: ProjectApi)
    ensures var r1 := ResultOf(gitlabUrl, projectId, searchString, searchIn, project, api1);
      var r2 := ResultOf(gitlabUrl, projectId, searchString, searchIn, project, api2);
      && (api1.issueSearch == api2.issueSearch ==>
            r1.issues == r2.issues && (Issues in r1.errors <==> Issues in r2.errors)
            && (Issues in r1.errors ==> r1.errors[Issues] == r2.errors[Issues]))
      && (api1.wikis == api2.wikis ==>
            r1.wiki == r2.wiki && (Wiki in r1.errors <==> Wiki in r2.errors)
            && (Wiki in r1.errors ==> r1.errors[Wiki] == r2.errors[Wiki]))
      && (api1.issueList == api2.issueList && api1.notes == api2.notes ==>
            r1.comments == r2.comments && (Comments in r1.errors <==> Comments in r2.errors)
            && (Comments in r1.errors ==> r1.errors[Comments] == r2.errors[Comments]))
  {
  }
}
