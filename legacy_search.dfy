/**
 * The `search` action of search.php and the dispatch around it: the
 * coercion of `project_ids`, the validation, the per-project loop that calls
 * `search_in_project_issues` and `search_in_project_wikis`, keeps a bundle
 * for every project with data and a parallel list of per-source errors, and
 * the answers to missing, unknown or misdirected actions.
 *
 * Each GitLab exchange is an input (`Exchange`): its HTTP outcome and what
 * `json_decode` makes of its body. `strip_tags` is a parameter.
 */
module LegacySearch {
  import opened Wrappers
  import opened Text
  import opened GitLab
  import opened GitLabApi
  import Excerpt
  import Utils
  import Matching

  // ---------------------------------------------------------------------
  // project_ids

  /** `$_POST['project_ids']`: absent, one value, or a list of values. */
  datatype PostValue = Missing | Scalar(value: string) | Values(items: seq<string>)

  /**
   * What reaches `array_map('intval', ...)`: a missing value is `[]`, a
   * non-empty scalar is wrapped; a scalar PHP calls empty ("" or "0") is
   * neither, and `array_map` rejects it with a TypeError (None).
   */
  function AsList(v: PostValue): Option<seq<string>> {
    match v
    case Missing => Some([])
    case Values(items) => Some(items)
    case Scalar(s) => if PhpEmpty(s) then None else Some([s])
  }

  /** `array_filter(array_map('intval', $ids), fn($id) => $id > 0)`, in list order. */
  function PositiveIds(items: seq<string>): seq<int> {
    Matching.FilterMap(items, s => Intval(s) > 0, Intval)
  }

  /** The coerced id list, or None for the TypeError. */
  function CoerceIds(v: PostValue): Option<seq<int>> {
    match AsList(v)
    case Some(items) => Some(PositiveIds(items))
    case None => None
  }

  /**
   * Every kept id is positive and is the `intval` of a posted value, and
   * every posted value with a positive `intval` is kept.
   */
  lemma PositiveIdsKeep(items: seq<string>)
    ensures forall id :: id in PositiveIds(items) ==> id > 0 && exists s :: s in items && Intval(s) == id
    ensures forall s :: s in items && Intval(s) > 0 ==> Intval(s) in PositiveIds(items)
  {
    Matching.FilterMapMembers(items, s => Intval(s) > 0, Intval);
  }

  /** A single value is read as a one-element list; an empty one makes the script fail. */
  lemma CoerceScalar(s: string)
    ensures !PhpEmpty(s) ==> CoerceIds(Scalar(s)) == Some(if Intval(s) > 0 then [Intval(s)] else [])
    ensures PhpEmpty(s) ==> CoerceIds(Scalar(s)) == None
  {
    assert [s][..0] == [];
    assert PositiveIds([]) == [];
    assert PositiveIds([s]) == PositiveIds([]) + (if Intval(s) > 0 then [Intval(s)] else []);
    if !PhpEmpty(s) {
      assert AsList(Scalar(s)) == Some([s]);
      assert CoerceIds(Scalar(s)) == Some(PositiveIds([s]));
      var one: seq<int> := if Intval(s) > 0 then [Intval(s)] else [];
      assert [] + one == one;
    }
  }

  const TermRequired: string := "Search term is required."
  const IdsRequired: string := "At least one project ID must be selected."

  /** The two 400 checks, in order: the trimmed term, then the id list. */
  function ValidateSearch(term: string, ids: seq<int>): Option<string> {
    if PhpEmpty(Trim(term)) then Some(TermRequired)
    else if ids == [] then Some(IdsRequired)
    else None
  }

  // ---------------------------------------------------------------------
  // search_in_project_issues

  /** One GitLab exchange: how the request ended and what its body decodes to. */
  datatype Exchange<T> = Exchange(outcome: HttpOutcome, decoded: Decoded<T>)

  /** An issue row of this script: escaped title and URL, marked excerpt. */
  datatype IssueItem = IssueItem(id: int, iid: int, title: string, webUrl: string, excerpt: string)

  function IssueItemOf(issue: RawIssue, term: string, stripTags: string -> string): IssueItem {
    IssueItem(issue.id, issue.iid, Utils.EscapeHtml(issue.title), Utils.EscapeHtml(issue.webUrl),
              Excerpt.CreateExcerpt(issue.description.GetOr(""), term, stripTags))
  }

  /** Every issue GitLab returns gets a row, in order; GitLab's own search is trusted. */
  function IssueItems(issues: seq<RawIssue>, term: string, stripTags: string -> string): (items: seq<IssueItem>)
    ensures |items| == |issues|
  {
    seq(|issues|, i requires 0 <= i < |issues| => IssueItemOf(issues[i], term, stripTags))
  }

  /** The `foreach` of `search_in_project_issues`. */
  method MapIssues(issues: seq<RawIssue>, term: string, stripTags: string -> string) returns (found: seq<IssueItem>)
    ensures found == IssueItems(issues, term, stripTags)
  {
    found := [];
    for i := 0 to |issues|
      invariant found == IssueItems(issues[..i], term, stripTags)
    {
      found := found + [IssueItemOf(issues[i], term, stripTags)];
    }
    assert issues[..|issues|] == issues;
  }

  /**
   * A row keeps the issue's ids, carries its title and URL escaped (no raw
   * `<`, `>`, quote) so that decoding the entities gives them back, and
   * its excerpt is `create_excerpt` of the description.
   */
  lemma IssueItemsFaithful(issues: seq<RawIssue>, term: string, stripTags: string -> string)
    ensures forall i :: 0 <= i < |issues| ==>
      var item := IssueItems(issues, term, stripTags)[i];
      && item.id == issues[i].id && item.iid == issues[i].iid
      && Utils.UnescapeHtml(item.title) == issues[i].title
      && Utils.UnescapeHtml(item.webUrl) == issues[i].webUrl
      && (forall k :: 0 <= k < |item.title| ==> !Utils.IsSpecial(item.title[k]))
      && item.excerpt == Excerpt.CreateExcerpt(issues[i].description.GetOr(""), term, stripTags)
  {
    forall i | 0 <= i < |issues|
      ensures Utils.UnescapeHtml(Utils.EscapeHtml(issues[i].title)) == issues[i].title
      ensures Utils.UnescapeHtml(Utils.EscapeHtml(issues[i].webUrl)) == issues[i].webUrl
    {
      Utils.UnescapeEscape(issues[i].title);
      Utils.UnescapeEscape(issues[i].webUrl);
    }
  }

  /** `search_in_project_issues`: the rows, or the API error message. */
  function SearchIssues(ex: Exchange<Payload<RawIssue>>, term: string, stripTags: string -> string)
    : (r: Result<seq<IssueItem>, string>)
    ensures r.Failure? <==> SearchGitLabApi(ex.outcome, ex.decoded, stripTags).Failure?
  {
    match SearchGitLabApi(ex.outcome, ex.decoded, stripTags)
    case Failure(f) => Failure(FailureMessage(IssuesResource, f))
    case Success(payload) => Success(IssueItems(payload.List(), term, stripTags))
  }

  method SearchInProjectIssues(ex: Exchange<Payload<RawIssue>>, term: string, stripTags: string -> string)
    returns (r: Result<seq<IssueItem>, string>)
    ensures r == SearchIssues(ex, term, stripTags)
  {
    var api := SearchGitLabApi(ex.outcome, ex.decoded, stripTags);
    if api.Failure? {
      return Failure(FailureMessage(IssuesResource, api.error));
    }
    var found := MapIssues(api.value.List(), term, stripTags);
    return Success(found);
  }

  // ---------------------------------------------------------------------
  // search_in_project_wikis

  /** A wiki row of this script: escaped title and URL, marked excerpt. */
  datatype WikiItem = WikiItem(title: string, webUrl: string, excerpt: string)

  const UnknownTitle: string := "Unknown Title"

  /** `title ?? (filename ?? 'Unknown Title')`. */
  function BlobTitle(b: RawWikiBlob): string {
    match b.title
    case Some(t) => t
    case None => b.filename.GetOr(UnknownTitle)
  }

  /** `slug ?? filename`; a missing one interpolates as ''. */
  function BlobSlug(b: RawWikiBlob): string {
    match b.slug
    case Some(s) => s
    case None => b.filename.GetOr("")
  }

  /** `content ?? (data ?? '')`. */
  function BlobContent(b: RawWikiBlob): string {
    match b.content
    case Some(c) => c
    case None => b.data.GetOr("")
  }

  /** `web_url`, or the fallback built from the base URL and the numeric project id. */
  function BlobUrl(b: RawWikiBlob, gitlabUrl: string, projectId: int): string {
    match b.webUrl
    case Some(u) => u
    case None => gitlabUrl + "/" + IntToString(projectId) + Matching.WikiPath + BlobSlug(b)
  }

  /** A hit is kept unless it names another project. */
  predicate SameProject(b: RawWikiBlob, projectId: int) {
    b.projectId.None? || b.projectId.value == projectId
  }

  function WikiItemOf(b: RawWikiBlob, gitlabUrl: string, projectId: int, term: string, stripTags: string -> string)
    : WikiItem
  {
    WikiItem(Utils.EscapeHtml(BlobTitle(b)), Utils.EscapeHtml(BlobUrl(b, gitlabUrl, projectId)),
             Excerpt.CreateExcerpt(BlobContent(b), term, stripTags))
  }

  /** The rows of the hits of this project, in order. */
  function WikiItems(blobs: seq<RawWikiBlob>, gitlabUrl: string, projectId: int, term: string,
                     stripTags: string -> string): seq<WikiItem>
  {
    Matching.FilterMap(blobs, b => SameProject(b, projectId), b => WikiItemOf(b, gitlabUrl, projectId, term, stripTags))
  }

  /** The `foreach` of `search_in_project_wikis`, with its `continue`. */
  method MapWikiBlobs(blobs: seq<RawWikiBlob>, gitlabUrl: string, projectId: int, term: string,
                      stripTags: string -> string) returns (found: seq<WikiItem>)
    ensures found == WikiItems(blobs, gitlabUrl, projectId, term, stripTags)
  {
    found := [];
    for i := 0 to |blobs|
      invariant found == WikiItems(blobs[..i], gitlabUrl, projectId, term, stripTags)
    {
      assert blobs[..i + 1][..i] == blobs[..i];
      var b := blobs[i];
      if b.projectId.Some? && b.projectId.value != projectId {
        continue;
      }
      found := found + [WikiItemOf(b, gitlabUrl, projectId, term, stripTags)];
    }
    assert blobs[..|blobs|] == blobs;
  }

  /**
   * Every hit of this project (or of no stated project) gets a row and
   * every row comes from one; a hit naming another project gets none.
   */
  lemma WikiItemsKeep(blobs: seq<RawWikiBlob>, gitlabUrl: string, projectId: int, term: string,
                      stripTags: string -> string)
    ensures forall b :: b in blobs && SameProject(b, projectId) ==>
      WikiItemOf(b, gitlabUrl, projectId, term, stripTags) in WikiItems(blobs, gitlabUrl, projectId, term, stripTags)
    ensures forall w :: w in WikiItems(blobs, gitlabUrl, projectId, term, stripTags) ==>
      exists b :: b in blobs && SameProject(b, projectId) && w == WikiItemOf(b, gitlabUrl, projectId, term, stripTags)
    ensures (forall b :: b in blobs ==> !SameProject(b, projectId)) ==> WikiItems(blobs, gitlabUrl, projectId, term, stripTags) == []
  {
    var keep, f := (b: RawWikiBlob) => SameProject(b, projectId),
                   (b: RawWikiBlob) => WikiItemOf(b, gitlabUrl, projectId, term, stripTags);
    Matching.FilterMapMembers(blobs, keep, f);
    Matching.FilterMapEmpty(blobs, keep, f);
  }

  /**
   * A row's title decodes to the hit's title, else its file name, else
   * "Unknown Title"; a hit without `web_url` links to
   * `<base>/<project id>/-/wikis/<slug or file name>`.
   */
  lemma WikiItemFallbacks(b: RawWikiBlob, gitlabUrl: string, projectId: int, term: string, stripTags: string -> string)
    ensures var item := WikiItemOf(b, gitlabUrl, projectId, term, stripTags);
      && Utils.UnescapeHtml(item.title) == (if b.title.Some? then b.title.value
                                           else if b.filename.Some? then b.filename.value else UnknownTitle)
      && (b.webUrl.None? ==>
            Utils.UnescapeHtml(item.webUrl) == gitlabUrl + "/" + IntToString(projectId) + "/-/wikis/"
              + (if b.slug.Some? then b.slug.value else b.filename.GetOr("")))
      && (b.webUrl.Some? ==> Utils.UnescapeHtml(item.webUrl) == b.webUrl.value)
  {
    Utils.UnescapeEscape(BlobTitle(b));
    Utils.UnescapeEscape(BlobUrl(b, gitlabUrl, projectId));
  }

  /** `search_in_project_wikis`: the rows, or the API error message. */
  function SearchWikis(ex: Exchange<Payload<RawWikiBlob>>, gitlabUrl: string, projectId: int, term: string,
                       stripTags: string -> string): (r: Result<seq<WikiItem>, string>)
    ensures r.Failure? <==> SearchGitLabApi(ex.outcome, ex.decoded, stripTags).Failure?
  {
    match SearchGitLabApi(ex.outcome, ex.decoded, stripTags)
    case Failure(f) => Failure(FailureMessage(WikiSearchResource, f))
    case Success(payload) => Success(WikiItems(payload.List(), gitlabUrl, projectId, term, stripTags))
  }

  method SearchInProjectWikis(ex: Exchange<Payload<RawWikiBlob>>, gitlabUrl: string, projectId: int, term: string,
                              stripTags: string -> string) returns (r: Result<seq<WikiItem>, string>)
    ensures r == SearchWikis(ex, gitlabUrl, projectId, term, stripTags)
  {
    var api := SearchGitLabApi(ex.outcome, ex.decoded, stripTags);
    if api.Failure? {
      return Failure(FailureMessage(WikiSearchResource, api.error));
    }
    var found := MapWikiBlobs(api.value.List(), gitlabUrl, projectId, term, stripTags);
    return Success(found);
  }

  // ---------------------------------------------------------------------
  // The per-project loop

  /** The fixed inputs of one search: base URL, term, and GitLab's answers per project. */
  datatype Context = Context(
    gitlabUrl: string,
    term: string,
    stripTags: string -> string,
    issuesAnswer: int -> Exchange<Payload<RawIssue>>,
    wikiAnswer: int -> Exchange<Payload<RawWikiBlob>>)

  function IssuesOf(c: Context, p: int): Result<seq<IssueItem>, string> {
    SearchIssues(c.issuesAnswer(p), c.term, c.stripTags)
  }

  function WikisOf(c: Context, p: int): Result<seq<WikiItem>, string> {
    SearchWikis(c.wikiAnswer(p), c.gitlabUrl, p, c.term, c.stripTags)
  }

  /** The rows of a search that succeeded, none for one that failed. */
  function RowsOf<T>(r: Result<seq<T>, string>): seq<T> {
    if r.Success? then r.value else []
  }

  /** A project's entry of `results`. */
  datatype Bundle = Bundle(projectId: int, issues: seq<IssueItem>, wikiPages: seq<WikiItem>)

  datatype ErrorKind = IssuesKind | WikiPagesKind

  /** The `type` field of an error entry. */
  function KindName(k: ErrorKind): string {
    match k
    case IssuesKind => "issues"
    case WikiPagesKind => "wiki_pages"
  }

  /** An entry of `errors_by_project`. */
  datatype ProjectError = ProjectError(projectId: int, kind: ErrorKind, message: string)

  const IssuesErrorLead: string := "Failed to search issues: "
  const WikiErrorLead: string := "Failed to search wiki pages: "

  /** `$hasDataForProject`: some search succeeded with rows. */
  predicate HasData(c: Context, p: int) {
    RowsOf(IssuesOf(c, p)) != [] || RowsOf(WikisOf(c, p)) != []
  }

  /** What a project adds to `results`, given its two searches. */
  function BundlesFrom(p: int, issues: Result<seq<IssueItem>, string>, wiki: Result<seq<WikiItem>, string>)
    : seq<Bundle>
  {
    if RowsOf(issues) != [] || RowsOf(wiki) != [] then [Bundle(p, RowsOf(issues), RowsOf(wiki))] else []
  }

  /** What a project adds to `errors_by_project`, given its two searches: the issues error, then the wiki error. */
  function ErrorsFrom(p: int, issues: Result<seq<IssueItem>, string>, wiki: Result<seq<WikiItem>, string>)
    : seq<ProjectError>
  {
    (if issues.Failure? then [ProjectError(p, IssuesKind, IssuesErrorLead + issues.error)] else [])
    + (if wiki.Failure? then [ProjectError(p, WikiPagesKind, WikiErrorLead + wiki.error)] else [])
  }

  function BundlesOf(c: Context, p: int): seq<Bundle> {
    BundlesFrom(p, IssuesOf(c, p), WikisOf(c, p))
  }

  function ErrorsOf(c: Context, p: int): seq<ProjectError> {
    ErrorsFrom(p, IssuesOf(c, p), WikisOf(c, p))
  }

  /** The bookkeeping of one iteration, once both searches have answered. */
  method Collect(p: int, issues: Result<seq<IssueItem>, string>, wiki: Result<seq<WikiItem>, string>)
    returns (bundles: seq<Bundle>, errors: seq<ProjectError>)
    ensures bundles == BundlesFrom(p, issues, wiki)
    ensures errors == ErrorsFrom(p, issues, wiki)
  {
    var data := Bundle(p, [], []);
    var hasData := false;
    errors := [];
    if issues.Failure? {
      errors := errors + [ProjectError(p, IssuesKind, IssuesErrorLead + issues.error)];
    } else if issues.value != [] {
      data := data.(issues := issues.value);
      hasData := true;
    }
    if wiki.Failure? {
      errors := errors + [ProjectError(p, WikiPagesKind, WikiErrorLead + wiki.error)];
    } else if wiki.value != [] {
      data := data.(wikiPages := wiki.value);
      hasData := true;
    }
    bundles := if hasData then [data] else [];
  }

  /** One iteration of the loop over projects. */
  method SearchOneProject(c: Context, p: int) returns (bundles: seq<Bundle>, errors: seq<ProjectError>)
    ensures bundles == BundlesOf(c, p)
    ensures errors == ErrorsOf(c, p)
  {
    var issues := SearchInProjectIssues(c.issuesAnswer(p), c.term, c.stripTags);
    var wiki := SearchInProjectWikis(c.wikiAnswer(p), c.gitlabUrl, p, c.term, c.stripTags);
    bundles, errors := Collect(p, issues, wiki);
  }

  /** The `foreach ($projectIds as $projectId)` loop. */
  method SearchAll(c: Context, ids: seq<int>) returns (results: seq<Bundle>, errors: seq<ProjectError>)
    ensures results == Matching.ConcatMap(ids, p => BundlesOf(c, p))
    ensures errors == Matching.ConcatMap(ids, p => ErrorsOf(c, p))
  {
    results, errors := [], [];
    for i := 0 to |ids|
      invariant results == Matching.ConcatMap(ids[..i], p => BundlesOf(c, p))
      invariant errors == Matching.ConcatMap(ids[..i], p => ErrorsOf(c, p))
    {
      assert ids[..i + 1][..i] == ids[..i];
      var b, e := SearchOneProject(c, ids[i]);
      results, errors := results + b, errors + e;
    }
    assert ids[..|ids|] == ids;
  }

  /**
   * A bundle is there for exactly the listed projects with data, holding
   * the rows of their successful searches; a failed search leaves the other
   * source's rows in place.
   */
  lemma ResultsMembers(c: Context, ids: seq<int>)
    ensures forall p :: p in ids && HasData(c, p) ==>
      Bundle(p, RowsOf(IssuesOf(c, p)), RowsOf(WikisOf(c, p))) in Matching.ConcatMap(ids, q => BundlesOf(c, q))
    ensures forall b :: b in Matching.ConcatMap(ids, q => BundlesOf(c, q)) ==>
      && b.projectId in ids && HasData(c, b.projectId)
      && b == Bundle(b.projectId, RowsOf(IssuesOf(c, b.projectId)), RowsOf(WikisOf(c, b.projectId)))
  {
    var g := (q: int) => BundlesOf(c, q);
    Matching.ConcatMapMembers(ids, g);
    forall b: Bundle | b in Matching.ConcatMap(ids, g)
      ensures b.projectId in ids && HasData(c, b.projectId)
      ensures b == Bundle(b.projectId, RowsOf(IssuesOf(c, b.projectId)), RowsOf(WikisOf(c, b.projectId)))
    {
      var p :| p in ids && b in g(p);
    }
    forall p | p in ids && HasData(c, p)
      ensures Bundle(p, RowsOf(IssuesOf(c, p)), RowsOf(WikisOf(c, p))) in Matching.ConcatMap(ids, g)
    {
      assert Bundle(p, RowsOf(IssuesOf(c, p)), RowsOf(WikisOf(c, p))) in g(p);
    }
  }

  /** A listed project whose issue or wiki search failed has that error, with the prefixed message. */
  lemma ErrorsComplete(c: Context, ids: seq<int>)
    ensures forall p :: p in ids && IssuesOf(c, p).Failure? ==>
      ProjectError(p, IssuesKind, IssuesErrorLead + IssuesOf(c, p).error) in Matching.ConcatMap(ids, q => ErrorsOf(c, q))
    ensures forall p :: p in ids && WikisOf(c, p).Failure? ==>
      ProjectError(p, WikiPagesKind, WikiErrorLead + WikisOf(c, p).error) in Matching.ConcatMap(ids, q => ErrorsOf(c, q))
  {
    var g := (q: int) => ErrorsOf(c, q);
    Matching.ConcatMapMembers(ids, g);
    forall p | p in ids && IssuesOf(c, p).Failure?
      ensures ProjectError(p, IssuesKind, IssuesErrorLead + IssuesOf(c, p).error) in Matching.ConcatMap(ids, g)
    {
      assert ProjectError(p, IssuesKind, IssuesErrorLead + IssuesOf(c, p).error) in g(p);
    }
    forall p | p in ids && WikisOf(c, p).Failure?
      ensures ProjectError(p, WikiPagesKind, WikiErrorLead + WikisOf(c, p).error) in Matching.ConcatMap(ids, g)
    {
      assert ProjectError(p, WikiPagesKind, WikiErrorLead + WikisOf(c, p).error) in g(p);
    }
  }

  /**
   * Every error belongs to a listed project and reports a search of it
   * that failed, with that failure's message behind the source's prefix.
   */
  lemma ErrorsSound(c: Context, ids: seq<int>)
    ensures forall e :: e in Matching.ConcatMap(ids, q => ErrorsOf(c, q)) ==>
      && e.projectId in ids
      && (e.kind == IssuesKind ==>
            IssuesOf(c, e.projectId).Failure? && e.message == IssuesErrorLead + IssuesOf(c, e.projectId).error)
      && (e.kind == WikiPagesKind ==>
            WikisOf(c, e.projectId).Failure? && e.message == WikiErrorLead + WikisOf(c, e.projectId).error)
  {
    var g := (q: int) => ErrorsOf(c, q);
    Matching.ConcatMapMembers(ids, g);
    forall e: ProjectError | e in Matching.ConcatMap(ids, g)
      ensures e.projectId in ids
      ensures e.kind == IssuesKind ==>
        IssuesOf(c, e.projectId).Failure? && e.message == IssuesErrorLead + IssuesOf(c, e.projectId).error
      ensures e.kind == WikiPagesKind ==>
        WikisOf(c, e.projectId).Failure? && e.message == WikiErrorLead + WikisOf(c, e.projectId).error
    {
      var p :| p in ids && e in g(p);
    }
  }

  // ---------------------------------------------------------------------
  // The dispatch

  datatype HttpMethod = GetMethod | PostMethod | OtherMethod

  /** The parts of the HTTP request the script reads. */
  datatype Request = Request(
    httpMethod: HttpMethod,
    postAction: Option<string>,
    getAction: Option<string>,
    searchTerm: Option<string>,
    projectIds: PostValue)

  /** `$action`: from the POST body, the query string, or '' for any other method. */
  function ActionOf(req: Request): string {
    match req.httpMethod
    case PostMethod => req.postAction.GetOr("")
    case GetMethod => req.getAction.GetOr("")
    case OtherMethod => ""
  }

  /** The JSON body the script prints. */
  datatype Body =
    | ErrorWithProjects(error: string)
    | ProjectList(projects: seq<ProjectSummary>)
    | ErrorWithResults(error: string)
    | SearchPayload(results: seq<Bundle>, errorsByProject: seq<ProjectError>)
    | ErrorOnly(error: string)
    | TypeError

  datatype Response = Response(status: int, body: Body)

  const NotConfigured: string :=
    "GitLab URL or API Key not configured. Please set GITLAB_URL and GITLAB_API_KEY in your .env file or server environment."
  const NoAction: string := "No action specified."
  const NeedsPost: string := "Search action requires POST method."
  const InvalidAction: string := "Invalid action or request method."

  /** The answer to an action the script does not serve. */
  function Unserved(action: string, httpMethod: HttpMethod): (r: Response)
    ensures r.status == 400 || r.status == 405
  {
    if PhpEmpty(action) then Response(400, ErrorOnly(NoAction))
    else if action == "search" && httpMethod != PostMethod then Response(405, ErrorOnly(NeedsPost))
    else Response(400, ErrorOnly(InvalidAction))
  }

  /** The `search` action's answer. */
  function SearchResponse(c: Context, req: Request): Response {
    match CoerceIds(req.projectIds)
    case None => Response(500, TypeError)
    case Some(ids) =>
      match ValidateSearch(c.term, ids)
      case Some(m) => Response(400, ErrorWithResults(m))
      case None =>
        Response(200, SearchPayload(Matching.ConcatMap(ids, p => BundlesOf(c, p)),
                                    Matching.ConcatMap(ids, p => ErrorsOf(c, p))))
  }

  /** The `get_projects` action's answer. */
  function ProjectsResponse(reply: ProjectsReply): Response {
    match reply
    case ProjectsOk(ps) => Response(200, ProjectList(ps))
    case ProjectsError(status, m) => Response(status, ErrorWithProjects(m))
  }

  /** The search action, which searches the listed projects only when the checks pass. */
  method SearchAction(c: Context, req: Request) returns (response: Response, searched: seq<int>)
    requires c.term == req.searchTerm.GetOr("")
    ensures response == SearchResponse(c, req)
    ensures response.status != 200 ==> searched == []
    ensures response.status == 200 ==> searched == CoerceIds(req.projectIds).value
  {
    var items := AsList(req.projectIds);
    if items.None? {
      return Response(500, TypeError), [];
    }
    var ids := PositiveIds(items.value);
    if PhpEmpty(Trim(c.term)) {
      return Response(400, ErrorWithResults(TermRequired)), [];
    }
    if ids == [] {
      return Response(400, ErrorWithResults(IdsRequired)), [];
    }
    var results, errors := SearchAll(c, ids);
    response, searched := Response(200, SearchPayload(results, errors)), ids;
  }

  /**
   * The whole script for one HTTP request. `gitlabUrl` and `apiKey` are
   * the configured values ('' when unset), `remote` answers the project
   * listing's page requests, and `c` the searches.
   */
  method HandleRequest(gitlabUrl: string, apiKey: string, req: Request, remote: string -> PageResponse,
                       c: Context) returns (response: Response, searched: seq<int>)
    requires c.gitlabUrl == gitlabUrl && c.term == req.searchTerm.GetOr("")
    ensures PhpEmpty(gitlabUrl) || PhpEmpty(apiKey) ==>
      response == Response(200, ErrorWithProjects(NotConfigured)) && searched == []
    ensures !PhpEmpty(gitlabUrl) && !PhpEmpty(apiKey) ==>
      var action := ActionOf(req);
      && (action == "get_projects" ==>
            response == ProjectsResponse(GetProjects(gitlabUrl, remote, c.stripTags)) && searched == [])
      && (action == "search" && req.httpMethod == PostMethod ==> response == SearchResponse(c, req))
      && (action != "get_projects" && !(action == "search" && req.httpMethod == PostMethod) ==>
            response == Unserved(action, req.httpMethod) && searched == [])
    ensures searched != [] ==> response.status == 200 && response.body.SearchPayload?
  {
    searched := [];
    if PhpEmpty(gitlabUrl) || PhpEmpty(apiKey) {
      return Response(200, ErrorWithProjects(NotConfigured)), [];
    }
    var action := ActionOf(req);
    if action == "get_projects" {
      var listing, requested := FetchGitLabProjects(gitlabUrl, remote);
      response := match listing
        case Success(ps) => Response(200, ProjectList(ps))
        case Failure(f) => Response(500, ErrorWithProjects(ListingMessage(f, c.stripTags)));
    } else if action == "search" && req.httpMethod == PostMethod {
      response, searched := SearchAction(c, req);
    } else {
      response := Unserved(action, req.httpMethod);
    }
  }

  /**
   * A request whose term is blank after trimming, or whose ids all coerce
   * to nothing positive, is refused with 400 and searches nothing.
   */
  lemma SearchRefusals(c: Context, req: Request)
    requires CoerceIds(req.projectIds).Some?
    ensures PhpEmpty(Trim(c.term)) ==> SearchResponse(c, req) == Response(400, ErrorWithResults(TermRequired))
    ensures !PhpEmpty(Trim(c.term)) && CoerceIds(req.projectIds).value == [] ==>
      SearchResponse(c, req) == Response(400, ErrorWithResults(IdsRequired))
    ensures SearchResponse(c, req).status == 200 <==>
      !PhpEmpty(Trim(c.term)) && CoerceIds(req.projectIds).value != []
  {
  }
}
