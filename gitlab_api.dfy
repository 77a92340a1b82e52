/**
 * The cURL layer of search.php: `search_gitlab_api`, which turns one HTTP
 * exchange into data or an error message, and `fetch_gitlab_projects`, which
 * walks the paginated project list by following `Link: <...>; rel="next"`
 * headers for at most ten pages.
 *
 * The network is a parameter: an exchange is given as its outcome (a
 * transport error, or a status code and a body) together with what
 * `json_decode` makes of the body. `strip_tags` is a parameter too.
 */
module GitLabApi {
  import opened Wrappers
  import opened Text
  import opened GitLab
  import Excerpt

  /** What `curl_exec` and `curl_getinfo` report. */
  datatype HttpOutcome = TransportError(message: string) | HttpResponse(code: int, body: string)

  /** `json_decode` of a body: a value, or `json_last_error_msg()`. */
  datatype Decoded<T> = Json(value: T) | JsonError(message: string)

  /** Why `search_gitlab_api` gave up; each kind has its own message. */
  datatype ApiFailure =
    | ConnectFailure(curlError: string)
    | ParseFailure(jsonError: string)
    | Unauthorized
    | Forbidden
    | NotFound
    | OtherStatus(code: int, snippet: Option<string>)

  predicate IsSuccessCode(code: int) {
    200 <= code < 300
  }

  /** How many characters of the stripped body an error message quotes. */
  const ErrorSnippetLength: nat := 150

  /**
   * `search_gitlab_api`: data when the exchange completed with a 2xx status
   * and a body that decodes, otherwise the reason, checked in the order
   * transport error, 2xx with bad JSON, 401, 403, 404, any other status.
   */
  function SearchGitLabApi<T>(outcome: HttpOutcome, decoded: Decoded<T>, stripTags: string -> string): (r: Result<T, ApiFailure>)
    ensures r.Success? <==> outcome.HttpResponse? && IsSuccessCode(outcome.code) && decoded.Json?
    ensures r.Success? ==> r.value == decoded.value
  {
    match outcome
    case TransportError(e) => Failure(ConnectFailure(e))
    case HttpResponse(code, body) =>
      if IsSuccessCode(code) then
        match decoded
        case Json(v) => Success(v)
        case JsonError(m) => Failure(ParseFailure(m))
      else if code == 401 then Failure(Unauthorized)
      else if code == 403 then Failure(Forbidden)
      else if code == 404 then Failure(NotFound)
      else Failure(OtherStatus(code,
        if PhpEmpty(body) then None else Some(Excerpt.Substr(stripTags(body), 0, ErrorSnippetLength))))
  }

  /**
   * Every failing exchange is classified by its status: 401, 403 and 404 have
   * their own kinds, any other non-2xx status keeps its code and quotes the
   * first 150 characters of the stripped body, and only when the body is not
   * empty in PHP's sense.
   */
  lemma SearchGitLabApiFailures<T>(outcome: HttpOutcome, decoded: Decoded<T>, stripTags: string -> string)
    ensures var r := SearchGitLabApi(outcome, decoded, stripTags);
      && (outcome.TransportError? ==> r == Failure(ConnectFailure(outcome.message)))
      && (outcome.HttpResponse? && IsSuccessCode(outcome.code) && decoded.JsonError? ==>
            r == Failure(ParseFailure(decoded.message)))
      && (outcome.HttpResponse? && outcome.code == 401 ==> r == Failure(Unauthorized))
      && (outcome.HttpResponse? && outcome.code == 403 ==> r == Failure(Forbidden))
      && (outcome.HttpResponse? && outcome.code == 404 ==> r == Failure(NotFound))
      && (outcome.HttpResponse? && !IsSuccessCode(outcome.code) && outcome.code !in {401, 403, 404} ==>
            && r.Failure? && r.error.OtherStatus? && r.error.code == outcome.code
            && (r.error.snippet.None? <==> PhpEmpty(outcome.body))
            && (!PhpEmpty(outcome.body) ==>
                  r.error.snippet == Some(Excerpt.Substr(stripTags(outcome.body), 0, ErrorSnippetLength)))
            && (r.error.snippet.Some? ==>
                  |r.error.snippet.value| <= ErrorSnippetLength && r.error.snippet.value <= stripTags(outcome.body)))
  {
  }

  /**
   * The error string `search_gitlab_api` returns; `resource` is the last path
   * segment of the URL. Every message is a fixed lead, the resource, and a
   * tail.
   */
  function FailureMessage(resource: string, f: ApiFailure): string {
    MessageLead(f) + resource + MessageTail(f)
  }

  function MessageLead(f: ApiFailure): (lead: string)
    ensures |lead| >= 12
  {
    match f
    case ConnectFailure(_) => "Could not connect to GitLab for '"
    case ParseFailure(_) => "Failed to parse '"
    case Unauthorized => "GitLab API Authentication Error (401) for '"
    case Forbidden => "GitLab API Forbidden (403) for '"
    case NotFound => "GitLab API Resource Not Found (404) for '"
    case OtherStatus(_, _) => "GitLab API error for '"
  }

  function MessageTail(f: ApiFailure): string {
    match f
    case ConnectFailure(e) => "' (cURL Error): " + e
    case ParseFailure(m) => "' data from GitLab: " + m
    case Unauthorized => "'. Check your API key."
    case Forbidden => "'. Ensure the API key has sufficient permissions."
    case NotFound => "'."
    case OtherStatus(code, snippet) =>
      "'. HTTP Code: " + IntToString(code) + "."
        + (match snippet case Some(s) => " Response: " + s case None => "")
  }

  /** The resource names `basename(parse_url($url, PHP_URL_PATH))` gives for the two search URLs. */
  const IssuesResource: string := "issues"
  const WikiSearchResource: string := "search"

  // ---------------------------------------------------------------------
  // The `Link` header: preg_match('/<([^>]+)>; rel="next"/', $headers)

  const NextRel: string := "; rel=\"next\""

  /**
   * `<u>; rel="next"` starts at index `p` of `h`, with `u` a non-empty run of
   * characters other than `>`.
   */
  predicate NextLinkAt(h: string, p: nat, u: string) {
    && u != []
    && (forall k :: 0 <= k < |u| ==> u[k] != '>')
    && p + |u| + 2 + |NextRel| <= |h|
    && h[p] == '<'
    && h[p + 1..p + 1 + |u|] == u
    && h[p + 1 + |u|] == '>'
    && h[p + 2 + |u|..p + 2 + |u| + |NextRel|] == NextRel
  }

  /** The first `>` at or after index `q`. */
  function CloseFrom(h: string, q: nat): (r: Option<nat>)
    requires q <= |h|
    ensures r.Some? ==> q <= r.value < |h|
    decreases |h| - q
  {
    if q == |h| then None
    else if h[q] == '>' then Some(q)
    else CloseFrom(h, q + 1)
  }

  lemma {:induction false} CloseFromFirst(h: string, q: nat)
    requires q <= |h|
    ensures CloseFrom(h, q).Some? ==>
      h[CloseFrom(h, q).value] == '>' && forall j :: q <= j < CloseFrom(h, q).value ==> h[j] != '>'
    ensures CloseFrom(h, q).None? ==> forall j :: q <= j < |h| ==> h[j] != '>'
    decreases |h| - q
  {
    if q < |h| && h[q] != '>' {
      CloseFromFirst(h, q + 1);
    }
  }

  /**
   * The match attempt at `p`: `[^>]+` cannot cross a `>`, so the group ends
   * at the first `>` after the `<`, and `; rel="next"` must follow it.
   */
  function LinkAt(h: string, p: nat): Option<string>
    requires p <= |h|
  {
    if p < |h| && h[p] == '<' then
      match CloseFrom(h, p + 1)
      case Some(q) =>
        if q > p + 1 && q + 1 + |NextRel| <= |h| && h[q + 1..q + 1 + |NextRel|] == NextRel
        then Some(h[p + 1..q]) else None
      case None => None
    else None
  }

  /** A match attempt that succeeds finds a `<url>; rel="next"`. */
  lemma LinkAtSound(h: string, p: nat)
    requires p <= |h| && LinkAt(h, p).Some?
    ensures NextLinkAt(h, p, LinkAt(h, p).value)
  {
    var q := CloseFrom(h, p + 1).value;
    CloseFromFirst(h, p + 1);
    var u := h[p + 1..q];
    forall k | 0 <= k < |u| ensures u[k] != '>' {
      assert u[k] == h[p + 1 + k];
    }
  }

  /** Every `<url>; rel="next"` at `p` is what the match attempt there finds. */
  lemma LinkAtComplete(h: string, p: nat, u: string)
    requires p <= |h| && NextLinkAt(h, p, u)
    ensures LinkAt(h, p) == Some(u)
  {
    var q := p + 1 + |u|;
    CloseFromFirst(h, p + 1);
    forall j | p + 1 <= j < q ensures h[j] != '>' {
      assert h[j] == h[p + 1..q][j - p - 1] == u[j - p - 1];
    }
    assert CloseFrom(h, p + 1) == Some(q);
  }

  /** The first index at or after `p` where the pattern matches. */
  function NextLinkPos(h: string, p: nat): (r: Option<nat>)
    requires p <= |h|
    ensures r.Some? ==> p <= r.value < |h|
    decreases |h| - p
  {
    if p == |h| then None
    else if LinkAt(h, p).Some? then Some(p)
    else NextLinkPos(h, p + 1)
  }

  lemma {:induction false} NextLinkPosFirst(h: string, p: nat)
    requires p <= |h|
    ensures var r := NextLinkPos(h, p);
      && (r.Some? ==> p <= r.value < |h| && LinkAt(h, r.value).Some?)
      && (r.Some? ==> forall q :: p <= q < r.value ==> LinkAt(h, q).None?)
      && (r.None? ==> forall q :: p <= q <= |h| ==> LinkAt(h, q).None?)
    decreases |h| - p
  {
    if p < |h| && LinkAt(h, p).None? {
      NextLinkPosFirst(h, p + 1);
    }
  }

  /**
   * The URL of the leftmost `<url>; rel="next"` in the response headers, as
   * `$matches[1]`, or None when the pattern does not match.
   */
  function ParseNextLink(h: string): Option<string> {
    match NextLinkPos(h, 0)
    case Some(q) => LinkAt(h, q)
    case None => None
  }

  /**
   * ParseNextLink is the leftmost match of the pattern: None exactly when it
   * matches nowhere, otherwise the URL matched at some index before which it
   * matches nowhere.
   */
  lemma ParseNextLinkLeftmost(h: string)
    ensures ParseNextLink(h).None? ==> forall q: nat, u :: q <= |h| ==> !NextLinkAt(h, q, u)
    ensures ParseNextLink(h).Some? ==>
      exists q: nat :: q <= |h| && NextLinkAt(h, q, ParseNextLink(h).value)
        && forall q': nat, u :: q' < q ==> !NextLinkAt(h, q', u)
  {
    var pos := NextLinkPos(h, 0);
    NextLinkPosFirst(h, 0);
    forall q: nat, u | q <= |h| && NextLinkAt(h, q, u) ensures LinkAt(h, q) == Some(u) {
      LinkAtComplete(h, q, u);
    }
    if pos.Some? {
      LinkAtSound(h, pos.value);
      assert forall q': nat, u :: q' < pos.value ==> !NextLinkAt(h, q', u);
    }
  }

  /**
   * A `Link` header in the shape GitLab sends reads back the URL of its
   * `rel="next"` entry, whatever follows it.
   */
  lemma ParseNextLinkOfHeader(pre: string, url: string, post: string)
    requires '<' !in pre && url != [] && '>' !in url
    ensures ParseNextLink(pre + "<" + url + ">" + NextRel + post) == Some(url)
  {
    var h := pre + "<" + url + ">" + NextRel + post;
    var p := |pre|;
    HeaderLayout(pre, url, post);
    assert NextLinkAt(h, p, url) by {
      forall k | 0 <= k < |url| ensures url[k] != '>' {
        assert url[k] in url;
      }
    }
    LinkAtComplete(h, p, url);
    NextLinkPosFirst(h, 0);
    var pos := NextLinkPos(h, 0);
    assert pos.Some?;
  }

  lemma HeaderLayout(pre: string, url: string, post: string)
    ensures var h := pre + "<" + url + ">" + NextRel + post;
      var p := |pre|;
      && |h| == p + |url| + 2 + |NextRel| + |post|
      && (forall k :: 0 <= k < p ==> h[k] == pre[k])
      && h[p] == '<'
      && h[p + 1..p + 1 + |url|] == url
      && h[p + 1 + |url|] == '>'
      && h[p + 2 + |url|..p + 2 + |url| + |NextRel|] == NextRel
  {
    var h := pre + "<" + url + ">" + NextRel + post;
    var p := |pre|;
    var a := h[p + 1..p + 1 + |url|];
    forall k | 0 <= k < |url| ensures a[k] == url[k] {
      assert a[k] == h[p + 1 + k];
    }
    var b := h[p + 2 + |url|..p + 2 + |url| + |NextRel|];
    forall k | 0 <= k < |NextRel| ensures b[k] == NextRel[k] {
      assert b[k] == h[p + 2 + |url| + k];
    }
  }

  // ---------------------------------------------------------------------
  // fetch_gitlab_projects

  /** One page of the project list: the exchange, its headers and the decoded body. */
  datatype PageResponse = PageResponse(outcome: HttpOutcome, headers: string, decoded: Decoded<Payload<RawProject>>)

  /** The fields of a project that the listing keeps. */
  datatype ProjectSummary = ProjectSummary(id: int, name: string, nameWithNamespace: string, webUrl: string)

  const MaxPages: nat := 10

  /** How many characters of the stripped body the listing's error message quotes. */
  const ListingSnippetLength: nat := 200

  function ProjectsUrl(gitlabUrl: string): string {
    gitlabUrl + "/api/v4/projects?membership=true&archived=false&simple=true&per_page=100"
  }

  /** The page completed with a 2xx status and a body that decodes. */
  predicate PageOk(resp: PageResponse) {
    resp.outcome.HttpResponse? && IsSuccessCode(resp.outcome.code) && resp.decoded.Json?
  }

  /** The next URL, when the headers have one that PHP considers true. */
  function NextPage(resp: PageResponse): Option<string> {
    match ParseNextLink(resp.headers)
    case Some(u) => if PhpEmpty(u) then None else Some(u)
    case None => None
  }

  /** Why a page ended the listing with an error. */
  datatype ListingFailure =
    | ListingTransport(curlError: string)
    | ListingBadJson(jsonError: string)
    | ListingBadStatus(code: int, body: string)

  function ListingMessage(f: ListingFailure, stripTags: string -> string): string {
    match f
    case ListingTransport(e) => "Could not connect to GitLab (cURL Error): " + e
    case ListingBadJson(m) => "Failed to parse project data from GitLab: " + m
    case ListingBadStatus(code, body) =>
      "GitLab API error when fetching projects. HTTP Code: " + IntToString(code) + "."
        + (if PhpEmpty(body) then "" else " Response: " + Excerpt.Substr(stripTags(body), 0, ListingSnippetLength))
  }

  /** What one page contributes: the failure that ends the listing, or its projects and its next link. */
  datatype PageStep = StopWith(failure: ListingFailure) | Collect(items: seq<RawProject>, next: Option<string>)

  /** One pass of the loop body on the answer to a page request. */
  function StepOf(resp: PageResponse): (s: PageStep)
    ensures s.Collect? <==> PageOk(resp)
  {
    match resp.outcome
    case TransportError(e) => StopWith(ListingTransport(e))
    case HttpResponse(code, body) =>
      if !IsSuccessCode(code) then StopWith(ListingBadStatus(code, body))
      else match resp.decoded
        case JsonError(m) => StopWith(ListingBadJson(m))
        case Json(payload) => Collect(payload.List(), NextPage(resp))
  }

  /** The step the loop takes for each URL. */
  function Pages(remote: string -> PageResponse): string -> PageStep {
    url => StepOf(remote(url))
  }

  /** Where the crawl goes after `step` on its `pageCount`-th page, if anywhere. */
  function Continuation(step: PageStep, pageCount: nat): Option<string> {
    if step.Collect? && step.next.Some? && pageCount < MaxPages then step.next else None
  }

  /**
   * The rest of the crawl from `url`, after `pageCount` pages, with `acc`
   * collected so far: all the projects, or the failure that stopped it.
   */
  function Crawl(url: string, step: string -> PageStep, acc: seq<RawProject>, pageCount: nat)
    : Result<seq<RawProject>, ListingFailure>
    requires pageCount < MaxPages
    decreases MaxPages - pageCount
  {
    match step(url)
    case StopWith(f) => Failure(f)
    case Collect(items, next) =>
      if next.Some? && pageCount + 1 < MaxPages then Crawl(next.value, step, acc + items, pageCount + 1)
      else Success(acc + items)
  }

  /** The URLs the crawl requests, in order. */
  function Requested(url: string, step: string -> PageStep, pageCount: nat): seq<string>
    requires pageCount < MaxPages
    decreases MaxPages - pageCount
  {
    match Continuation(step(url), pageCount + 1)
    case Some(next) => [url] + Requested(next, step, pageCount + 1)
    case None => [url]
  }

  /** The projects of the listed pages, concatenated. */
  function ItemsOf(urls: seq<string>, step: string -> PageStep): seq<RawProject> {
    if urls == [] then []
    else (if step(urls[0]).Collect? then step(urls[0]).items else []) + ItemsOf(urls[1..], step)
  }

  function Summarize(p: RawProject): ProjectSummary {
    ProjectSummary(p.id, p.name, p.nameWithNamespace, p.webUrl)
  }

  function Summaries(ps: seq<RawProject>): seq<ProjectSummary> {
    seq(|ps|, i requires 0 <= i < |ps| => Summarize(ps[i]))
  }

  /**
   * What `fetch_gitlab_projects` returns: the summaries, or the failure whose
   * message (`ListingMessage`) it puts under 'error'.
   */
  function ProjectListing(gitlabUrl: string, remote: string -> PageResponse): Result<seq<ProjectSummary>, ListingFailure> {
    match Crawl(ProjectsUrl(gitlabUrl), Pages(remote), [], 0)
    case Success(ps) => Success(Summaries(ps))
    case Failure(f) => Failure(f)
  }

  /** The reply of the `get_projects` action. */
  datatype ProjectsReply = ProjectsOk(projects: seq<ProjectSummary>) | ProjectsError(status: int, message: string)

  /** The `get_projects` action: the listing, or HTTP 500 with the listing's error message and no projects. */
  function GetProjects(gitlabUrl: string, remote: string -> PageResponse, stripTags: string -> string): (reply: ProjectsReply)
    ensures reply.ProjectsOk? <==> ProjectListing(gitlabUrl, remote).Success?
    ensures reply.ProjectsOk? ==> reply.projects == ProjectListing(gitlabUrl, remote).value
    ensures reply.ProjectsError? ==>
      reply.status == 500 && reply.message == ListingMessage(ProjectListing(gitlabUrl, remote).error, stripTags)
  {
    match ProjectListing(gitlabUrl, remote)
    case Success(ps) => ProjectsOk(ps)
    case Failure(f) => ProjectsError(500, ListingMessage(f, stripTags))
  }

  /**
   * `fetch_gitlab_projects`: the do-while loop over pages. Returns the
   * listing and the URLs it requested.
   */
  method FetchGitLabProjects(gitlabUrl: string, remote: string -> PageResponse)
    returns (r: Result<seq<ProjectSummary>, ListingFailure>, requested: seq<string>)
    ensures r == ProjectListing(gitlabUrl, remote)
    ensures requested == Requested(ProjectsUrl(gitlabUrl), Pages(remote), 0)
  {
    var allProjects: seq<RawProject> := [];
    var nextPageUrl := ProjectsUrl(gitlabUrl);
    var pageCount: nat := 0;
    requested := [];
    while true
      invariant pageCount < MaxPages
      invariant Crawl(nextPageUrl, Pages(remote), allProjects, pageCount)
             == Crawl(ProjectsUrl(gitlabUrl), Pages(remote), [], 0)
      invariant requested + Requested(nextPageUrl, Pages(remote), pageCount)
             == Requested(ProjectsUrl(gitlabUrl), Pages(remote), 0)
      decreases MaxPages - pageCount
    {
      var resp := remote(nextPageUrl);
      var step := StepOf(resp);
      assert Pages(remote)(nextPageUrl) == step;
      CrawlAdvance(nextPageUrl, Pages(remote), allProjects, pageCount, requested,
                   Crawl(ProjectsUrl(gitlabUrl), Pages(remote), [], 0),
                   Requested(ProjectsUrl(gitlabUrl), Pages(remote), 0));
      requested := requested + [nextPageUrl];
      match step {
        case StopWith(f) =>
          r := Failure(f);
          return;
        case Collect(items, next) =>
          allProjects := allProjects + items;
          pageCount := pageCount + 1;
          if !(next.Some? && pageCount < MaxPages) {
            break;
          }
          nextPageUrl := next.value;
      }
    }
    r := Success(Summaries(allProjects));
  }

  /** One page of the crawl: where it goes next, or how it ends. */
  lemma CrawlUnfold(url: string, step: string -> PageStep, acc: seq<RawProject>, pageCount: nat)
    requires pageCount < MaxPages
    ensures step(url).StopWith? ==>
      Crawl(url, step, acc, pageCount) == Failure(step(url).failure) && Requested(url, step, pageCount) == [url]
    ensures step(url).Collect? && Continuation(step(url), pageCount + 1).None? ==>
      Crawl(url, step, acc, pageCount) == Success(acc + step(url).items) && Requested(url, step, pageCount) == [url]
    ensures step(url).Collect? && Continuation(step(url), pageCount + 1).Some? ==>
      var next := step(url).next.value;
      && Crawl(url, step, acc, pageCount) == Crawl(next, step, acc + step(url).items, pageCount + 1)
      && Requested(url, step, pageCount) == [url] + Requested(next, step, pageCount + 1)
  {
  }

  /**
   * One iteration of the page loop: from what the crawl from `url` and the
   * URLs requested before it add up to, the same totals after the page.
   */
  lemma CrawlAdvance(url: string, step: string -> PageStep, acc: seq<RawProject>, pageCount: nat,
                     earlier: seq<string>, total: Result<seq<RawProject>, ListingFailure>, all: seq<string>)
    requires pageCount < MaxPages
    requires Crawl(url, step, acc, pageCount) == total
    requires earlier + Requested(url, step, pageCount) == all
    ensures step(url).StopWith? ==> total == Failure(step(url).failure) && earlier + [url] == all
    ensures step(url).Collect? && Continuation(step(url), pageCount + 1).None? ==>
      total == Success(acc + step(url).items) && earlier + [url] == all
    ensures Continuation(step(url), pageCount + 1).Some? ==>
      var next := step(url).next.value;
      && Crawl(next, step, acc + step(url).items, pageCount + 1) == total
      && (earlier + [url]) + Requested(next, step, pageCount + 1) == all
  {
    CrawlUnfold(url, step, acc, pageCount);
    if Continuation(step(url), pageCount + 1).Some? {
      var later := Requested(step(url).next.value, step, pageCount + 1);
      assert earlier + ([url] + later) == (earlier + [url]) + later;
    }
  }

  /** Step `s` collected a page and links to `next`. */
  predicate Follows(s: PageStep, next: string) {
    s.Collect? && s.next == Some(next)
  }

  /** Each URL after the first is the next link of the page before it. */
  predicate Chained(urls: seq<string>, step: string -> PageStep) {
    forall i :: 0 <= i < |urls| - 1 ==> Follows(step(urls[i]), urls[i + 1])
  }

  lemma ChainedCons(url: string, rest: seq<string>, step: string -> PageStep)
    requires rest != [] && Follows(step(url), rest[0]) && Chained(rest, step)
    ensures Chained([url] + rest, step)
  {
    var urls := [url] + rest;
    forall i | 0 <= i < |urls| - 1 ensures Follows(step(urls[i]), urls[i + 1]) {
      if i > 0 {
        assert urls[i] == rest[i - 1] && urls[i + 1] == rest[i];
      }
    }
  }

  /**
   * The crawl requests between one and ten pages, starting at the first URL
   * and following only the next links of pages that succeeded.
   */
  lemma {:induction false} RequestedFollowsLinks(url: string, step: string -> PageStep, pageCount: nat)
    requires pageCount < MaxPages
    ensures var urls := Requested(url, step, pageCount);
      && 1 <= |urls| <= MaxPages - pageCount
      && urls[0] == url
      && Chained(urls, step)
    decreases MaxPages - pageCount
  {
    match Continuation(step(url), pageCount + 1)
    case Some(next) =>
      var rest := Requested(next, step, pageCount + 1);
      RequestedFollowsLinks(next, step, pageCount + 1);
      ChainedCons(url, rest, step);
    case None =>
  }

  /** The last URL the crawl requests. */
  function LastRequested(url: string, step: string -> PageStep, pageCount: nat): string
    requires pageCount < MaxPages
    decreases MaxPages - pageCount
  {
    match Continuation(step(url), pageCount + 1)
    case Some(next) => LastRequested(next, step, pageCount + 1)
    case None => url
  }

  lemma {:induction false} LastRequestedIsLast(url: string, step: string -> PageStep, pageCount: nat)
    requires pageCount < MaxPages
    ensures var urls := Requested(url, step, pageCount);
      urls != [] && urls[|urls| - 1] == LastRequested(url, step, pageCount)
    decreases MaxPages - pageCount
  {
    match Continuation(step(url), pageCount + 1)
    case Some(next) =>
      LastRequestedIsLast(next, step, pageCount + 1);
    case None =>
  }

  /**
   * The crawl succeeds exactly when the last page it requested succeeded,
   * and then stopped for a missing next link or the page limit. A failed
   * crawl carries the failure of its last page.
   */
  lemma {:induction false} CrawlOutcome(url: string, step: string -> PageStep, acc: seq<RawProject>, pageCount: nat)
    requires pageCount < MaxPages
    ensures var last := step(LastRequested(url, step, pageCount));
      var c := Crawl(url, step, acc, pageCount);
      && (c.Success? <==> last.Collect?)
      && (c.Failure? ==> last == StopWith(c.error))
    decreases MaxPages - pageCount
  {
    match Continuation(step(url), pageCount + 1)
    case Some(next) =>
      CrawlOutcome(next, step, acc + step(url).items, pageCount + 1);
    case None =>
  }

  /** A successful crawl stopped because its last page had no next link or the page limit was reached. */
  lemma {:induction false} CrawlStops(url: string, step: string -> PageStep, pageCount: nat)
    requires pageCount < MaxPages
    ensures var last := step(LastRequested(url, step, pageCount));
      last.Collect? ==> last.next.None? || |Requested(url, step, pageCount)| == MaxPages - pageCount
    decreases MaxPages - pageCount
  {
    match Continuation(step(url), pageCount + 1)
    case Some(next) =>
      CrawlStops(next, step, pageCount + 1);
    case None =>
  }

  /**
   * A successful crawl holds the projects collected before it followed by
   * the projects of every page it requested, in order.
   */
  lemma {:induction false} CrawlCollects(url: string, step: string -> PageStep, acc: seq<RawProject>, pageCount: nat)
    requires pageCount < MaxPages
    ensures CollectsPages(url, step, acc, pageCount)
    decreases MaxPages - pageCount
  {
    match Continuation(step(url), pageCount + 1)
    case Some(next) =>
      CrawlCollects(next, step, acc + step(url).items, pageCount + 1);
      CollectsStep(url, step, acc, pageCount, next);
    case None =>
      assert Requested(url, step, pageCount) == [url];
      assert ItemsOf([url], step) == (if step(url).Collect? then step(url).items else []) + ItemsOf([], step);
  }

  predicate CollectsPages(url: string, step: string -> PageStep, acc: seq<RawProject>, pageCount: nat)
    requires pageCount < MaxPages
  {
    var c := Crawl(url, step, acc, pageCount);
    c.Success? ==> c.value == acc + ItemsOf(Requested(url, step, pageCount), step)
  }

  lemma CollectsStep(url: string, step: string -> PageStep, acc: seq<RawProject>, pageCount: nat, next: string)
    requires pageCount + 1 < MaxPages
    requires Continuation(step(url), pageCount + 1) == Some(next)
    requires CollectsPages(next, step, acc + step(url).items, pageCount + 1)
    ensures CollectsPages(url, step, acc, pageCount)
  {
    var rest := Requested(next, step, pageCount + 1);
    var urls := [url] + rest;
    assert Requested(url, step, pageCount) == urls;
    assert urls[1..] == rest;
    assert ItemsOf(urls, step) == step(url).items + ItemsOf(rest, step);
  }

  /**
   * `fetch_gitlab_projects` requests between one and ten pages, starting with
   * the project list URL and following only the `rel="next"` links of pages
   * that answered 2xx with JSON.
   */
  lemma ListingRequests(gitlabUrl: string, remote: string -> PageResponse)
    ensures var urls := Requested(ProjectsUrl(gitlabUrl), Pages(remote), 0);
      && 1 <= |urls| <= MaxPages
      && urls[0] == ProjectsUrl(gitlabUrl)
      && forall i :: 0 <= i < |urls| - 1 ==> PageOk(remote(urls[i])) && NextPage(remote(urls[i])) == Some(urls[i + 1])
  {
    var urls := Requested(ProjectsUrl(gitlabUrl), Pages(remote), 0);
    RequestedFollowsLinks(ProjectsUrl(gitlabUrl), Pages(remote), 0);
    forall i | 0 <= i < |urls| - 1
      ensures PageOk(remote(urls[i])) && NextPage(remote(urls[i])) == Some(urls[i + 1])
    {
      assert Follows(Pages(remote)(urls[i]), urls[i + 1]);
    }
  }

  /**
   * The listing succeeds exactly when the last page requested answered 2xx
   * with JSON; otherwise its message describes that page.
   */
  lemma ListingOutcome(gitlabUrl: string, remote: string -> PageResponse)
    ensures var last := remote(LastRequested(ProjectsUrl(gitlabUrl), Pages(remote), 0));
      var r := ProjectListing(gitlabUrl, remote);
      && (r.Success? <==> PageOk(last))
      && (r.Failure? ==> r.error == StepOf(last).failure)
  {
    CrawlOutcome(ProjectsUrl(gitlabUrl), Pages(remote), [], 0);
  }

  /**
   * A successful listing holds a summary of every project of every page
   * requested, in order, and ended for want of a next link or at ten pages.
   */
  lemma ListingCollects(gitlabUrl: string, remote: string -> PageResponse)
    ensures var urls := Requested(ProjectsUrl(gitlabUrl), Pages(remote), 0);
      var last := remote(LastRequested(ProjectsUrl(gitlabUrl), Pages(remote), 0));
      var r := ProjectListing(gitlabUrl, remote);
      && (r.Success? ==> r.value == Summaries(ItemsOf(urls, Pages(remote))))
      && (r.Success? ==> NextPage(last).None? || |urls| == MaxPages)
  {
    var url := ProjectsUrl(gitlabUrl);
    CrawlOutcome(url, Pages(remote), [], 0);
    CrawlCollects(url, Pages(remote), [], 0);
    CrawlStops(url, Pages(remote), 0);
  }

  /** The listing keeps one summary per collected project, in order, with its four fields. */
  lemma SummariesKeepProjects(ps: seq<RawProject>)
    ensures |Summaries(ps)| == |ps|
    ensures forall i :: 0 <= i < |ps| ==>
      Summaries(ps)[i].id == ps[i].id && Summaries(ps)[i].name == ps[i].name
      && Summaries(ps)[i].nameWithNamespace == ps[i].nameWithNamespace && Summaries(ps)[i].webUrl == ps[i].webUrl
  {
  }
}
