# Search in GitLab issues and wikis — a Dafny model

This project models the core of a small web tool that searches the issues, wiki
pages and issue comments of selected GitLab projects for a term. It is a PHP
back end with a JavaScript project picker, and the model covers five files:

- `src/search.php` (module `MultiSearch`). It is the multi-project search. It
  validates the request, looks up each project, and queues one request per
  (project, source) in a concurrent pool. It then reads the pooled responses
  back in submission order: each source's items are filtered by a
  case-insensitive match on title or body, excerpts are cut, and projects
  without hits are pruned from the result array.
- `src/search_project.php` (module `ProjectSearch`). It is the one-project
  search over issues, wiki pages and issue comments. Every source fails on
  its own and is reported under its own key.
- `search.php` (modules `GitLabApi` and `LegacySearch`). These are the older
  single-file endpoints:
  - the paginated project listing that follows `Link: <…>; rel="next"` for at
    most ten pages;
  - the classification of a GitLab API reply into data or a failure message;
  - the `search` action that coerces `project_ids`, searches issues and wiki
    blobs per project, and gathers per-project errors;
  - the request dispatch.
- `src/Utils.php` (module `Utils`). It provides HTML escaping, term
  highlighting and relative-time formatting.
- `assets/js/app.js` (module `ProjectPicker`). It is the project picker:
  - display names and the case-insensitive project filter;
  - the selection with its chips, counter and search button (a `class`
    whose methods update it in place);
  - the search-term highlighter.

The shared modules are:

- `Text`: ASCII case folding, `stripos`, PHP `empty`/`trim`/`rtrim`/`intval`,
  split/join, decimal rendering.
- `Highlight`: cutting a text into plain and marked segments around every
  case-insensitive occurrence of a term.
- `Excerpt`: `extractExcerpt` and `create_excerpt`.
- `Matching`: filter-map and concat-map over lists, the issue and wiki match
  predicates, wiki page URLs.
- `PhpArray`: an integer-keyed PHP array as an ordered list of pairs.
- `GitLab`: the decoded GitLab entities.

The model takes the source's own form:

- Loops that build lists are methods with loop invariants. Each is proved
  equal to a recursive specification function, and the properties are proved
  as lemmas about that function.
- The concurrent pool is a method filling a fresh array of result slots in
  an arbitrary completion order.
- The picker's selection state is a class.

## Model

| member | source | states |
|---|---|---|
| Text.FindCI | src/search.php:215-216 | `stripos`: the result is the first position where the term occurs up to case, and it is absent exactly when the term does not occur anywhere |
| Text.OccursAtLowerInvariant | src/search.php:133-134 | an occurrence up to case does not depend on the case of the term |
| Text.TrimStart | search.php:147 | the leading part removed by `trim` is all whitespace and the rest does not start with whitespace |
| Text.TrimEnd | search.php:147 | the trailing part removed by `trim` is all whitespace and the rest does not end with whitespace |
| Text.RTrimChar | src/search.php:245 | `rtrim($url, '/')` removes exactly the trailing run of slashes |
| Text.JoinSplit | assets/js/app.js:74-76 | splitting on a character and joining with it gives the string back |
| Text.DigitsValueOfNatToString | src/search_project.php:179 | the decimal rendering of an id reads back as that id |
| Text.Intval | search.php:144 | `intval` of any string stays in the signed 64-bit range |
| Text.IntvalOfIntToString | search.php:144 | `intval` of the decimal rendering of a 64-bit integer is that integer |
| Excerpt.Substr | src/search.php:224 | `mb_substr` takes the requested slice, clipped at the end of the text |
| Excerpt.Window | src/search.php:222-223 | the excerpt window always contains the whole match and stays inside the text |
| Excerpt.ExtractExcerpt | src/search.php:209-235 | empty content gives ""; content without the term gives its first 300 characters followed by "..."; the excerpt is never longer than the term plus twice the context plus two ellipses |
| Excerpt.ExtractExcerptFound | src/search.php:215-232 | with a match, the excerpt is the window around the first match, with "..." exactly on a side where the text was clipped |
| Excerpt.ExtractExcerptContainsMatch | src/search_project.php:210-218 | with a match, the excerpt contains an occurrence of the term |
| Excerpt.ExtractExcerptNoTermIsPrefix | src/search.php:216-219 | without a match, the excerpt is a prefix of the content of at most twice the context, followed by "..." |
| Excerpt.CreateExcerpt | search.php:281-306 | empty text gives ""; an empty term gives the start of the stripped text, with "..." exactly when it was cut |
| Excerpt.PlainExcerptShape | search.php:290-299 | the plain excerpt is at most the length plus the ellipses; with a match it is the centred window, and without one it is the text's start |
| Excerpt.CreateExcerptHighlights | search.php:301-305 | the excerpt is the plain excerpt with the marked pieces wrapped in `<mark>`; removing the marks gives the plain excerpt, each marked piece is the term up to case, and an excerpt without the term is unchanged |
| Highlight.SegmentsUnmarked | search.php:303 | removing the highlight marks gives the original text back |
| Highlight.SegmentsMarkedAreTerm | src/Utils.php:38-42 | every marked piece is an occurrence of the term up to case |
| Highlight.SegmentsPlainAreNotOccurrences | src/Utils.php:38-42 | no occurrence of the term starts at a plain character, so no occurrence is missed |
| Highlight.HighlightAbsent | assets/js/app.js:414-416 | a text that does not contain the term comes back unchanged |
| Utils.EscapeHtml | src/Utils.php:12-15 | the escaped text contains none of `< > " '` and is at least as long as the input |
| Utils.EscapeHtmlAppend | src/Utils.php:12-15 | escaping works character by character, so it distributes over concatenation |
| Utils.UnescapeEscape | src/Utils.php:12-15 | escaping is lossless: decoding the entities gives the text back |
| Utils.HighlightSearchTerm | src/Utils.php:24-28 | an empty text or term returns the text as given |
| Utils.HighlightSearchTermWraps | src/Utils.php:30-42 | the output is the escaped text with every occurrence of the escaped term wrapped in the highlight span |
| Utils.HighlightSplitsEntity | src/Utils.php:31-39 | as written: text `<` and term `lt` give `&<span>lt</span>;`, although `lt` is not in the text |
| Utils.HighlightEmptyTermKeepsMarkup | src/Utils.php:26-27 | as written: an empty term returns `<b>` unescaped |
| Utils.HighlightSearchTermEscaped | src/Utils.php:24-43 | corrected: an empty text or term gives the escaped text |
| Utils.StripSpansIsEscape | src/Utils.php:31-42 | dropping the spans from the corrected output gives exactly the escaped text |
| Utils.HighlightEscapedSound | src/Utils.php:24-43 | corrected: the spans wrap occurrences of the term in the original text, dropping the spans gives the escaped text, and a text without the term is only escaped |
| Utils.FormatRelativeTime | src/Utils.php:51-71 | under a minute is "just now"; a week or more is a calendar date |
| Utils.FormatRelativeTimeCount | src/Utils.php:55-67 | the count is the number of whole units elapsed, at least 1 and below the next unit's size |
| Utils.PhrasePlural | src/Utils.php:61-67 | the phrase ends in "s ago", with the unit in the plural, exactly when the count is above 1 |
| Matching.WikiPageUrl | src/search.php:244-248 | a wiki page URL is at least as long as the wiki path plus the slug |
| Matching.WikiPageUrlShape | src/search.php:244-248 | the URL is the base URL without trailing slashes, the namespace, `/-/wikis/` and the slug |
| Matching.WikiPageUrlTrailingSlash | src/search.php:245 | a trailing slash on the configured URL does not change the page URL |
| Matching.FilterWikiPages | src/search_project.php:112-134 | the loop returns exactly the hits of the matching pages, in order |
| Matching.WikiHitsKeepMatches | src/search_project.php:121-123 | every matching page gives a hit, every hit comes from a matching page, and there are no hits exactly when no page matches |
| GitLabApi.SearchGitLabApi | search.php:230-271 | the call succeeds exactly on a 2xx reply whose body decodes, and then yields the decoded data |
| GitLabApi.SearchGitLabApiFailures | search.php:245-270 | a transport error, an undecodable 2xx body, 401, 403, 404 and other codes each give their own failure; other codes keep their code and carry exactly the first 150 characters of the stripped body when the body is not empty, and no snippet otherwise |
| GitLabApi.LinkAtSound | search.php:97-99 | a link read at a position is a well-formed `<url>; rel="next"` entry there |
| GitLabApi.LinkAtComplete | search.php:97-99 | a well-formed next entry at a position is what is read there |
| GitLabApi.ParseNextLinkLeftmost | search.php:97-99 | the parsed next link is the leftmost well-formed next entry, and none is found exactly when there is none |
| GitLabApi.ParseNextLinkOfHeader | search.php:97-99 | a header holding `<url>; rel="next"` with no `<` before it yields that url |
| GitLabApi.StepOf | search.php:79-106 | a page is collected exactly when the request went through with a 2xx status and a body that decodes |
| GitLabApi.GetProjects | search.php:128-135 | the reply lists exactly the listing's project summaries when the listing succeeded; otherwise it is a 500 carrying the listing failure's message |
| GitLabApi.FetchGitLabProjects | search.php:50-125 | the paging loop returns the listing and requests exactly the chain of pages the specification function follows |
| GitLabApi.RequestedFollowsLinks | search.php:53-107 | the requested pages start at the given URL, number at most the remaining page budget, and each one after the first is the next link of the one before |
| GitLabApi.CrawlOutcome | search.php:79-107 | the crawl succeeds exactly when the last page requested was collected, and otherwise fails with that page's failure |
| GitLabApi.CrawlStops | search.php:107 | a successful crawl stops only for want of a next link or at the page limit |
| GitLabApi.CrawlCollects | search.php:86-93 | a successful crawl returns the items of every page requested, in order |
| GitLabApi.ListingRequests | search.php:53-107 | the listing starts at the projects URL, requests at most ten pages, and every page but the last was a 2xx reply that decoded and whose next link is the following page |
| GitLabApi.ListingOutcome | search.php:79-106 | the listing succeeds exactly when the last page is a 2xx reply that decoded, and otherwise reports that page's failure |
| GitLabApi.ListingCollects | search.php:86-124 | a successful listing is the summaries of all projects of all pages requested, ended for want of a next link or at ten pages |
| GitLabApi.SummariesKeepProjects | search.php:115-122 | the summaries keep each project's id, name, full name and web URL, one per project, in order |
| ProjectSearch.NormalizeLabels | src/search_project.php:84-97 | a missing label list gives no labels |
| ProjectSearch.NormalizeLabelDefaults | src/search_project.php:84-97 | a label object keeps its name and colours, a bare or partial label gets the defaults `#888` and `#fff`, and the list keeps its length and names |
| ProjectSearch.FilterIssues | src/search_project.php:70-101 | the loop returns exactly the hits of the matching issues, in order |
| ProjectSearch.IssueHitsKeepMatches | src/search_project.php:72-76 | every matching issue gives a hit, every hit comes from a matching issue, and there are no hits exactly when none matches |
| ProjectSearch.Iids | src/search_project.php:158-160 | the iids are those of the issues, one each, in order |
| ProjectSearch.CollectComments | src/search_project.php:155-186 | the loop returns the comment hits of all issues and asks for the notes of every issue in order |
| ProjectSearch.CollectIssueComments | src/search_project.php:159-185 | the inner loop returns the hits of one issue's notes |
| ProjectSearch.CommentsSkipFailedNotes | src/search_project.php:183-185 | an issue whose notes cannot be fetched contributes nothing and does not stop the others |
| ProjectSearch.CommentHitsMembers | src/search_project.php:163-181 | every matching non-system note of every issue gives a hit, and every hit comes from one |
| ProjectSearch.IssueCommentsMembers | src/search_project.php:163-170 | within one issue, a hit is exactly a matching non-system note |
| ProjectSearch.CommentHitAnchors | src/search_project.php:179 | every comment hit's URL is its issue URL with the `#note_<id>` anchor |
| ProjectSearch.NonEmpty | src/search_project.php:103-105 | a source appears only when it has hits, and then with all of them |
| ProjectSearch.NotesCalls | src/search_project.php:160 | one notes request per issue iid, in order |
| ProjectSearch.SearchProject | src/search_project.php:21-201 | a bad request or an unknown project is fatal before any further call; otherwise the reply is the per-source result and the calls are those the selected sources make |
| ProjectSearch.SearchIssuesSource | src/search_project.php:58-109 | sets only the issues field and the issues error, after one issue search when issues are selected |
| ProjectSearch.SearchWikiSource | src/search_project.php:112-142 | sets only the wiki field and the wiki error, after one wiki listing when the wiki is selected |
| ProjectSearch.SearchCommentsSource | src/search_project.php:145-195 | sets only the comments field and error, listing the issues and then one notes request per issue |
| ProjectSearch.SourceKeys | src/search_project.php:58-195 | each source appears exactly when selected, fetched and matched, and has an error exactly when selected and its fetch failed, with the failure's message |
| ProjectSearch.SourcesIndependent | src/search_project.php:106-194 | each source's field and error depend only on that source's own responses |
| MultiSearch.ResolveProjects | src/search.php:46-56 | the lookup loop keeps exactly the ids whose lookup succeeded, with their details, and looks up every id in order |
| MultiSearch.Resolved | src/search.php:46-56 | the resolved map holds exactly the ids whose lookup succeeded |
| MultiSearch.BuildRequests | src/search.php:59-100 | the loop queues the specification's requests and builds the initial result entries |
| MultiSearch.RequestsForMembers | src/search.php:64-100 | a request is queued exactly for each resolved selected project and selected source |
| MultiSearch.RunPool | src/search.php:103-116 | the pool gives one slot per request; a slot is filled exactly when its request completed, and then with that request's outcome |
| MultiSearch.FilterIssueRows | src/search.php:131-148 | the loop returns exactly the rows of the matching issues, in order |
| MultiSearch.IssueRowsKeepMatches | src/search.php:133-135 | every matching issue gives a row, every row comes from a matching issue, and there are none exactly when none matches |
| MultiSearch.ConsumeIssues | src/search.php:126-155 | an issues slot sets the project's issues when it holds matching rows |
| MultiSearch.ConsumeWiki | src/search.php:158-186 | a wiki slot sets the project's wiki when it holds matching pages |
| MultiSearch.ConsumeProject | src/search.php:120-191 | one project reads its issues and wiki slots in queue order and advances the index past them |
| MultiSearch.ConsumeResponses | src/search.php:119-192 | the consumption loop reads exactly the queued requests and yields the specification's results |
| MultiSearch.ProcessProjectReads | src/search.php:126-159 | a project's result depends only on the slots of its own requests |
| MultiSearch.SlotsFollowRequests | src/search.php:119-186 | reading slots by queue index is the same as reading each request's own response |
| MultiSearch.PoolSlotsComplete | src/search.php:104-112 | when every request completed, every slot holds its request's outcome |
| MultiSearch.AllCompleted | src/search.php:102-192 | when every request completed, the results do not depend on the completion order |
| MultiSearch.InitResultsPending | src/search.php:65-75 | with distinct ids, the initial entries are one per resolved project, in order |
| MultiSearch.ProcessResolved | src/search.php:150-191 | a resolved project's entry is replaced by its final entry, or removed when it found nothing |
| MultiSearch.ByRequestDistinct | src/search.php:120-192 | with distinct ids, processing the projects in order turns the pending entries into the final ones |
| MultiSearch.ResultsOfDistinct | src/search.php:58-192 | with distinct ids, the results are the final entries of the kept projects, in request order |
| MultiSearch.FinishedMembers | src/search.php:188-191 | a project is in the results exactly when it was resolved and found issues or wiki pages, with exactly those |
| MultiSearch.SearchProjects | src/search.php:21-194 | an invalid request is refused before any lookup or request; otherwise every id is looked up, the specification's requests are queued, and the results are those of the pooled responses |
| MultiSearch.ResultsWhenAllCompleted | src/search.php:102-194 | with distinct ids and every request completed, the response is the final entries of the kept projects, in request order |
| PhpArray.IndexOf | src/search.php:189 | a key is found at its first position, and is reported missing exactly when absent |
| PhpArray.AtKey | src/search.php:151-190 | reading, replacing and unsetting a present key act on its own pair and keep the others in order |
| PhpArray.PutAbsent | src/search.php:71-75 | assigning a new key appends the pair |
| LegacySearch.PositiveIdsKeep | search.php:144 | the coerced ids are exactly the positive `intval`s of the posted items |
| LegacySearch.CoerceScalar | search.php:138-144 | a non-empty scalar is read as a one-item list, and an empty one as no list |
| LegacySearch.IssueItems | search.php:328-339 | one item per issue |
| LegacySearch.MapIssues | search.php:328-339 | the loop maps every issue, in order |
| LegacySearch.IssueItemsFaithful | search.php:331-337 | each item keeps the issue's id and iid, holds its title and URL escaped (decoding gives them back, and the title has no raw `< > " '`), and carries the `create_excerpt` of its description |
| LegacySearch.SearchIssues | search.php:318-341 | the issue search fails exactly when the API call fails |
| LegacySearch.SearchInProjectIssues | search.php:318-341 | the method returns the specification's result |
| LegacySearch.MapWikiBlobs | search.php:367-399 | the loop maps every wiki blob of the project, in order |
| LegacySearch.WikiItemsKeep | search.php:387-391 | every blob of the project gives an item, every item comes from one, and blobs of other projects give none |
| LegacySearch.WikiItemFallbacks | search.php:377-385 | the title falls back to the file name and then to a fixed text; the URL falls back to the base URL, the project id, `/-/wikis/` and the slug or file name |
| LegacySearch.SearchWikis | search.php:352-401 | the wiki search fails exactly when the API call fails |
| LegacySearch.SearchInProjectWikis | search.php:352-401 | the method returns the specification's result |
| LegacySearch.Collect | search.php:172-197 | one project's bundle and error entries, from its two source results |
| LegacySearch.SearchOneProject | search.php:163-198 | the per-project step gives that project's bundles and errors |
| LegacySearch.SearchAll | search.php:162-199 | the loop gathers the bundles and errors of every project, in order |
| LegacySearch.ResultsMembers | search.php:178-198 | a project has a bundle exactly when it found issues or wiki items |
| LegacySearch.ErrorsComplete | search.php:172-190 | every failing source of every project is reported |
| LegacySearch.ErrorsSound | search.php:172-190 | every reported error names a selected project and a source that failed, with its message |
| LegacySearch.Unserved | search.php:209-220 | a request no action serves is answered with 400 or 405 |
| LegacySearch.SearchAction | search.php:136-207 | the action searches exactly the coerced ids when the request is valid, and nothing otherwise |
| LegacySearch.HandleRequest | search.php:20-220 | a missing configuration is reported before any call; otherwise the action decides: project listing, search on POST, or 400/405 |
| LegacySearch.SearchRefusals | search.php:147-157 | an empty term and then an empty id list are refused with 400, and the search runs exactly when neither applies |
| ProjectPicker.DisplayName | assets/js/app.js:73-78 | the display name ends with the project name, and is the name alone when the path has no group |
| ProjectPicker.DisplayNameOfPath | assets/js/app.js:73-78 | for a path `g1/…/gk/x` the display name is `g1 / … / gk - name` |
| ProjectPicker.FilterProjectsList | assets/js/app.js:227-234 | an empty term keeps every project; otherwise a project is kept exactly when its lower-cased display name includes the term as given, and no project is added |
| ProjectPicker.IncludesLower | assets/js/app.js:232 | comparing lower-cased strings is the case-insensitive containment |
| ProjectPicker.FilterProjectsMatches | assets/js/app.js:216-234 | the typed filter keeps exactly the projects whose display name contains it up to case, in order |
| ProjectPicker.HighlightTerm | assets/js/app.js:406-417 | an empty text or term comes back unchanged |
| ProjectPicker.HighlightTermWraps | assets/js/app.js:409-416 | every occurrence up to case is wrapped, nothing else is, and removing the marks gives the text back |
| ProjectPicker.WithoutMembers | assets/js/app.js:150 | the removed id is gone, the other ids stay, and no duplicate appears |
| ProjectPicker.ToggledMembers | assets/js/app.js:143-151 | after a toggle the id is selected exactly when checked, the others are unchanged, and no duplicate appears |
| ProjectPicker.Ids | assets/js/app.js:110 | the ids of the listed projects, one each, in order |
| ProjectPicker.ChipsMembers | assets/js/app.js:178 | a chip is shown exactly for each loaded project that is selected |
| ProjectPicker.CountText | assets/js/app.js:200 | the counter is the number of selected projects in decimal, in parentheses |
| ProjectPicker.ChipRemovalAsWrittenKeepsAll | assets/js/app.js:189-191 | as written: a chip's string id never equals a numeric id, so the selection is unchanged |
| ProjectPicker.ChipRemovalAsWrittenExample | assets/js/app.js:186-191 | as written: removing the chip of project 7 leaves 7 selected |
| ProjectPicker.WithoutChip | assets/js/app.js:189-191 | corrected: the ids kept are exactly those whose decimal form differs from the chip's id |
| ProjectPicker.WithoutChipRemovesId | assets/js/app.js:186-191 | corrected: removing a chip is removing its project id |
| ProjectPicker.ChipRerenderAsWritten | assets/js/app.js:193 | as written: after a chip removal the filter "Web" lists nothing, although typing "Web" lists project "web" |
| ProjectPicker.Selection.constructor | assets/js/app.js:12-14 | the picker starts with no projects, no selection and no chips, and with the page's counter and button state |
| ProjectPicker.Selection.LoadProjects | assets/js/app.js:53-56 | loading replaces the project list and nothing else |
| ProjectPicker.Selection.UpdateSelectedProjects | assets/js/app.js:163-204 | the form field, chips, counter and button all reflect the selection, which is unchanged |
| ProjectPicker.Selection.Toggle | assets/js/app.js:139-154 | a checkbox adds or removes its project, and the display is refreshed |
| ProjectPicker.Selection.SelectAll | assets/js/app.js:104-118 | checking selects exactly the listed projects in order, unchecking clears the selection |
| ProjectPicker.Selection.RemoveChip | assets/js/app.js:186-194 | the chip's project leaves the selection, and the list re-renders with the typed filter |
| ProjectPicker.Selection.HandleSearch | assets/js/app.js:240-247 | an empty selection alerts and posts nothing; otherwise the form posts the selected ids |

## Left out

- strip_tags is a function parameter. HTML parsing is not modelled.
- json_decode is not modelled. Decoded bodies and decode failures are inputs, and a JSON value that is not a list is read as no items.
- HTTP, cURL and Guzzle are not modelled. Replies, transport errors and timeouts are inputs, and the request URLs and `urlencode` are not built.
- Guzzle's pool concurrency is a completion order over the queued requests. Threads and timing are not modelled.
- Text is ASCII. `mb_*` functions, UTF-8, multibyte case folding and `strtolower` on non-ASCII letters are not modelled.
- Text.Intval: exponent and hexadecimal forms (`"1e3"`) are not read; only the decimal prefix after whitespace and a sign is.
- `getenv`/`$_ENV` and the `.env` loading are left out. Whether the URL and key are configured is an input.
- `json_encode` key order, list-versus-object encoding and response headers are not modelled. Replies are datatypes.
- `time()`, `strtotime` and `date` are left out. Utils.FormatRelativeTime takes the elapsed seconds, and the calendar-date branch is a constructor without the formatted date.
- LegacySearch.HandleRequest: a non-empty scalar `project_ids` is wrapped into a list, but an empty one ("" or "0") reaches `array_map` as a string. The model follows PHP 8, where that throws and the request ends with 500. PHP 7 would warn and return 400 instead.
- LegacySearch.IssueItems and LegacySearch.WikiItems escape with ENT_QUOTES (Utils.EscapeHtml). `htmlspecialchars` with default flags matches that only from PHP 8.1 on; earlier versions leave `'` unescaped.
- MultiSearch.ResultsWhenAllCompleted: duplicate project ids and partly completed pools are covered by the definitions but not characterised by a lemma.
- The user-facing message strings are kept as constants. They are not proved distinct.
- `renderProjectOptions`, `renderResults`, `fetchProjects` and all DOM event wiring in `assets/js/app.js` are left out. Only the state they read or write is modelled.
- ProjectPicker.Selection.SelectAll: the checked state of the "select all" box is a parameter. It is not recomputed from the list lengths.
- ProjectPicker.Selection.constructor: the initial counter text and button state come from the page markup and are parameters.
- Regular expressions are modelled only as the literal, case-insensitive matching the code uses (`preg_quote` with the `i` flag).
- `src/search.php` does not report failed sources: a failed or missing pool response is skipped, and a project whose lookup fails is dropped. Nothing of them appears in the reply.
- The `per_page`/`scope` query parameters and the issue cap of 100 belong to the URLs, which are not modelled.
- `index.php`, `debug_comments.php` and the Vite configuration are not part of this model.

## Findings

| source | as written | input that shows it | evidently intended | confidence | as-written member | corrected member |
|---|---|---|---|---|---|---|
| src/Utils.php:31-39 | the term is searched in the already escaped text, so it can match inside an entity | text `<`, term `lt`: output `&<span>lt</span>;` | highlight occurrences in the original text, then escape each piece | high, not executed | Utils.HighlightSplitsEntity | Utils.HighlightEscapedSound |
| src/Utils.php:26-27 | an empty text or term returns the text without escaping it | text `<b>`, term `""`: output `<b>` | escape on every path | high, not executed | Utils.HighlightEmptyTermKeepsMarkup | Utils.HighlightSearchTermEscaped |
| assets/js/app.js:189-191 | the chip's `data-id` string is compared with `!==` to numeric ids, so nothing is ever removed | selection `[7]`, remove the chip of project 7: the selection stays `[7]` | remove the chip's project from the selection | high, not executed | ProjectPicker.ChipRemovalAsWrittenExample | ProjectPicker.WithoutChipRemovesId |
| assets/js/app.js:193 | the re-render passes the raw filter text to `filterProjectsList`, which compares it with lower-cased names | filter `Web`, project `web`: the typed filter lists it, the re-render lists nothing | lower-case the filter as `filterProjects` does | high, not executed | ProjectPicker.ChipRerenderAsWritten | ProjectPicker.Selection.RemoveChip |
