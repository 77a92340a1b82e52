/**
 * What src/search.php and src/search_project.php share once a list of items
 * has come back from GitLab: the `foreach` that keeps an item when the search
 * string occurs in its title or body and maps it to a result row, the wiki
 * filter (written identically in both files) and `getWikiPageUrl`.
 */
module Matching {
  import opened Wrappers
  import opened Text
  import opened GitLab
  import opened Excerpt

  // ---------------------------------------------------------------------
  // Keep-and-map over a list, in list order

  /** The rows `f(x)` of the items `x` that `keep` accepts, in the items' order. */
  function FilterMap<T, U>(xs: seq<T>, keep: T -> bool, f: T -> U): (ys: seq<U>)
    ensures |ys| <= |xs|
  {
    if xs == [] then []
    else
      var last := xs[|xs| - 1];
      FilterMap(xs[..|xs| - 1], keep, f) + (if keep(last) then [f(last)] else [])
  }

  /** A row is produced for every accepted item, and every row comes from one. */
  lemma {:induction false} FilterMapMembers<T, U>(xs: seq<T>, keep: T -> bool, f: T -> U)
    ensures forall x :: x in xs && keep(x) ==> f(x) in FilterMap(xs, keep, f)
    ensures forall y :: y in FilterMap(xs, keep, f) ==> exists x :: x in xs && keep(x) && y == f(x)
  {
    if xs != [] {
      var init, last := xs[..|xs| - 1], xs[|xs| - 1];
      FilterMapMembers(init, keep, f);
      assert xs == init + [last];
      forall y | y in FilterMap(xs, keep, f)
        ensures exists x :: x in xs && keep(x) && y == f(x)
      {
        if y in FilterMap(init, keep, f) {
          var x :| x in init && keep(x) && y == f(x);
          assert x in xs;
        } else {
          assert keep(last) && y == f(last);
        }
      }
    }
  }

  /** No rows exactly when no item is accepted. */
  lemma {:induction false} FilterMapEmpty<T, U>(xs: seq<T>, keep: T -> bool, f: T -> U)
    ensures FilterMap(xs, keep, f) == [] <==> forall x :: x in xs ==> !keep(x)
  {
    if xs != [] {
      var init, last := xs[..|xs| - 1], xs[|xs| - 1];
      FilterMapEmpty(init, keep, f);
      assert xs == init + [last];
      if FilterMap(xs, keep, f) == [] {
        forall x | x in xs ensures !keep(x) {
          if x != last {
            assert x in init;
          }
        }
      }
    }
  }

  /** The rows of two lists one after the other are the rows of each, in that order. */
  lemma {:induction false} FilterMapAppend<T, U>(a: seq<T>, b: seq<T>, keep: T -> bool, f: T -> U)
    ensures FilterMap(a + b, keep, f) == FilterMap(a, keep, f) + FilterMap(b, keep, f)
    decreases |b|
  {
    if b == [] {
      assert a + b == a;
    } else {
      var init, last := b[..|b| - 1], b[|b| - 1];
      FilterMapAppend(a, init, keep, f);
      assert (a + b)[..|a + b| - 1] == a + init;
      assert (a + b)[|a + b| - 1] == last;
    }
  }

  /** Two tests and two maps that agree on every item give the same rows. */
  lemma {:induction false} FilterMapCongruent<T, U>(xs: seq<T>, keep: T -> bool, f: T -> U, keep': T -> bool, f': T -> U)
    requires forall x :: x in xs ==> keep(x) == keep'(x) && (keep(x) ==> f(x) == f'(x))
    ensures FilterMap(xs, keep, f) == FilterMap(xs, keep', f')
  {
    if xs != [] {
      var init := xs[..|xs| - 1];
      assert forall x :: x in init ==> x in xs;
      FilterMapCongruent(init, keep, f, keep', f');
    }
  }

  /** A filter that keeps every item and maps each to itself gives the list back. */
  lemma {:induction false} FilterMapKeepsAll<T>(xs: seq<T>, keep: T -> bool, f: T -> T)
    requires forall x :: x in xs ==> keep(x) && f(x) == x
    ensures FilterMap(xs, keep, f) == xs
  {
    if xs != [] {
      var init, last := xs[..|xs| - 1], xs[|xs| - 1];
      forall x | x in init ensures keep(x) && f(x) == x {
        assert x in xs;
      }
      FilterMapKeepsAll(init, keep, f);
      assert last in xs;
      assert xs == init + [last];
    }
  }

  /** The lists `g(x)` of the items, one after the other: a loop that appends per item. */
  function ConcatMap<T, U>(xs: seq<T>, g: T -> seq<U>): seq<U> {
    if xs == [] then [] else ConcatMap(xs[..|xs| - 1], g) + g(xs[|xs| - 1])
  }

  lemma {:induction false} ConcatMapAppend<T, U>(a: seq<T>, b: seq<T>, g: T -> seq<U>)
    ensures ConcatMap(a + b, g) == ConcatMap(a, g) + ConcatMap(b, g)
    decreases |b|
  {
    if b == [] {
      assert a + b == a;
    } else {
      var init, last := b[..|b| - 1], b[|b| - 1];
      ConcatMapAppend(a, init, g);
      assert (a + b)[..|a + b| - 1] == a + init;
      assert (a + b)[|a + b| - 1] == last;
    }
  }

  lemma SplitAround<T>(xs: seq<T>, k: nat)
    requires k < |xs|
    ensures xs == xs[..k] + [xs[k]] + xs[k + 1..]
  {
    assert xs[k..] == [xs[k]] + xs[k + 1..];
    assert xs == xs[..k] + xs[k..];
  }

  /** An item whose list is empty can be dropped, the items around it keeping their order. */
  lemma ConcatMapSkip<T, U>(xs: seq<T>, k: nat, g: T -> seq<U>)
    requires k < |xs| && g(xs[k]) == []
    ensures ConcatMap(xs, g) == ConcatMap(xs[..k], g) + ConcatMap(xs[k + 1..], g)
  {
    var pre, mid, post := xs[..k], [xs[k]], xs[k + 1..];
    assert ConcatMap(mid, g) == [] by {
      assert mid[..0] == [];
    }
    calc {
      ConcatMap(xs, g);
      { SplitAround(xs, k); }
      ConcatMap(pre + mid + post, g);
      { ConcatMapAppend(pre + mid, post, g); }
      ConcatMap(pre + mid, g) + ConcatMap(post, g);
      { ConcatMapAppend(pre, mid, g); }
      ConcatMap(pre, g) + ConcatMap(mid, g) + ConcatMap(post, g);
      ConcatMap(pre, g) + ConcatMap(post, g);
    }
  }

  /** An element of the concatenation is an element of the list of some item. */
  lemma {:induction false} ConcatMapMembers<T, U>(xs: seq<T>, g: T -> seq<U>)
    ensures forall x, y :: x in xs && y in g(x) ==> y in ConcatMap(xs, g)
    ensures forall y :: y in ConcatMap(xs, g) ==> exists x :: x in xs && y in g(x)
  {
    if xs != [] {
      var init, last := xs[..|xs| - 1], xs[|xs| - 1];
      ConcatMapMembers(init, g);
      assert xs == init + [last];
      forall y | y in ConcatMap(xs, g)
        ensures exists x :: x in xs && y in g(x)
      {
        if y in ConcatMap(init, g) {
          var x :| x in init && y in g(x);
          assert x in xs;
        } else {
          assert y in g(last);
        }
      }
    }
  }

  // ---------------------------------------------------------------------
  // The match tests

  /** An issue matches when the term is in its title or, a missing one read as '', its description. */
  predicate IssueMatches(issue: RawIssue, term: string) {
    ContainsCI(issue.title, term) || ContainsCI(issue.description.GetOr(""), term)
  }

  /** A wiki page matches when the term is in its title or, a missing one read as '', its content. */
  predicate WikiMatches(page: RawWikiPage, term: string) {
    ContainsCI(page.title, term) || ContainsCI(page.content.GetOr(""), term)
  }

  // ---------------------------------------------------------------------
  // getWikiPageUrl

  const WikiPath: string := "/-/wikis/"

  /** `path_with_namespace ?? path`; a missing `path` interpolates as ''. */
  function Namespace(project: ProjectDetails): string {
    match project.pathWithNamespace
    case Some(p) => p
    case None => project.path.GetOr("")
  }

  /** `getWikiPageUrl($project, $slug)` with `GITLAB_URL` passed in. */
  function WikiPageUrl(gitlabUrl: string, project: ProjectDetails, slug: string): (url: string)
    ensures |url| >= |WikiPath| + |slug| + 1
  {
    RTrimChar(gitlabUrl, '/') + "/" + Namespace(project) + WikiPath + slug
  }

  /**
   * The URL is the base without its trailing slashes, one slash, the
   * namespace, "/-/wikis/" and the slug.
   */
  lemma WikiPageUrlShape(gitlabUrl: string, project: ProjectDetails, slug: string)
    ensures var url := WikiPageUrl(gitlabUrl, project, slug);
      var base := RTrimChar(gitlabUrl, '/');
      && base <= gitlabUrl && (base == [] || base[|base| - 1] != '/')
      && url[..|base| + 1] == base + "/"
      && url[|url| - |slug|..] == slug
      && url[|url| - |slug| - |WikiPath|..|url| - |slug|] == WikiPath
      && url[|base| + 1..|url| - |slug| - |WikiPath|] == Namespace(project)
  {
    var base := RTrimChar(gitlabUrl, '/');
    var front := base + "/" + Namespace(project);
    var url := front + WikiPath + slug;
    assert WikiPageUrl(gitlabUrl, project, slug) == url;
    assert url[..|base| + 1] == front[..|base| + 1] == base + "/";
    assert url[|url| - |slug|..] == slug;
    assert url[|url| - |slug| - |WikiPath|..|url| - |slug|] == WikiPath;
    assert url[|base| + 1..|url| - |slug| - |WikiPath|] == front[|base| + 1..] == Namespace(project);
  }

  /** Trailing slashes on the configured base do not change the URL. */
  lemma WikiPageUrlTrailingSlash(gitlabUrl: string, project: ProjectDetails, slug: string)
    ensures WikiPageUrl(gitlabUrl + "/", project, slug) == WikiPageUrl(gitlabUrl, project, slug)
  {
    var g := gitlabUrl + "/";
    assert g[..|g| - 1] == gitlabUrl;
    assert RTrimChar(g, '/') == RTrimChar(gitlabUrl, '/');
  }

  // ---------------------------------------------------------------------
  // The wiki filter

  /** A wiki result row. */
  datatype WikiHit = WikiHit(slug: string, title: string, excerpt: string, webUrl: string)

  function WikiHitOf(gitlabUrl: string, project: ProjectDetails, page: RawWikiPage, term: string): WikiHit {
    WikiHit(page.slug, page.title, ExtractExcerpt(page.content.GetOr(""), term),
            WikiPageUrl(gitlabUrl, project, page.slug))
  }

  /** The rows of the matching wiki pages. */
  function WikiHits(gitlabUrl: string, project: ProjectDetails, pages: seq<RawWikiPage>, term: string): seq<WikiHit> {
    FilterMap(pages, p => WikiMatches(p, term), p => WikiHitOf(gitlabUrl, project, p, term))
  }

  /** The `foreach ($wikiPages as $page)` loop. */
  method FilterWikiPages(gitlabUrl: string, project: ProjectDetails, pages: seq<RawWikiPage>, term: string)
    returns (hits: seq<WikiHit>)
    ensures hits == WikiHits(gitlabUrl, project, pages, term)
  {
    hits := [];
    for i := 0 to |pages|
      invariant hits == WikiHits(gitlabUrl, project, pages[..i], term)
    {
      assert pages[..i + 1][..i] == pages[..i];
      if WikiMatches(pages[i], term) {
        hits := hits + [WikiHitOf(gitlabUrl, project, pages[i], term)];
      }
    }
    assert pages[..|pages|] == pages;
  }

  /**
   * A page gets a row exactly when it matches, every row is the row of a
   * matching page, and there are no rows exactly when no page matches.
   */
  lemma WikiHitsKeepMatches(gitlabUrl: string, project: ProjectDetails, pages: seq<RawWikiPage>, term: string)
    ensures forall p :: p in pages && WikiMatches(p, term) ==>
      WikiHitOf(gitlabUrl, project, p, term) in WikiHits(gitlabUrl, project, pages, term)
    ensures forall h :: h in WikiHits(gitlabUrl, project, pages, term) ==>
      exists p :: p in pages && WikiMatches(p, term) && h == WikiHitOf(gitlabUrl, project, p, term)
    ensures WikiHits(gitlabUrl, project, pages, term) == [] <==> forall p :: p in pages ==> !WikiMatches(p, term)
  {
    var keep, f := (p: RawWikiPage) => WikiMatches(p, term), (p: RawWikiPage) => WikiHitOf(gitlabUrl, project, p, term);
    FilterMapMembers(pages, keep, f);
    FilterMapEmpty(pages, keep, f);
  }
}
