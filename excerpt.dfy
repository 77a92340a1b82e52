/**
 * The two excerpt builders.
 *
 * `extractExcerpt` (src/search.php and, identical, src/search_project.php)
 * cuts a window of `contextLength` characters on each side of the first
 * case-insensitive occurrence of the search term and marks clipped ends with
 * "...". `create_excerpt` (search.php) strips tags first, centres a window of
 * `length` characters on the occurrence and then wraps every occurrence in
 * `<mark>`. Text is ASCII, so byte offsets (`stripos`) and character offsets
 * (`mb_substr`, `mb_strlen`) agree.
 */
module Excerpt {
  import opened Wrappers
  import opened Text
  import Highlight

  const Ellipsis: string := "..."

  function Min(a: int, b: int): int { if a < b then a else b }
  function Max(a: int, b: int): int { if a < b then b else a }

  /** `mb_substr($s, $start, $len)` for a start inside the string and a non-negative length. */
  function Substr(s: string, start: nat, len: nat): (r: string)
    requires start <= |s|
    ensures |r| == Min(len, |s| - start)
    ensures r == s[start..start + |r|]
  {
    s[start..Min(|s|, start + len)]
  }

  function EllipsisIf(b: bool): string {
    if b then Ellipsis else ""
  }

  // ---------------------------------------------------------------------
  // extractExcerpt

  /** The window `[start, end)` that `extractExcerpt` cuts around a match at `pos`. */
  function Window(content: string, term: string, pos: nat, contextLength: nat): (w: (nat, nat))
    requires pos + |term| <= |content|
    ensures w.0 <= pos && pos + |term| <= w.1 <= |content|
  {
    (Max(0, pos - contextLength), Min(|content|, pos + |term| + contextLength))
  }

  /** `extractExcerpt($content, $searchTerm, $contextLength)`. */
  function ExtractExcerpt(content: string, term: string, contextLength: nat := 150): (r: string)
    ensures PhpEmpty(content) ==> r == ""
    ensures !PhpEmpty(content) && !ContainsCI(content, term) ==>
      r == Substr(content, 0, 2 * contextLength) + Ellipsis
    ensures |r| <= |term| + 2 * contextLength + 6
  {
    if PhpEmpty(content) then ""
    else match FindCI(content, term)
      case None => Substr(content, 0, contextLength * 2) + Ellipsis
      case Some(pos) =>
        var (start, end) := Window(content, term, pos, contextLength);
        EllipsisIf(start > 0) + content[start..end] + EllipsisIf(end < |content|)
  }

  /**
   * When the term occurs, the excerpt is the window around its first
   * occurrence: at most `contextLength` characters on each side, exactly that
   * many unless the text ends first, with "..." in front exactly when the
   * window does not start the text and "..." behind exactly when it does not
   * end it.
   */
  lemma ExtractExcerptFound(content: string, term: string, contextLength: nat)
    requires !PhpEmpty(content) && ContainsCI(content, term)
    ensures var pos := FindCI(content, term).value;
      var (start, end) := Window(content, term, pos, contextLength);
      && (start == 0 || start == pos - contextLength)
      && (end == |content| || end == pos + |term| + contextLength)
      && ExtractExcerpt(content, term, contextLength)
         == EllipsisIf(start > 0) + content[start..end] + EllipsisIf(end < |content|)
  {
  }

  /** The first occurrence of the term lies inside the excerpt. */
  lemma ExtractExcerptContainsMatch(content: string, term: string, contextLength: nat)
    requires !PhpEmpty(content) && ContainsCI(content, term)
    ensures var pos := FindCI(content, term).value;
      var start := Window(content, term, pos, contextLength).0;
      OccursAt(ExtractExcerpt(content, term, contextLength), term,
               pos - start + |EllipsisIf(start > 0)|)
  {
    var pos := FindCI(content, term).value;
    var w := Window(content, term, pos, contextLength);
    ExtractExcerptFound(content, term, contextLength);
    var pre, mid, post := EllipsisIf(w.0 > 0), content[w.0..w.1], EllipsisIf(w.1 < |content|);
    var r := ExtractExcerpt(content, term, contextLength);
    assert r == pre + mid + post;
    OccursInMiddle(content, w.0, w.1, pos, term, pre, post);
  }

  lemma OccursInMiddle(content: string, start: nat, end: nat, pos: nat, term: string, pre: string, post: string)
    requires start <= pos && pos + |term| <= end <= |content|
    requires OccursAt(content, term, pos)
    ensures OccursAt(pre + content[start..end] + post, term, |pre| + pos - start)
  {
    var mid := content[start..end];
    var i, n := pos - start, |term|;
    SliceOfMiddle(pre, mid, post, i, n);
    assert mid[i..i + n] == content[pos..pos + n];
    OccursAtSameSlice(content, pos, pre + mid + post, |pre| + i, term);
  }

  lemma OccursAtSameSlice(a: string, i: nat, b: string, j: nat, term: string)
    requires OccursAt(a, term, i)
    requires j + |term| <= |b| && b[j..j + |term|] == a[i..i + |term|]
    ensures OccursAt(b, term, j)
  {
  }

  lemma SliceOfMiddle(a: string, b: string, c: string, i: nat, n: nat)
    requires i + n <= |b|
    ensures (a + b + c)[|a| + i..|a| + i + n] == b[i..i + n]
  {
    var x, y := (a + b + c)[|a| + i..|a| + i + n], b[i..i + n];
    forall k | 0 <= k < n ensures x[k] == y[k] {
    }
  }

  /** Without a match, the excerpt is the first 2 * contextLength characters of the content followed by "...". */
  lemma ExtractExcerptNoTermIsPrefix(content: string, term: string, contextLength: nat)
    requires !PhpEmpty(content) && !ContainsCI(content, term)
    ensures var r := ExtractExcerpt(content, term, contextLength);
      && r[..|r| - 3] <= content
      && |r| == Min(|content|, 2 * contextLength) + 3
  {
  }

  // ---------------------------------------------------------------------
  // create_excerpt

  /**
   * The excerpt `create_excerpt` builds before highlighting, from text whose
   * tags are already stripped. `$length / 2` is a fraction when `length` is
   * odd, so the window start is kept doubled: `twiceStart = max(0, 2*pos - length)`;
   * `mb_substr` truncates it to `twiceStart / 2`, while the two "..." tests
   * compare the fractional value.
   */
  function PlainExcerpt(text: string, term: string, length: nat): (r: string)
    requires !PhpEmpty(term)
  {
    match FindCI(text, term)
    case Some(pos) =>
      var twiceStart := Max(0, 2 * pos - length);
      EllipsisIf(twiceStart > 0)
        + Substr(text, twiceStart / 2, length)
        + EllipsisIf(2 * |text| > twiceStart + 2 * length)
    case None =>
      Substr(text, 0, length) + EllipsisIf(|text| > length)
  }

  const MarkOpen: string := "<mark>"
  const MarkClose: string := "</mark>"

  /**
   * `create_excerpt($text, $searchTerm, $length)`; `stripTags` stands for
   * PHP's `strip_tags`, which is not part of this model.
   */
  function CreateExcerpt(text: string, term: string, stripTags: string -> string, length: nat := 200): (r: string)
    ensures PhpEmpty(text) ==> r == ""
    ensures !PhpEmpty(text) && PhpEmpty(term) ==>
      var t := stripTags(text);
      r == Substr(t, 0, length) + EllipsisIf(|t| > length)
  {
    if PhpEmpty(text) then ""
    else
      var t := stripTags(text);
      if PhpEmpty(term) then Substr(t, 0, length) + EllipsisIf(|t| > length)
      else Highlight.HighlightAll(PlainExcerpt(t, term, length), term, MarkOpen, MarkClose)
  }

  /**
   * With a term, the excerpt before highlighting is bounded by `length`
   * plus two ellipses; a found term puts the window start at
   * `max(0, pos - length/2)` (rounded down) and a missing one at 0; the
   * leading "..." appears exactly when that start is past 0.
   */
  lemma PlainExcerptShape(text: string, term: string, length: nat)
    requires !PhpEmpty(term)
    ensures |PlainExcerpt(text, term, length)| <= length + 6
    ensures ContainsCI(text, term) ==>
      var pos := FindCI(text, term).value;
      var twiceStart := Max(0, 2 * pos - length);
      && twiceStart / 2 <= pos
      && PlainExcerpt(text, term, length)
         == EllipsisIf(twiceStart > 0) + Substr(text, twiceStart / 2, length)
            + EllipsisIf(2 * |text| > twiceStart + 2 * length)
    ensures !ContainsCI(text, term) ==>
      PlainExcerpt(text, term, length) == Substr(text, 0, length) + EllipsisIf(|text| > length)
  {
  }

  /**
   * With a term, `create_excerpt` is the plain excerpt with every
   * occurrence of the term wrapped in `<mark>`: stripping the marks gives the
   * plain excerpt back, each mark holds the term up to case, and an excerpt
   * without the term is returned unmarked.
   */
  lemma CreateExcerptHighlights(text: string, term: string, stripTags: string -> string, length: nat)
    requires !PhpEmpty(text) && !PhpEmpty(term)
    ensures var plain := PlainExcerpt(stripTags(text), term, length);
      var segs := Highlight.Segments(plain, term);
      && CreateExcerpt(text, term, stripTags, length) == Highlight.Render(segs, MarkOpen, MarkClose)
      && Highlight.Unmarked(segs) == plain
      && (forall k :: 0 <= k < |segs| && segs[k].Marked? ==> Lower(segs[k].text) == Lower(term))
      && (!ContainsCI(plain, term) ==> CreateExcerpt(text, term, stripTags, length) == plain)
  {
    var plain := PlainExcerpt(stripTags(text), term, length);
    Highlight.SegmentsUnmarked(plain, term);
    Highlight.SegmentsMarkedAreTerm(plain, term);
    if !ContainsCI(plain, term) {
      Highlight.HighlightAbsent(plain, term, MarkOpen, MarkClose);
    }
  }
}
