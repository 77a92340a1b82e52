/**
 * The static helpers of `App\Utils` (src/Utils.php): HTML escaping,
 * search-term highlighting and the bucketing of relative times.
 */
module Utils {
  import opened Text
  import Highlight

  // ---------------------------------------------------------------------
  // escapeHtml: htmlspecialchars($text, ENT_QUOTES, 'UTF-8')

  function EscapeChar(c: char): string {
    if c == '&' then "&amp;"
    else if c == '<' then "&lt;"
    else if c == '>' then "&gt;"
    else if c == '"' then "&quot;"
    else if c == '\'' then "&#039;"
    else [c]
  }

  /** The characters that must never appear raw in escaped output. */
  predicate IsSpecial(c: char) {
    c == '<' || c == '>' || c == '"' || c == '\''
  }

  /** `Utils::escapeHtml`: the output holds none of `<`, `>`, `"`, `'` raw. */
  function EscapeHtml(s: string): (r: string)
    ensures |r| >= |s|
    ensures forall i :: 0 <= i < |r| ==> !IsSpecial(r[i])
  {
    if s == [] then [] else EscapeChar(s[0]) + EscapeHtml(s[1..])
  }

  lemma EscapeHtmlAppend(a: string, b: string)
    ensures EscapeHtml(a + b) == EscapeHtml(a) + EscapeHtml(b)
  {
    if a != [] {
      assert (a + b)[1..] == a[1..] + b;
      EscapeHtmlAppend(a[1..], b);
    } else {
      assert a + b == b;
    }
  }

  /** Decoding of the five entities `escapeHtml` produces. */
  function UnescapeHtml(s: string): string {
    if s == [] then []
    else if "&amp;" <= s then "&" + UnescapeHtml(s[5..])
    else if "&lt;" <= s then "<" + UnescapeHtml(s[4..])
    else if "&gt;" <= s then ">" + UnescapeHtml(s[4..])
    else if "&quot;" <= s then "\"" + UnescapeHtml(s[6..])
    else if "&#039;" <= s then "'" + UnescapeHtml(s[6..])
    else [s[0]] + UnescapeHtml(s[1..])
  }

  /** Decoding undoes the escape of one character in front of any text. */
  lemma UnescapeStep(c: char, rest: string)
    ensures UnescapeHtml(EscapeChar(c) + rest) == [c] + UnescapeHtml(rest)
  {
    var e := EscapeChar(c);
    var s := e + rest;
    assert e <= s && s[|e|..] == rest;
    if c != '&' && c != '<' && c != '>' && c != '"' && c != '\'' {
      assert s[0] == c && s[0] != '&';
      assert !("&amp;" <= s) && !("&lt;" <= s) && !("&gt;" <= s);
      assert !("&quot;" <= s) && !("&#039;" <= s);
      assert s[1..] == rest;
    } else if c != '&' {
      assert s[1] != 'a' && !("&amp;" <= s);
      if c != '<' {
        assert s[1] != 'l' && !("&lt;" <= s);
        if c != '>' {
          assert s[1] != 'g' && !("&gt;" <= s);
          if c != '"' {
            assert s[1] != 'q' && !("&quot;" <= s);
          }
        }
      }
    }
  }

  /** Escaping loses nothing: decoding the entities gives the text back. */
  lemma {:induction false} UnescapeEscape(s: string)
    ensures UnescapeHtml(EscapeHtml(s)) == s
  {
    if s != [] {
      UnescapeEscape(s[1..]);
      UnescapeStep(s[0], EscapeHtml(s[1..]));
      assert s == [s[0]] + s[1..];
    }
  }

  // ---------------------------------------------------------------------
  // highlightSearchTerm

  const SpanOpen: string := "<span class=\"highlight\">"
  const SpanClose: string := "</span>"

  lemma EscapeHtmlNonEmpty(s: string)
    ensures s != [] ==> EscapeHtml(s) != []
  {
  }

  /**
   * `Utils::highlightSearchTerm` as written: empty text or term (PHP's
   * `empty()`, so also "0") gives the text back untouched; otherwise the
   * escaped term is searched case-insensitively in the escaped text and each
   * occurrence wrapped in a highlight span.
   */
  function HighlightSearchTerm(text: string, term: string): (r: string)
    ensures PhpEmpty(text) || PhpEmpty(term) ==> r == text
  {
    if PhpEmpty(text) || PhpEmpty(term) then text
    else
      EscapeHtmlNonEmpty(term);
      Highlight.HighlightAll(EscapeHtml(text), EscapeHtml(term), SpanOpen, SpanClose)
  }

  /**
   * Otherwise the output is the escaped text with spans inserted: stripping
   * the spans gives `escapeHtml(text)`, each span holds the escaped term up to
   * case with its original casing, and no occurrence of the escaped term is
   * left outside a span.
   */
  lemma HighlightSearchTermWraps(text: string, term: string)
    requires !PhpEmpty(text) && !PhpEmpty(term)
    ensures EscapeHtml(term) != []
    ensures var segs := Highlight.Segments(EscapeHtml(text), EscapeHtml(term));
      && HighlightSearchTerm(text, term) == Highlight.Render(segs, SpanOpen, SpanClose)
      && Highlight.Unmarked(segs) == EscapeHtml(text)
      && (forall k :: 0 <= k < |segs| && segs[k].Marked? ==>
            Lower(segs[k].text) == Lower(EscapeHtml(term)))
      && (forall k :: 0 <= k < |segs| && segs[k].Plain? ==>
            !OccursAt(EscapeHtml(text), EscapeHtml(term), Highlight.Offset(segs, k)))
  {
    EscapeHtmlNonEmpty(term);
    var et, eq := EscapeHtml(text), EscapeHtml(term);
    Highlight.SegmentsUnmarked(et, eq);
    Highlight.SegmentsMarkedAreTerm(et, eq);
    Highlight.SegmentsPlainAreNotOccurrences(et, eq);
  }

  /**
   * Because the search runs on escaped text, a term can match inside an
   * entity: with the text "<" and the term "lt" the span lands in the
   * middle of "&lt;", although "lt" does not occur in the text.
   */
  lemma HighlightSplitsEntity()
    ensures !ContainsCI("<", "lt")
    ensures HighlightSearchTerm("<", "lt") == "&" + SpanOpen + "lt" + SpanClose + ";"
  {
    assert !OccursAt("<", "lt", 0);
    assert !OccursAt("<", "lt", 1);
    assert EscapeHtml("<") == "&lt;";
    assert EscapeHtml("lt") == "lt";
    EscapedLtSegments();
  }

  /** The scan of "&lt;" for "lt": the ampersand, the match, the semicolon. */
  lemma EscapedLtSegments()
    ensures Highlight.Segments("&lt;", "lt") == [Highlight.Plain('&'), Highlight.Marked("lt"), Highlight.Plain(';')]
  {
    var et := "&lt;";
    assert !OccursAt(et, "lt", 0);
    assert OccursAt(et[1..], "lt", 0) && et[1..][..2] == "lt";
    assert et[1..][2..] == et[3..] == ";";
    assert !OccursAt(";", "lt", 0) && ";"[1..] == [];
    assert Highlight.Segments(";", "lt") == [Highlight.Plain(';')];
    assert Highlight.Segments(et[1..], "lt") == [Highlight.Marked("lt"), Highlight.Plain(';')];
  }

  /**
   * When the term is empty, the text comes back unescaped, so markup in it
   * reaches the page raw.
   */
  lemma HighlightEmptyTermKeepsMarkup()
    ensures HighlightSearchTerm("<b>", "") == "<b>"
    ensures IsSpecial(HighlightSearchTerm("<b>", "")[0])
  {
  }

  /** Escapes a segment list piece by piece, spans only around matched pieces. */
  function RenderEscaped(segs: seq<Highlight.Segment>): string {
    if segs == [] then []
    else
      var head := match segs[0]
        case Plain(c) => EscapeChar(c)
        case Marked(t) => SpanOpen + EscapeHtml(t) + SpanClose;
      head + RenderEscaped(segs[1..])
  }

  /** Stripping the spans from `RenderEscaped` leaves the escaped text. */
  function StripSpans(segs: seq<Highlight.Segment>): string {
    if segs == [] then [] else EscapeHtml(Highlight.Piece(segs[0])) + StripSpans(segs[1..])
  }

  lemma {:induction false} StripSpansIsEscape(segs: seq<Highlight.Segment>)
    ensures StripSpans(segs) == EscapeHtml(Highlight.Unmarked(segs))
  {
    if segs != [] {
      StripSpansIsEscape(segs[1..]);
      EscapeHtmlAppend(Highlight.Piece(segs[0]), Highlight.Unmarked(segs[1..]));
    }
  }

  /**
   * Highlighting as evidently intended: every path escapes the text, and
   * matching is done on the original text, so each span holds an escaped
   * occurrence of the term and spans never cut an entity.
   */
  function HighlightSearchTermEscaped(text: string, term: string): (r: string)
    ensures PhpEmpty(text) || PhpEmpty(term) ==> r == EscapeHtml(text)
  {
    if PhpEmpty(text) || PhpEmpty(term) then EscapeHtml(text)
    else RenderEscaped(Highlight.Segments(text, term))
  }

  lemma {:induction false} RenderEscapedNoMarks(segs: seq<Highlight.Segment>)
    requires forall k :: 0 <= k < |segs| ==> segs[k].Plain?
    ensures RenderEscaped(segs) == EscapeHtml(Highlight.Unmarked(segs))
  {
    if segs != [] {
      RenderEscapedNoMarks(segs[1..]);
      EscapeHtmlAppend(Highlight.Piece(segs[0]), Highlight.Unmarked(segs[1..]));
      assert EscapeHtml([segs[0].c]) == EscapeChar(segs[0].c);
    }
  }

  lemma {:induction false} SegmentsWithoutTermArePlain(s: string, term: string)
    requires term != [] && !ContainsCI(s, term)
    ensures forall k :: 0 <= k < |Highlight.Segments(s, term)| ==> Highlight.Segments(s, term)[k].Plain?
    decreases |s|
  {
    if s != [] {
      assert !OccursAt(s, term, 0);
      forall i | 0 <= i <= |s[1..]| ensures !OccursAt(s[1..], term, i) {
        Highlight.OccursShift(s, term, 1, i);
      }
      SegmentsWithoutTermArePlain(s[1..], term);
    }
  }

  /**
   * The corrected highlighter adds no span to text that does not contain the
   * term (compare HighlightSplitsEntity), and its marked pieces are exactly
   * the occurrences found in the original text.
   */
  lemma HighlightEscapedSound(text: string, term: string)
    requires !PhpEmpty(text) && !PhpEmpty(term)
    ensures var segs := Highlight.Segments(text, term);
      && StripSpans(segs) == EscapeHtml(text)
      && (forall k :: 0 <= k < |segs| && segs[k].Marked? ==> Lower(segs[k].text) == Lower(term))
    ensures !ContainsCI(text, term) ==> HighlightSearchTermEscaped(text, term) == EscapeHtml(text)
  {
    var segs := Highlight.Segments(text, term);
    Highlight.SegmentsUnmarked(text, term);
    Highlight.SegmentsMarkedAreTerm(text, term);
    StripSpansIsEscape(segs);
    if !ContainsCI(text, term) {
      SegmentsWithoutTermArePlain(text, term);
      RenderEscapedNoMarks(segs);
    }
  }

  // ---------------------------------------------------------------------
  // formatRelativeTime, on the difference in seconds

  datatype TimeUnit = Minute | Hour | Day

  /** What `formatRelativeTime` reports; a calendar date is formatted by `date()`. */
  datatype RelativeTime = JustNow | Ago(count: int, unit: TimeUnit) | CalendarDate

  function UnitSeconds(u: TimeUnit): nat {
    match u
    case Minute => 60
    case Hour => 3600
    case Day => 86400
  }

  function UnitName(u: TimeUnit): string {
    match u
    case Minute => "minute"
    case Hour => "hour"
    case Day => "day"
  }

  /** How many units fit in the next unit up (an hour, a day, a week). */
  function UnitsBeforeNext(u: TimeUnit): nat {
    match u
    case Minute => 60
    case Hour => 24
    case Day => 7
  }

  /** `Utils::formatRelativeTime` for `$diff = time() - strtotime($timestamp)`. */
  function FormatRelativeTime(diff: int): (r: RelativeTime)
    ensures r == JustNow <==> diff < 60
    ensures r == CalendarDate <==> diff >= 604800
  {
    if diff < 60 then JustNow
    else if diff < 3600 then Ago(diff / 60, Minute)
    else if diff < 86400 then Ago(diff / 3600, Hour)
    else if diff < 604800 then Ago(diff / 86400, Day)
    else CalendarDate
  }

  /**
   * A count of units is the whole number of units in the difference, at
   * least one and fewer than make up the next unit.
   */
  lemma FormatRelativeTimeCount(diff: int)
    requires FormatRelativeTime(diff).Ago?
    ensures var r := FormatRelativeTime(diff);
      && 1 <= r.count < UnitsBeforeNext(r.unit)
      && r.count * UnitSeconds(r.unit) <= diff < (r.count + 1) * UnitSeconds(r.unit)
  {
  }

  /** The phrase shown, for everything but a calendar date. */
  function Phrase(r: RelativeTime): string
    requires !r.CalendarDate?
  {
    match r
    case JustNow => "just now"
    case Ago(n, u) => IntToString(n) + " " + UnitName(u) + (if n > 1 then "s" else "") + " ago"
  }

  /** The unit is plural exactly when the count is above one. */
  lemma PhrasePlural(diff: int)
    requires FormatRelativeTime(diff).Ago?
    ensures var r := FormatRelativeTime(diff);
      var p := Phrase(r);
      |p| >= 5 && (p[|p| - 5..] == "s ago" <==> r.count > 1)
  {
    var r := FormatRelativeTime(diff);
    var p := Phrase(r);
    var name := UnitName(r.unit);
    assert name[|name| - 1] != 's';
    if r.count <= 1 {
      assert p[|p| - 5] == name[|name| - 1];
    }
  }
}
