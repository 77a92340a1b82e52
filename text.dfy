/**
 * String primitives the PHP and JavaScript code relies on, restricted to
 * ASCII text: case folding (`strtolower`, `toLowerCase`), case-insensitive
 * search (`stripos`, `includes` on lower-cased text), PHP's `empty()` and
 * `trim`/`rtrim`, JavaScript's `split`/`join`, and decimal conversion of
 * integers (`intval` and string interpolation of numbers).
 */
module Text {
  import opened Wrappers

  // ---------------------------------------------------------------------
  // Case folding and case-insensitive occurrences

  function LowerChar(c: char): char {
    if 'A' <= c <= 'Z' then (c as int + 32) as char else c
  }

  function Lower(s: string): (r: string)
    ensures |r| == |s|
    ensures forall i :: 0 <= i < |s| ==> r[i] == LowerChar(s[i])
  {
    seq(|s|, i requires 0 <= i < |s| => LowerChar(s[i]))
  }

  /** `needle` occurs at index `i` of `hay` when ASCII case is ignored. */
  predicate OccursAt(hay: string, needle: string, i: int) {
    0 <= i && i + |needle| <= |hay| && Lower(hay[i..i + |needle|]) == Lower(needle)
  }

  predicate ContainsCI(hay: string, needle: string) {
    exists i :: 0 <= i <= |hay| && OccursAt(hay, needle, i)
  }

  /** The first occurrence at or after `from`. */
  function FindFrom(hay: string, needle: string, from: nat): (r: Option<nat>)
    requires from <= |hay|
    ensures r.Some? ==> from <= r.value <= |hay| && OccursAt(hay, needle, r.value)
    ensures r.Some? ==> forall j :: from <= j < r.value ==> !OccursAt(hay, needle, j)
    ensures r.None? ==> forall j :: from <= j <= |hay| ==> !OccursAt(hay, needle, j)
    decreases |hay| - from
  {
    if OccursAt(hay, needle, from) then Some(from)
    else if from == |hay| then None
    else FindFrom(hay, needle, from + 1)
  }

  /**
   * PHP's `stripos`: the index of the first case-insensitive occurrence of
   * `needle`, or None (PHP's `false`). An empty needle is found at 0.
   */
  function FindCI(hay: string, needle: string): (r: Option<nat>)
    ensures r.Some? ==> r.value + |needle| <= |hay| && OccursAt(hay, needle, r.value)
    ensures r.Some? ==> forall j :: 0 <= j < r.value ==> !OccursAt(hay, needle, j)
    ensures r.None? <==> !ContainsCI(hay, needle)
  {
    FindFrom(hay, needle, 0)
  }

  lemma OccursAtLowerInvariant(hay: string, needle: string, i: int)
    ensures OccursAt(hay, needle, i) <==> OccursAt(hay, Lower(needle), i)
  {
    assert Lower(Lower(needle)) == Lower(needle);
  }

  /** A case-insensitive occurrence in a slice is one in the whole string. */
  lemma OccursInSlice(hay: string, needle: string, lo: nat, hi: nat, i: int)
    requires lo <= hi <= |hay|
    requires OccursAt(hay[lo..hi], needle, i)
    ensures OccursAt(hay, needle, lo + i)
  {
    var m := |needle|;
    assert 0 <= i && i + m <= hi - lo;
    var a, b := hay[lo..hi][i..i + m], hay[lo + i..lo + i + m];
    assert |a| == |b|;
    forall k | 0 <= k < m ensures a[k] == b[k] {
      assert a[k] == hay[lo..hi][i + k] == hay[lo + i + k];
    }
    assert a == b;
  }

  // ---------------------------------------------------------------------
  // PHP and JavaScript truthiness and trimming

  /** PHP's `empty()` on a string: true for "" and for "0". */
  predicate PhpEmpty(s: string) {
    s == "" || s == "0"
  }

  /** The characters PHP's `trim` removes by default. */
  predicate IsTrimmed(c: char) {
    c == ' ' || c == '\t' || c == '\n' || c == '\r' || c == '\0' || c == '\U{B}'
  }

  function TrimStart(s: string): (r: string)
    ensures |r| <= |s| && r == s[|s| - |r|..]
    ensures r == [] || !IsTrimmed(r[0])
    ensures forall i :: 0 <= i < |s| - |r| ==> IsTrimmed(s[i])
  {
    if s != [] && IsTrimmed(s[0]) then TrimStart(s[1..]) else s
  }

  function TrimEnd(s: string): (r: string)
    ensures |r| <= |s| && r == s[..|r|]
    ensures r == [] || !IsTrimmed(r[|r| - 1])
    ensures forall i :: |r| <= i < |s| ==> IsTrimmed(s[i])
  {
    if s != [] && IsTrimmed(s[|s| - 1]) then TrimEnd(s[..|s| - 1]) else s
  }

  /** PHP's `trim($s)`. */
  function Trim(s: string): string {
    TrimEnd(TrimStart(s))
  }

  /**
   * PHP's `rtrim($s, $c)` for a single character: the longest prefix of `s`
   * that does not end in `c`; everything cut off is `c`.
   */
  function RTrimChar(s: string, c: char): (r: string)
    ensures |r| <= |s| && r == s[..|r|]
    ensures r == [] || r[|r| - 1] != c
    ensures forall i :: |r| <= i < |s| ==> s[i] == c
  {
    if s != [] && s[|s| - 1] == c then RTrimChar(s[..|s| - 1], c) else s
  }

  // ---------------------------------------------------------------------
  // JavaScript split and join on one separator character

  /** `s.split(sep)`: always at least one part, none containing `sep`. */
  function Split(s: string, sep: char): (parts: seq<string>)
    ensures |parts| >= 1
    ensures forall k :: 0 <= k < |parts| ==> sep !in parts[k]
  {
    if sep !in s then [s]
    else
      var i := FirstIndex(s, sep);
      [s[..i]] + Split(s[i + 1..], sep)
  }

  function FirstIndex(s: string, c: char): (i: nat)
    requires c in s
    ensures i < |s| && s[i] == c && c !in s[..i]
  {
    if s[0] == c then 0 else 1 + FirstIndex(s[1..], c)
  }

  /** `parts.join(sep)`. */
  function Join(parts: seq<string>, sep: string): string {
    if parts == [] then ""
    else if |parts| == 1 then parts[0]
    else parts[0] + sep + Join(parts[1..], sep)
  }

  /** Splitting on a character and joining on the same character gives back the string. */
  lemma {:induction false} JoinSplit(s: string, sep: char)
    ensures Join(Split(s, sep), [sep]) == s
    decreases |s|
  {
    if sep in s {
      var i := FirstIndex(s, sep);
      JoinSplit(s[i + 1..], sep);
      JoinSplitStep(s, sep, i);
    }
  }

  /** One split step: the first part, the separator, and the rest rejoined. */
  lemma JoinSplitStep(s: string, sep: char, i: nat)
    requires sep in s && i == FirstIndex(s, sep)
    requires Join(Split(s[i + 1..], sep), [sep]) == s[i + 1..]
    ensures Join(Split(s, sep), [sep]) == s
  {
    var tail := Split(s[i + 1..], sep);
    calc {
      Join(Split(s, sep), [sep]);
      Join([s[..i]] + tail, [sep]);
      { JoinCons(s[..i], tail, [sep]); }
      s[..i] + [sep] + s[i + 1..];
      { assert s == s[..i] + [sep] + s[i + 1..] by { assert s[i] == sep; } }
      s;
    }
  }

  lemma JoinCons(head: string, tail: seq<string>, sep: string)
    requires |tail| >= 1
    ensures Join([head] + tail, sep) == head + sep + Join(tail, sep)
  {
    assert ([head] + tail)[1..] == tail;
  }

  // ---------------------------------------------------------------------
  // Decimal conversion

  predicate IsDigit(c: char) {
    '0' <= c <= '9'
  }

  function DigitValue(c: char): nat
    requires IsDigit(c)
  {
    c as int - '0' as int
  }

  function DigitChar(d: nat): (c: char)
    requires d < 10
    ensures IsDigit(c) && DigitValue(c) == d
  {
    ('0' as int + d) as char
  }

  /** Decimal digits of a natural number, without leading zeros. */
  function NatToString(n: nat): (s: string)
    ensures |s| >= 1
    ensures forall i :: 0 <= i < |s| ==> IsDigit(s[i])
  {
    if n < 10 then [DigitChar(n)] else NatToString(n / 10) + [DigitChar(n % 10)]
  }

  /** How PHP and JavaScript render an integer in a string. */
  function IntToString(n: int): (s: string)
    ensures |s| >= 1
  {
    if n < 0 then "-" + NatToString(-n) else NatToString(n)
  }

  /** The value of a string of decimal digits. */
  function DigitsValue(s: string): nat
    requires forall i :: 0 <= i < |s| ==> IsDigit(s[i])
  {
    if s == [] then 0 else DigitsValue(s[..|s| - 1]) * 10 + DigitValue(s[|s| - 1])
  }

  lemma {:induction false} DigitsValueOfNatToString(n: nat)
    ensures DigitsValue(NatToString(n)) == n
  {
    if n >= 10 {
      DigitsValueOfNatToString(n / 10);
      var s := NatToString(n);
      assert s[..|s| - 1] == NatToString(n / 10);
    }
  }

  /** Length of the longest prefix of `s` made of decimal digits. */
  function DigitRun(s: string): (k: nat)
    ensures k <= |s|
    ensures forall i :: 0 <= i < k ==> IsDigit(s[i])
    ensures k < |s| ==> !IsDigit(s[k])
  {
    if s != [] && IsDigit(s[0]) then 1 + DigitRun(s[1..]) else 0
  }

  /** PHP's integer range on 64-bit platforms. */
  const PhpIntMax: int := 0x7FFF_FFFF_FFFF_FFFF
  const PhpIntMin: int := -0x8000_0000_0000_0000

  /** The whitespace `intval` skips before the number. */
  predicate IsNumericSpace(c: char) {
    c == ' ' || c == '\t' || c == '\n' || c == '\r' || c == '\U{B}' || c == '\U{C}'
  }

  function SkipNumericSpace(s: string): (r: string)
    ensures |r| <= |s| && r == s[|s| - |r|..]
    ensures r == [] || !IsNumericSpace(r[0])
  {
    if s != [] && IsNumericSpace(s[0]) then SkipNumericSpace(s[1..]) else s
  }

  /**
   * PHP's `intval` on a string: leading whitespace, an optional sign and the
   * longest run of digits that follows; anything else gives 0. Values out of
   * the 64-bit range saturate.
   */
  function Intval(s: string): (v: int)
    ensures PhpIntMin <= v <= PhpIntMax
  {
    var t := SkipNumericSpace(s);
    var negative := t != [] && t[0] == '-';
    var body := if t != [] && (t[0] == '-' || t[0] == '+') then t[1..] else t;
    var magnitude: int := DigitsValue(body[..DigitRun(body)]);
    if negative then
      (if -magnitude < PhpIntMin then PhpIntMin else -magnitude)
    else
      (if magnitude > PhpIntMax then PhpIntMax else magnitude)
  }

  /** `intval` reads back every 64-bit integer PHP prints. */
  lemma IntvalOfIntToString(n: int)
    requires PhpIntMin <= n <= PhpIntMax
    ensures Intval(IntToString(n)) == n
  {
    var s := IntToString(n);
    var digits := if n < 0 then NatToString(-n) else NatToString(n);
    assert SkipNumericSpace(s) == s;
    var body := if s[0] == '-' || s[0] == '+' then s[1..] else s;
    assert body == digits;
    DigitRunOfDigits(digits);
    assert body[..DigitRun(body)] == digits;
    DigitsValueOfNatToString(if n < 0 then -n else n);
  }

  lemma {:induction false} DigitRunOfDigits(s: string)
    requires forall i :: 0 <= i < |s| ==> IsDigit(s[i])
    ensures DigitRun(s) == |s|
  {
    if s != [] {
      DigitRunOfDigits(s[1..]);
    }
  }
}
