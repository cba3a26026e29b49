/** Text handling the cropper performs: the whitespace stripping, sign and
    digit syntax of Python's `int()` and `float()` on the subset modelled here,
    `str()` of an integer, the search for a character, `split(':')` of the
    ratio field, the suffix test `endswith` and ASCII `lower()`. */
module Text {
  import opened Python

  // ---------------------------------------------------------------- characters

  /** The six ASCII whitespace characters space, tab, line feed, carriage
      return, vertical tab and form feed: the part of the whitespace that
      `int()` and `float()` strip that is modelled here. */
  predicate IsSpace(c: char) {
    c == ' ' || c == '\t' || c == '\n' || c == '\r' || c as int == 11 || c as int == 12
  }

  predicate IsDigit(c: char) {
    '0' <= c <= '9'
  }

  predicate AllDigits(s: string) {
    forall i :: 0 <= i < |s| ==> IsDigit(s[i])
  }

  function DigitChar(d: int): (c: char)
    requires 0 <= d <= 9
    ensures IsDigit(c) && c as int - '0' as int == d
  {
    ('0' as int + d) as char
  }

  /** The value of a string of decimal digits. */
  function DigitsValue(s: string): nat
    requires AllDigits(s)
  {
    if s == [] then 0 else DigitsValue(s[..|s| - 1]) * 10 + (s[|s| - 1] as int - '0' as int)
  }

  function Pow10(n: nat): (r: nat)
    ensures r >= 1
  {
    if n == 0 then 1 else 10 * Pow10(n - 1)
  }

  // ---------------------------------------------------------------- stripping

  function StripLeft(s: string): (r: string)
    ensures |r| <= |s| && r == s[|s| - |r|..]
    ensures r == [] || !IsSpace(r[0])
  {
    if |s| > 0 && IsSpace(s[0]) then StripLeft(s[1..]) else s
  }

  function StripRight(s: string): (r: string)
    ensures |r| <= |s| && r == s[..|r|]
    ensures r == [] || !IsSpace(r[|r| - 1])
  {
    if |s| > 0 && IsSpace(s[|s| - 1]) then StripRight(s[..|s| - 1]) else s
  }

  /** `s.strip()` restricted to ASCII whitespace. */
  function Strip(s: string): string {
    StripRight(StripLeft(s))
  }

  lemma StripUnchanged(s: string)
    requires s == [] || (!IsSpace(s[0]) && !IsSpace(s[|s| - 1]))
    ensures Strip(s) == s
  {
  }

  // ---------------------------------------------------------------- int() and str()

  /** `str(n)` for a natural number: decimal digits without leading zeros. */
  function NatToString(n: nat): (s: string)
    ensures |s| >= 1 && AllDigits(s)
    ensures |s| > 1 ==> s[0] != '0'
  {
    if n < 10 then [DigitChar(n)] else NatToString(n / 10) + [DigitChar(n % 10)]
  }

  /** `str(n)`: a minus sign for negative numbers, then the digits. */
  function IntToString(n: int): string {
    if n < 0 then "-" + NatToString(-n) else NatToString(n)
  }

  /** `int(s)` on optional whitespace, an optional sign and ASCII digits;
      `None` where Python raises `ValueError`. */
  function ParseInt(s: string): Option<int> {
    SignedDigits(Strip(s))
  }

  /** An optional sign followed by at least one digit. */
  function SignedDigits(t: string): Option<int> {
    if |t| > 0 && (t[0] == '+' || t[0] == '-') then
      if |t| > 1 && AllDigits(t[1..]) then
        var v: int := DigitsValue(t[1..]);
        Some(if t[0] == '-' then -v else v)
      else None
    else if |t| > 0 && AllDigits(t) then Some(DigitsValue(t))
    else None
  }

  lemma {:induction false} DigitsOfNat(n: nat)
    ensures DigitsValue(NatToString(n)) == n
  {
    if n >= 10 {
      var s := NatToString(n);
      assert s[..|s| - 1] == NatToString(n / 10);
      DigitsOfNat(n / 10);
    }
  }

  lemma SignedDigitsOfDigits(d: string)
    requires |d| > 0 && AllDigits(d)
    ensures SignedDigits(d) == Some(DigitsValue(d) as int)
    ensures SignedDigits("-" + d) == Some(-(DigitsValue(d) as int))
  {
    assert IsDigit(d[0]);
    assert ("-" + d)[1..] == d;
  }

  /** A number written with `str` reads back with `int` unchanged. */
  lemma ParseIntToString(n: int)
    ensures ParseInt(IntToString(n)) == Some(n)
  {
    var d := NatToString(if n < 0 then -n else n);
    DigitsOfNat(if n < 0 then -n else n);
    SignedDigitsOfDigits(d);
    var s := IntToString(n);
    assert s == if n < 0 then "-" + d else d;
    assert !IsSpace(s[0]) && !IsSpace(s[|s| - 1]) by {
      assert IsDigit(d[0]) && IsDigit(d[|d| - 1]) && s[|s| - 1] == d[|d| - 1];
    }
    StripUnchanged(s);
  }

  /** Distinct numbers print differently. */
  lemma IntToStringInjective(a: int, b: int)
    requires IntToString(a) == IntToString(b)
    ensures a == b
  {
    ParseIntToString(a);
    ParseIntToString(b);
  }

  // ---------------------------------------------------------------- float()

  /** The first index of `c` in `s`, or -1. */
  function IndexOf(s: string, c: char): (r: int)
    ensures -1 <= r < |s|
    ensures r >= 0 ==> s[r] == c
    ensures forall i :: 0 <= i < |s| && (r < 0 || i < r) ==> s[i] != c
  {
    if s == [] then -1
    else if s[0] == c then 0
    else var k := IndexOf(s[1..], c); if k < 0 then -1 else k + 1
  }

  /** An unsigned decimal: digits with an optional point and fraction, and at
      least one digit in all. */
  function Unsigned(s: string): (r: Option<real>)
    ensures r.Some? ==> r.value >= 0.0
  {
    var p := IndexOf(s, '.');
    if p < 0 then
      if |s| > 0 && AllDigits(s) then Some(DigitsValue(s) as real) else None
    else
      var whole, frac := s[..p], s[p + 1..];
      if |whole| + |frac| > 0 && AllDigits(whole) && AllDigits(frac) then
        var fraction := DigitsValue(frac) as real / Pow10(|frac|) as real;
        FractionNonNegative(DigitsValue(frac), Pow10(|frac|));
        Some(DigitsValue(whole) as real + fraction)
      else None
  }

  lemma FractionNonNegative(n: nat, d: nat)
    requires d >= 1
    ensures n as real / d as real >= 0.0
  {
  }

  /** `float(s)` on optional whitespace, an optional sign and a decimal;
      `None` where the model does not accept the text as a number. */
  function ParseFloat(s: string): Option<real> {
    SignedDecimal(Strip(s))
  }

  /** An optional sign followed by an unsigned decimal. */
  function SignedDecimal(t: string): Option<real> {
    if |t| > 0 && (t[0] == '+' || t[0] == '-') then
      match Unsigned(t[1..])
      case Some(v) => Some(if t[0] == '-' then -v else v)
      case None => None
    else Unsigned(t)
  }

  /** `a, b = s.split(':')`: succeeds only when `s` holds exactly one colon. */
  function SplitColon(s: string): (r: Option<(string, string)>)
    ensures r.Some? ==> r.value.0 + ":" + r.value.1 == s
    ensures r.Some? ==> ':' !in r.value.0 && ':' !in r.value.1
  {
    var i := IndexOf(s, ':');
    if i < 0 then None
    else
      var rest := s[i + 1..];
      if IndexOf(rest, ':') >= 0 then None
      else
        assert s[..i] + ":" + rest == s;
        Some((s[..i], rest))
  }

  /** `wr, hr = map(float, text.split(':'))`; `None` where that raises. */
  function ParseRatio(text: string): Option<(real, real)> {
    match SplitColon(text)
    case None => None
    case Some((a, b)) =>
      match (ParseFloat(a), ParseFloat(b))
      case (Some(wr), Some(hr)) => Some((wr, hr))
      case _ => None
  }

  /** Splitting two colon-free texts joined by one colon gives them back. */
  lemma SplitColonJoin(a: string, b: string)
    requires ':' !in a && ':' !in b
    ensures SplitColon(a + ":" + b) == Some((a, b))
  {
    var s := a + ":" + b;
    assert s[|a|] == ':';
    assert IndexOf(s, ':') == |a|;
    assert s[|a| + 1..] == b;
    assert s[..|a|] == a;
  }

  /** A plain digit string reads as its value with `float`. */
  lemma ParseFloatDigits(d: string)
    requires |d| > 0 && AllDigits(d)
    ensures ParseFloat(d) == Some(DigitsValue(d) as real)
  {
    StripDigits(d);
    SignedDecimalDigits(d);
  }

  lemma SignedDecimalDigits(d: string)
    requires |d| > 0 && AllDigits(d)
    ensures SignedDecimal(d) == Some(DigitsValue(d) as real)
  {
    assert IsDigit(d[0]);
    UnsignedDigits(d);
  }

  lemma StripDigits(d: string)
    requires |d| > 0 && AllDigits(d)
    ensures Strip(d) == d
  {
    assert IsDigit(d[0]) && IsDigit(d[|d| - 1]);
    StripUnchanged(d);
  }

  lemma UnsignedDigits(d: string)
    requires |d| > 0 && AllDigits(d)
    ensures Unsigned(d) == Some(DigitsValue(d) as real)
  {
    assert IndexOf(d, '.') < 0;
  }

  /** "W:H" with W and H plain digit strings parses to their values. */
  lemma ParseRatioDigits(a: string, b: string)
    requires |a| > 0 && AllDigits(a) && |b| > 0 && AllDigits(b)
    ensures ParseRatio(a + ":" + b) == Some((DigitsValue(a) as real, DigitsValue(b) as real))
  {
    assert ':' !in a && ':' !in b;
    SplitColonJoin(a, b);
    ParseFloatDigits(a);
    ParseFloatDigits(b);
  }

  /** The default lock text "1:1" parses as written. */
  lemma DefaultRatioText(t: string)
    requires t == "1:1"
    ensures ParseRatio(t) == Some((1.0, 1.0))
  {
    var one := "1";
    assert one + ":" + one == t;
    assert AllDigits(one) && DigitsValue(one) == 1;
    ParseRatioDigits(one, one);
  }

  // ---------------------------------------------------------------- suffixes

  /** `s.endswith(suffix)`. */
  predicate EndsWith(s: string, suffix: string) {
    |suffix| <= |s| && s[|s| - |suffix|..] == suffix
  }

  /** `s.lower()` on ASCII letters. */
  function Lower(s: string): (r: string)
    ensures |r| == |s|
  {
    if s == [] then [] else [LowerChar(s[0])] + Lower(s[1..])
  }

  /** One character of `lower()`: an ASCII capital becomes its small letter. */
  function LowerChar(c: char): char {
    if 'A' <= c <= 'Z' then (c as int + 32) as char else c
  }

  /** `s.lower()` maps each character on its own. */
  lemma {:induction false} LowerChars(s: string)
    ensures forall i :: 0 <= i < |s| ==> Lower(s)[i] == LowerChar(s[i])
  {
    if s != [] {
      LowerChars(s[1..]);
      assert forall i :: 1 <= i < |s| ==> Lower(s)[i] == Lower(s[1..])[i - 1];
    }
  }
}
