/**
 * Text primitives the application relies on from Python and SQLite:
 * `str.strip()`, ASCII lower-casing (SQLite `lower()` / `ILIKE`), substring
 * search, `str.replace(' ', '+')`, `str.endswith`, `str(n)` for naturals, and
 * the grammars `int()` and `float()` accept for decimal text.
 */
module Text {
  import opened Wrappers

  // ---------------------------------------------------------------------------
  // Whitespace and stripping
  // ---------------------------------------------------------------------------

  /** Whitespace as Python's `str.isspace()` sees it, restricted to ASCII. */
  predicate IsSpace(c: char) {
    c == ' ' || c == '\t' || c == '\n' || c == '\r' || c == '\U{0B}' || c == '\U{0C}'
    || ('\U{1C}' <= c <= '\U{1F}')
  }

  /** The number of whitespace characters `s` starts with. */
  function LeadingSpaces(s: string): (n: nat)
    ensures n <= |s|
    ensures forall i :: 0 <= i < n ==> IsSpace(s[i])
    ensures n == |s| || !IsSpace(s[n])
  {
    if s == [] || !IsSpace(s[0]) then 0 else 1 + LeadingSpaces(s[1..])
  }

  /** The number of whitespace characters `s` ends with. */
  function TrailingSpaces(s: string): (n: nat)
    ensures n <= |s|
    ensures forall i :: |s| - n <= i < |s| ==> IsSpace(s[i])
    ensures n == |s| || !IsSpace(s[|s| - 1 - n])
  {
    if s == [] || !IsSpace(s[|s| - 1]) then 0 else 1 + TrailingSpaces(s[..|s| - 1])
  }

  /** Python's `str.strip()`: the text between the leading and the trailing whitespace. */
  function Strip(s: string): (r: string)
    ensures |r| <= |s|
    ensures r == [] || (!IsSpace(r[0]) && !IsSpace(r[|r| - 1]))
    ensures r == [] <==> forall i :: 0 <= i < |s| ==> IsSpace(s[i])
  {
    var lead := LeadingSpaces(s);
    if lead == |s| then []
    else
      var trail := TrailingSpaces(s);
      assert trail < |s| - lead;
      s[lead..|s| - trail]
  }

  /**
   * `strip` removes exactly a run of whitespace at the start and a run at the
   * end: the result is the slice of `s` between them.
   */
  lemma StripIsTrim(s: string)
    ensures exists i, j ::
              && 0 <= i <= j <= |s| && Strip(s) == s[i..j]
              && (forall k :: 0 <= k < i ==> IsSpace(s[k]))
              && (forall k :: j <= k < |s| ==> IsSpace(s[k]))
  {
    var lead := LeadingSpaces(s);
    if lead == |s| {
      assert Strip(s) == s[lead..lead];
    } else {
      var trail := TrailingSpaces(s);
      assert Strip(s) == s[lead..|s| - trail];
    }
  }

  /** Text whose first and last characters are not whitespace is its own strip. */
  lemma StripKeeps(s: string)
    requires s == [] || (!IsSpace(s[0]) && !IsSpace(s[|s| - 1]))
    ensures Strip(s) == s
  {
  }

  /** Stripping twice is stripping once. */
  lemma StripIdempotent(s: string)
    ensures Strip(Strip(s)) == Strip(s)
  {
    StripKeeps(Strip(s));
  }

  // ---------------------------------------------------------------------------
  // Case, substrings, replacement, suffixes
  // ---------------------------------------------------------------------------

  function LowerChar(c: char): char {
    if 'A' <= c <= 'Z' then (c as int + 32) as char else c
  }

  /** ASCII lower-casing, as SQLite's `lower()` applies it on both sides of `ILIKE`. */
  function Lower(s: string): (r: string)
    ensures |r| == |s| && forall i :: 0 <= i < |s| ==> r[i] == LowerChar(s[i])
  {
    if s == [] then [] else [LowerChar(s[0])] + Lower(s[1..])
  }

  /** `part` occurs in `s` as a contiguous piece (SQL `LIKE '%part%'` with no wildcards in `part`). */
  predicate Contains(s: string, part: string) {
    exists i :: 0 <= i <= |s| - |part| && OccursAt(s, part, i)
  }

  predicate OccursAt(s: string, part: string, i: int) {
    0 <= i <= |s| - |part| && s[i..i + |part|] == part
  }

  /** Python's `s.replace(' ', '+')`. */
  function SpacesToPlus(s: string): (r: string)
    ensures |r| == |s|
    ensures forall i :: 0 <= i < |s| ==> r[i] == (if s[i] == ' ' then '+' else s[i])
  {
    if s == [] then [] else [if s[0] == ' ' then '+' else s[0]] + SpacesToPlus(s[1..])
  }

  predicate EndsWith(s: string, suffix: string) {
    |suffix| <= |s| && s[|s| - |suffix|..] == suffix
  }

  // ---------------------------------------------------------------------------
  // Ordering of text (SQLite's BINARY collation)
  // ---------------------------------------------------------------------------

  /** `a` sorts before `b`: at the first difference `a` has the smaller character, or `a` is a proper prefix of `b`. */
  predicate StrLess(a: string, b: string)
    decreases |a|
  {
    if a == [] then b != []
    else b != [] && (a[0] < b[0] || (a[0] == b[0] && StrLess(a[1..], b[1..])))
  }

  lemma {:induction false} StrLessIrreflexive(a: string)
    ensures !StrLess(a, a)
  {
    if a != [] {
      StrLessIrreflexive(a[1..]);
    }
  }

  lemma {:induction false} StrLessTransitive(a: string, b: string, c: string)
    requires StrLess(a, b) && StrLess(b, c)
    ensures StrLess(a, c)
  {
    if a != [] && a[0] == b[0] && b[0] == c[0] {
      StrLessTransitive(a[1..], b[1..], c[1..]);
    }
  }

  lemma {:induction false} StrLessTotal(a: string, b: string)
    requires a != b
    ensures StrLess(a, b) || StrLess(b, a)
  {
    if a != [] && b != [] && a[0] == b[0] {
      assert a == [a[0]] + a[1..] && b == [b[0]] + b[1..];
      StrLessTotal(a[1..], b[1..]);
    }
  }

  // ---------------------------------------------------------------------------
  // Decimal digits
  // ---------------------------------------------------------------------------

  predicate IsDigit(c: char) {
    '0' <= c <= '9'
  }

  function DigitValue(c: char): nat
    requires IsDigit(c)
  {
    c as int - '0' as int
  }

  function DigitChar(d: nat): (c: char)
    requires d < 10
    ensures IsDigit(c) && DigitValue(c) == d
  {
    ('0' as int + d) as char
  }

  function Pow10(n: nat): (p: nat)
    ensures p >= 1
  {
    if n == 0 then 1 else 10 * Pow10(n - 1)
  }

  /** `10^k` as an exact rational. */
  function Scale(k: int): real {
    if k >= 0 then Pow10(k) as real else 1.0 / (Pow10(-k) as real)
  }

  /** Python's `str(n)` for a natural number: its decimal digits, without leading zeros. */
  function NatToString(n: nat): (r: string)
    ensures r != [] && forall i :: 0 <= i < |r| ==> IsDigit(r[i])
    ensures r[0] == '0' ==> n == 0
  {
    if n < 10 then [DigitChar(n)] else NatToString(n / 10) + [DigitChar(n % 10)]
  }

  predicate DigitsOrUnderscores(s: string) {
    forall i :: 0 <= i < |s| ==> IsDigit(s[i]) || s[i] == '_'
  }

  /**
   * A digit group as `int()` and `float()` accept it (PEP 515): digits, with
   * single underscores allowed only between two digits.
   */
  predicate IsDigitPart(s: string) {
    |s| > 0 && IsDigit(s[0]) && IsDigit(s[|s| - 1]) && DigitsOrUnderscores(s)
    && forall i :: 0 <= i < |s| - 1 && s[i] == '_' ==> s[i + 1] != '_'
  }

  /** The number the digits of `s` spell, underscores ignored. */
  function DigitsValue(s: string): nat
    requires DigitsOrUnderscores(s)
  {
    if s == [] then 0
    else if s[|s| - 1] == '_' then DigitsValue(s[..|s| - 1])
    else 10 * DigitsValue(s[..|s| - 1]) + DigitValue(s[|s| - 1])
  }

  /** How many digits (not underscores) `s` holds. */
  function DigitCount(s: string): nat
    requires DigitsOrUnderscores(s)
  {
    if s == [] then 0
    else (if s[|s| - 1] == '_' then 0 else 1) + DigitCount(s[..|s| - 1])
  }

  /** `str(n)` is a digit group that spells `n` back. */
  lemma {:induction false} NatToStringRoundTrip(n: nat)
    ensures IsDigitPart(NatToString(n)) && DigitsValue(NatToString(n)) == n
  {
    var r := NatToString(n);
    if n >= 10 {
      NatToStringRoundTrip(n / 10);
      var p := NatToString(n / 10);
      assert r == p + [DigitChar(n % 10)];
      assert r[..|r| - 1] == p;
    }
  }

  // ---------------------------------------------------------------------------
  // Python's int() and float() on text
  // ---------------------------------------------------------------------------

  /** An optional sign followed by one digit group, no whitespace. */
  function SignedDigits(s: string): (r: Option<int>)
    ensures r.Some? ==> s != [] && !IsSpace(s[0]) && !IsSpace(s[|s| - 1])
  {
    if s != [] && (s[0] == '+' || s[0] == '-') then
      if IsDigitPart(s[1..]) then
        Some(if s[0] == '-' then -(DigitsValue(s[1..]) as int) else DigitsValue(s[1..]))
      else None
    else if IsDigitPart(s) then Some(DigitsValue(s))
    else None
  }

  /** Python's `int(s)` in base 10; `None` where `int` raises `ValueError`. */
  function PyInt(s: string): Option<int> {
    SignedDigits(Strip(s))
  }

  /** `int(str(n)) == n`. */
  lemma IntTextRoundTrip(n: nat)
    ensures PyInt(NatToString(n)) == Some(n)
  {
    var t := NatToString(n);
    StripKeeps(t);
    NatToStringRoundTrip(n);
  }

  /** A value `float()` can return: a finite number, or infinity / NaN. */
  datatype FloatValue = Finite(value: real) | NonFinite

  /** The first index holding `a` or `b`, or `|s|` when there is none. */
  function FindEither(s: string, a: char, b: char): (k: nat)
    ensures k <= |s|
    ensures k < |s| ==> s[k] == a || s[k] == b
    ensures forall i :: 0 <= i < k ==> s[i] != a && s[i] != b
  {
    if s == [] then 0
    else if s[0] == a || s[0] == b then 0
    else 1 + FindEither(s[1..], a, b)
  }

  /** A mantissa `whole[.frac]` read as an integer count of units of `10^-fractionDigits`. */
  datatype Mantissa = Mantissa(digits: nat, fractionDigits: nat)

  /** `whole[.frac]` with digit groups on either side of the point, not both empty. */
  function ParseMantissa(m: string): Option<Mantissa> {
    var d := FindEither(m, '.', '.');
    var whole := m[..d];
    var frac := if d < |m| then m[d + 1..] else "";
    if (whole == "" || IsDigitPart(whole)) && (frac == "" || IsDigitPart(frac)) && (whole != "" || frac != "")
    then Some(Mantissa(DigitsValue(whole) * Pow10(DigitCount(frac)) + DigitsValue(frac), DigitCount(frac)))
    else None
  }

  /** Exact value of unsigned decimal text `mantissa[(e|E)[sign]digits]`. */
  function UnsignedDecimal(s: string): Option<real> {
    var e := FindEither(s, 'e', 'E');
    var exponent := if e == |s| then Some(0) else SignedDigits(s[e + 1..]);
    match ParseMantissa(s[..e])
    case Some(m) =>
      if exponent.Some? then Some(m.digits as real * Scale(exponent.value - m.fractionDigits)) else None
    case None => None
  }

  /** Python's `float(s)`; `None` where `float` raises `ValueError`. */
  function PyFloat(s: string): Option<FloatValue> {
    var t := Strip(s);
    var negative := t != [] && t[0] == '-';
    var body := if t != [] && (t[0] == '+' || t[0] == '-') then t[1..] else t;
    var word := Lower(body);
    if word == "inf" || word == "infinity" || word == "nan" then Some(NonFinite)
    else match UnsignedDecimal(body)
      case Some(v) => Some(Finite(if negative then -v else v))
      case None => None
  }

  /** The text `w.f` for a number of tenths `t` (so `t == 10 * w + f`), as `str()` prints one-decimal ratings. */
  function TenthsToString(t: nat): (r: string)
    ensures |r| >= 3 && IsDigit(r[0]) && IsDigit(r[|r| - 1])
  {
    NatToString(t / 10) + "." + [DigitChar(t % 10)]
  }

  /** One-decimal text `w.c` is a mantissa of `10 * w + c` tenths. */
  lemma TenthsMantissa(w: string, c: char)
    requires IsDigitPart(w) && IsDigit(c)
    ensures ParseMantissa(w + ['.', c]) == Some(Mantissa(DigitsValue(w) * 10 + DigitValue(c), 1))
  {
    var s := w + ['.', c];
    assert forall i :: 0 <= i < |w| ==> s[i] == w[i] && s[i] != '.';
    assert s[|w|] == '.';
    assert FindEither(s, '.', '.') == |w|;
    assert s[..|w|] == w;
    assert s[|w| + 1..] == [c];
    assert [c][..0] == [];
    assert DigitsValue([c]) == DigitValue(c);
    assert DigitCount([c]) == 1;
  }

  /** Text of digits, underscores and points has no exponent part. */
  lemma NoExponent(s: string)
    requires forall i :: 0 <= i < |s| ==> IsDigit(s[i]) || s[i] == '_' || s[i] == '.'
    ensures FindEither(s, 'e', 'E') == |s|
  {
  }

  /** Text that starts and ends with a digit is read by `float` as an unsigned decimal. */
  lemma FloatOfUnsigned(s: string, v: real)
    requires s != [] && IsDigit(s[0]) && IsDigit(s[|s| - 1])
    requires UnsignedDecimal(s) == Some(v)
    ensures PyFloat(s) == Some(Finite(v))
  {
    StripKeeps(s);
    var word := Lower(s);
    assert word[0] == s[0];
    assert word != "inf" && word != "infinity" && word != "nan" by {
      assert "inf"[0] == 'i' && "infinity"[0] == 'i' && "nan"[0] == 'n';
    }
  }

  /** One-decimal text `w.c` is the unsigned decimal `(10 * w + c) / 10`. */
  lemma UnsignedTenths(w: string, c: char)
    requires IsDigitPart(w) && IsDigit(c)
    ensures UnsignedDecimal(w + ['.', c]) == Some((DigitsValue(w) * 10 + DigitValue(c)) as real / 10.0)
  {
    var s := w + ['.', c];
    TenthsMantissa(w, c);
    forall i | 0 <= i < |s| ensures IsDigit(s[i]) || s[i] == '_' || s[i] == '.' {
      if i < |w| { assert s[i] == w[i]; }
    }
    NoExponent(s);
    assert s[..|s|] == s;
    assert Scale(0 - 1) == 1.0 / 10.0;
  }

  /** One-decimal text of `t` tenths is the unsigned decimal `t / 10`. */
  lemma DecimalOfTenths(t: nat)
    ensures UnsignedDecimal(TenthsToString(t)) == Some(t as real / 10.0)
  {
    NatToStringRoundTrip(t / 10);
    UnsignedTenths(NatToString(t / 10), DigitChar(t % 10));
    assert TenthsToString(t) == NatToString(t / 10) + ['.', DigitChar(t % 10)];
    assert (t / 10) * 10 + t % 10 == t;
  }

  /** `float` reads the one-decimal text of `t` tenths back as exactly `t / 10`. */
  lemma FloatTenthsRoundTrip(t: nat, v: real)
    requires v == t as real / 10.0
    ensures PyFloat(TenthsToString(t)) == Some(Finite(v))
  {
    DecimalOfTenths(t);
    FloatOfUnsigned(TenthsToString(t), v);
  }
}
