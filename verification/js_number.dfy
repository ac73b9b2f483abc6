/** The parts of JavaScript's number semantics the tracker relies on, over exact
    reals: the string-to-number coercion `Number(text)` (restricted to texts
    whose value is finite) and `Number(x.toFixed(d))` rounding. */
module JsNumber {

  datatype Option<+T> = None | Some(value: T)

  /** The outcome of JavaScript's `Number(x)` on a stored or received value:
      a finite number, or NaN / an infinity. */
  datatype Num = Finite(v: real) | NotFinite

  /** The characters JavaScript counts as white space or line terminators:
      the set used by `String.prototype.trim`, by the regular-expression
      class `\s` and by the string-to-number coercion. */
  predicate IsJsSpace(c: char) {
    || c == '\t' || c == '\n' || c == '\U{000B}' || c == '\U{000C}' || c == '\r'
    || c == ' ' || c == '\U{00A0}' || c == '\U{1680}'
    || ('\U{2000}' <= c <= '\U{200A}')
    || c == '\U{2028}' || c == '\U{2029}' || c == '\U{202F}' || c == '\U{205F}'
    || c == '\U{3000}' || c == '\U{FEFF}'
  }

  predicate AllSpace(s: string) {
    forall i :: 0 <= i < |s| ==> IsJsSpace(s[i])
  }

  /** `String.prototype.trim`: drops leading and trailing white space.
      `TrimIsInfix` states which piece of `s` remains; together with this
      contract it fixes the result. */
  function Trim(s: string): (r: string)
    ensures r == [] || (!IsJsSpace(r[0]) && !IsJsSpace(r[|r| - 1]))
  {
    var k := LeadingSpace(s);
    var m := TrailingSpaceStart(s);
    if k < m then s[k..m] else []
  }

  /** The trimmed text is the piece of `s` after its white-space prefix,
      followed in `s` by nothing but white space. With the contract of `Trim`
      (it neither starts nor ends with white space) only one piece of `s`
      meets all of that. */
  lemma TrimIsInfix(s: string)
    ensures var r := Trim(s);
      && LeadingSpace(s) + |r| <= |s|
      && r == s[LeadingSpace(s)..LeadingSpace(s) + |r|]
      && AllSpace(s[..LeadingSpace(s)]) && AllSpace(s[LeadingSpace(s) + |r|..])
  {
  }

  /** The length of the white-space prefix of `s`. */
  function LeadingSpace(s: string): (k: nat)
    ensures k <= |s| && AllSpace(s[..k])
    ensures k < |s| ==> !IsJsSpace(s[k])
  {
    if s != [] && IsJsSpace(s[0]) then
      var k := 1 + LeadingSpace(s[1..]);
      assert s[..k] == [s[0]] + s[1..][..k - 1];
      k
    else 0
  }

  /** Where the white-space suffix of `s` starts. */
  function TrailingSpaceStart(s: string): (m: nat)
    ensures m <= |s| && AllSpace(s[m..])
    ensures 0 < m ==> !IsJsSpace(s[m - 1])
  {
    if s != [] && IsJsSpace(s[|s| - 1]) then
      var m := TrailingSpaceStart(s[..|s| - 1]);
      assert s[m..] == s[..|s| - 1][m..] + [s[|s| - 1]];
      m
    else |s|
  }

  /** The value of a hexadecimal digit character (which covers the binary,
      octal and decimal digits too), or None for any other character. */
  function HexDigitValue(c: char): (r: Option<nat>)
    ensures r.Some? ==> r.value < 16
    ensures '0' <= c <= '9' <==> r.Some? && r.value < 10
  {
    if '0' <= c <= '9' then Some(c as int - '0' as int)
    else if 'a' <= c <= 'f' then Some(c as int - 'a' as int + 10)
    else if 'A' <= c <= 'F' then Some(c as int - 'A' as int + 10)
    else None
  }

  predicate IsDigitIn(c: char, base: nat) {
    HexDigitValue(c).Some? && HexDigitValue(c).value < base
  }

  predicate AllDigitsIn(s: string, base: nat) {
    forall i :: 0 <= i < |s| ==> IsDigitIn(s[i], base)
  }

  /** The value of a digit string read in the given base, most significant digit first. */
  function DigitsValue(s: string, base: nat): (r: nat)
    requires AllDigitsIn(s, base)
  {
    if s == [] then 0
    else DigitsValue(s[..|s| - 1], base) * base + HexDigitValue(s[|s| - 1]).value
  }

  function Pow10(n: nat): (r: nat)
    ensures r >= 1
  {
    if n == 0 then 1 else 10 * Pow10(n - 1)
  }

  /** Index of the first occurrence of one of `cs` in `s`, or |s| when there is none. */
  function IndexOfAny(s: string, cs: set<char>): (r: nat)
    ensures r <= |s|
    ensures forall i :: 0 <= i < r ==> s[i] !in cs
    ensures r < |s| ==> s[r] in cs
  {
    if s == [] then 0
    else if s[0] in cs then 0
    else 1 + IndexOfAny(s[1..], cs)
  }

  /** An optionally signed decimal integer (the exponent of a decimal literal). */
  function ParseSignedInteger(s: string): (r: Option<int>)
    ensures AllDigitsIn(s, 10) && s != [] ==> r == Some(DigitsValue(s, 10))
  {
    if s != [] && (s[0] == '+' || s[0] == '-') then
      var d := s[1..];
      if d != [] && AllDigitsIn(d, 10) then
        var v: int := DigitsValue(d, 10);
        Some(if s[0] == '-' then -v else v)
      else None
    else if s != [] && AllDigitsIn(s, 10) then Some(DigitsValue(s, 10))
    else None
  }

  /** Scales a value by ten to the given (possibly negative) power. */
  function ScaleByPow10(v: real, e: int): (r: real)
    ensures v >= 0.0 ==> r >= 0.0
  {
    if e >= 0 then v * Pow10(e) as real else v / Pow10(-e) as real
  }

  /** The digits-and-point part of a decimal literal: `12`, `12.`, `12.5` or
      `.5`; at least one digit, at most one point. */
  function ParseMantissa(m: string): (r: Option<real>)
    ensures r.Some? ==> r.value >= 0.0
  {
    var dot := IndexOfAny(m, {'.'});
    var whole := m[..dot];
    var fraction := if dot < |m| then m[dot + 1..] else [];
    if |whole| + |fraction| > 0 && AllDigitsIn(whole + fraction, 10) then
      Some(DigitsValue(whole + fraction, 10) as real / Pow10(|fraction|) as real)
    else None
  }

  /** An unsigned decimal literal: a mantissa and an optional exponent (`e` or
      `E`, then an optionally signed integer). The literal `Infinity` is also
      accepted by JavaScript, but its value is not finite, so it yields None
      like any other text that is not a number. */
  function ParseUnsignedDecimal(s: string): (r: Option<real>)
    ensures r.Some? ==> r.value >= 0.0
  {
    var e := IndexOfAny(s, {'e', 'E'});
    var exponent := if e < |s| then ParseSignedInteger(s[e + 1..]) else Some(0);
    var mantissa := ParseMantissa(s[..e]);
    if mantissa.Some? && exponent.Some? then Some(ScaleByPow10(mantissa.value, exponent.value))
    else None
  }

  /** A binary, octal or hexadecimal integer literal after its `0b`/`0o`/`0x` prefix. */
  function ParseNonDecimal(digits: string, base: nat): (r: Option<real>)
  {
    if digits != [] && AllDigitsIn(digits, base) then Some(DigitsValue(digits, base) as real) else None
  }

  /** The base selected by a `0x`, `0o` or `0b` prefix (either letter case). */
  function RadixOf(t: string): (r: Option<nat>)
    ensures r.Some? ==> |t| >= 2 && t[0] == '0'
  {
    if |t| >= 2 && t[0] == '0' then
      if t[1] == 'x' || t[1] == 'X' then Some(16)
      else if t[1] == 'o' || t[1] == 'O' then Some(8)
      else if t[1] == 'b' || t[1] == 'B' then Some(2)
      else None
    else None
  }

  function Negated(r: Option<real>): Option<real> {
    if r.Some? then Some(-r.value) else None
  }

  /** JavaScript's `Number(text)` for a string, returning Some(v) when the
      result is the finite number v, and None when it is NaN or infinite:
      surrounding white space is ignored, the empty text is 0, a prefix
      `0x`/`0o`/`0b` (no sign allowed) selects base 16/8/2, and anything else
      must be an optionally signed decimal literal. */
  function StringToNumber(text: string): (r: Option<real>)
  {
    var t := Trim(text);
    if t == [] then Some(0.0)
    else if RadixOf(t).Some? then ParseNonDecimal(t[2..], RadixOf(t).value)
    else if t[0] == '+' then ParseUnsignedDecimal(t[1..])
    else if t[0] == '-' then Negated(ParseUnsignedDecimal(t[1..]))
    else ParseUnsignedDecimal(t)
  }

  /** The decimal rendering of a natural number, written independently of the parser. */
  function NatToDecimal(n: nat): (r: string)
    ensures r != [] && AllDigitsIn(r, 10)
    ensures |r| >= 2 ==> r[0] != '0'
  {
    var d := ['0' + (n % 10) as char];
    if n < 10 then d else NatToDecimal(n / 10) + d
  }

  lemma {:induction false} NatToDecimalValue(n: nat)
    ensures DigitsValue(NatToDecimal(n), 10) == n
  {
    var s := NatToDecimal(n);
    if n >= 10 {
      NatToDecimalValue(n / 10);
      assert s[..|s| - 1] == NatToDecimal(n / 10);
    }
  }

  /** Reading back the decimal rendering of a natural number gives that number. */
  lemma {:induction false} StringToNumberOfDecimal(n: nat)
    ensures StringToNumber(NatToDecimal(n)) == Some(n as real)
  {
    var s := NatToDecimal(n);
    NatToDecimalValue(n);
    assert IsDigitIn(s[0], 10) && IsDigitIn(s[|s| - 1], 10);
    TrimKeepsUnpadded(s);
    UnsignedDecimalOfDigits(s);
  }

  /** ... and with a minus sign in front it gives the negated number. */
  lemma {:induction false} StringToNumberOfNegativeDecimal(n: nat)
    ensures StringToNumber(['-'] + NatToDecimal(n)) == Some(-(n as real))
  {
    var s := NatToDecimal(n);
    var t := ['-'] + s;
    NatToDecimalValue(n);
    assert IsDigitIn(s[|s| - 1], 10);
    TrimKeepsUnpadded(t);
    assert RadixOf(t).None? && t[1..] == s;
    UnsignedDecimalOfDigits(s);
  }

  /** Text that neither starts nor ends with white space is its own trim. */
  lemma TrimKeepsUnpadded(s: string)
    requires s == [] || (!IsJsSpace(s[0]) && !IsJsSpace(s[|s| - 1]))
    ensures Trim(s) == s
  {
    if s != [] {
      assert LeadingSpace(s) == 0 && TrailingSpaceStart(s) == |s|;
    }
  }

  /** A plain run of decimal digits is read as its value. */
  lemma UnsignedDecimalOfDigits(s: string)
    requires s != [] && AllDigitsIn(s, 10)
    ensures ParseUnsignedDecimal(s) == Some(DigitsValue(s, 10) as real)
  {
    NoDigitIsMarker(s, {'e', 'E'});
    UnsignedDecimalWithoutExponent(s);
    MantissaOfDigits(s);
  }

  lemma UnsignedDecimalWithoutExponent(s: string)
    requires IndexOfAny(s, {'e', 'E'}) == |s|
    ensures ParseUnsignedDecimal(s) == ParseMantissa(s)
  {
    assert s[..|s|] == s;
    var m := ParseMantissa(s);
    if m.Some? {
      ScaleByOne(m.value);
    }
  }

  lemma MantissaOfDigits(s: string)
    requires s != [] && AllDigitsIn(s, 10)
    ensures ParseMantissa(s) == Some(DigitsValue(s, 10) as real)
  {
    NoDigitIsMarker(s, {'.'});
    assert s[..|s|] == s;
    assert s + [] == s;
    assert Pow10(0) == 1;
  }

  lemma ScaleByOne(v: real)
    ensures ScaleByPow10(v, 0) == v
  {
    assert Pow10(0) == 1;
  }

  /** In a digit string no character is a letter or a point, so a search for one finds none. */
  lemma NoDigitIsMarker(s: string, cs: set<char>)
    requires AllDigitsIn(s, 10)
    requires forall c :: c in cs ==> !('0' <= c <= '9')
    ensures IndexOfAny(s, cs) == |s|
  {
    if s != [] {
      assert IsDigitIn(s[0], 10);
      NoDigitIsMarker(s[1..], cs);
    }
  }

  function Abs(x: real): real {
    if x < 0.0 then -x else x
  }

  /** The largest magnitude JavaScript's `toFixed` still renders in fixed
      notation; at or above it the number is printed unchanged. */
  const FixedLimit: real := 1000000000000000000000.0

  /** `Number(x.toFixed(digits))` on exact reals: the magnitude is rounded to
      `digits` decimals, ties away from zero, and a magnitude of at least
      10^21 is left as it is. */
  function ToFixed(x: real, digits: nat): (r: real)
    ensures Abs(r - x) * (2 * Pow10(digits)) as real <= 1.0
    ensures x >= 0.0 ==> r >= 0.0
    ensures x <= 0.0 ==> r <= 0.0
  {
    if x < 0.0 then -ToFixedMagnitude(-x, digits) else ToFixedMagnitude(x, digits)
  }

  function ToFixedMagnitude(x: real, digits: nat): (r: real)
    requires x >= 0.0
    ensures r >= 0.0
    ensures Abs(r - x) * (2 * Pow10(digits)) as real <= 1.0
  {
    if x >= FixedLimit then x
    else
      var p := Pow10(digits) as real;
      var n := (x * p + 0.5).Floor;
      RoundingError(x, p, n);
      n as real / p
  }

  /** Rounding x·p to the nearest integer n and dividing back by p is off by at most 1/(2p). */
  lemma RoundingError(x: real, p: real, n: int)
    requires x >= 0.0 && p >= 1.0 && n == (x * p + 0.5).Floor
    ensures n as real / p >= 0.0
    ensures Abs(n as real / p - x) * (2.0 * p) <= 1.0
  {
    var q := n as real / p;
    assert q * p == n as real;
    assert x * p - 0.5 < n as real <= x * p + 0.5;
    assert (q - x) * p == n as real - x * p;
    assert -0.5 < (q - x) * p <= 0.5;
    if q - x < 0.0 {
      assert Abs(q - x) * (2.0 * p) == -2.0 * ((q - x) * p);
    } else {
      assert Abs(q - x) * (2.0 * p) == 2.0 * ((q - x) * p);
    }
    assert n >= 0;
  }
}
