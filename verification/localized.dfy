/** `parseLocalizedNumber` (financial-tracker.jsx): reads a number typed with
    Arabic-Indic digits, the Arabic decimal separator `٫` and thousands
    separators (`٬`, `,` or white space), and yields Some(v) when the result is
    a finite number v, None when it is not. */
module LocalizedNumber {
  import opened JsNumber

  /** The Arabic-Indic digits ٠ (U+0660) to ٩ (U+0669). */
  predicate IsArabicIndicDigit(c: char) {
    '٠' <= c <= '٩'
  }

  /** An Arabic-Indic digit becomes the ASCII digit with the same index; any other character is kept. */
  function AsciiDigit(c: char): (r: char)
    ensures IsArabicIndicDigit(c) ==> '0' <= r <= '9' && r as int - '0' as int == c as int - '٠' as int
    ensures !IsArabicIndicDigit(c) ==> r == c
  {
    if IsArabicIndicDigit(c) then (c as int - '٠' as int + '0' as int) as char else c
  }

  function MapDigits(s: string): (r: string)
    ensures |r| == |s|
  {
    seq(|s|, i requires 0 <= i < |s| => AsciiDigit(s[i]))
  }

  /** The Arabic decimal separator ٫ (U+066B) becomes a point. */
  function DecimalPoint(c: char): char {
    if c == '٫' then '.' else c
  }

  function MapDecimalSeparator(s: string): (r: string)
    ensures |r| == |s|
  {
    seq(|s|, i requires 0 <= i < |s| => DecimalPoint(s[i]))
  }

  /** The Arabic thousands separator ٬ (U+066C), the comma and white space are dropped. */
  predicate IsIgnorable(c: char) {
    c == '٬' || c == ',' || IsJsSpace(c)
  }

  function StripIgnorable(s: string): (r: string)
    ensures |r| <= |s|
  {
    if s == [] then []
    else if IsIgnorable(s[0]) then StripIgnorable(s[1..])
    else [s[0]] + StripIgnorable(s[1..])
  }

  /** The three replacements applied to the trimmed text, in the source's order. */
  function Normalize(raw: string): string {
    Rewrite(Trim(raw))
  }

  /** The replacements without the trim. */
  function Rewrite(s: string): string {
    StripIgnorable(MapDecimalSeparator(MapDigits(s)))
  }

  /** What is handed to `Number` holds no separator, no space, no Arabic-Indic digit and no ٫. */
  lemma NormalizedIsPlain(raw: string)
    ensures forall c :: c in Normalize(raw) ==> !IsIgnorable(c) && !IsArabicIndicDigit(c) && c != '٫'
  {
    var s := MapDecimalSeparator(MapDigits(Trim(raw)));
    forall c | c in s ensures !IsArabicIndicDigit(c) && c != '٫' {
      var i :| 0 <= i < |s| && s[i] == c;
    }
    StripKeepsOnly(s);
  }

  lemma {:induction false} StripKeepsOnly(s: string)
    ensures forall c :: c in StripIgnorable(s) ==> c in s && !IsIgnorable(c)
  {
    if s != [] {
      StripKeepsOnly(s[1..]);
    }
  }

  /** `raw` is None for a null or undefined input. */
  function ParseLocalizedNumber(raw: Option<string>): (r: Option<real>)
  {
    if raw.None? then None else StringToNumber(Normalize(raw.value))
  }

  /** Writes the ASCII digits of a text as Arabic-Indic digits. */
  function ToArabicIndic(s: string): (r: string)
    ensures |r| == |s|
  {
    seq(|s|, i requires 0 <= i < |s| => if '0' <= s[i] <= '9' then (s[i] as int - '0' as int + '٠' as int) as char else s[i])
  }

  /** A natural number written in Arabic-Indic digits is read as that number. */
  lemma ArabicIndicNumeral(n: nat)
    ensures ParseLocalizedNumber(Some(ToArabicIndic(NatToDecimal(n)))) == Some(n as real)
  {
    var s := NatToDecimal(n);
    var a := ToArabicIndic(s);
    forall i | 0 <= i < |s| ensures '0' <= s[i] <= '9' && IsArabicIndicDigit(a[i]) {
      assert IsDigitIn(s[i], 10);
    }
    TrimKeepsUnpadded(a);
    assert MapDigits(a) == s;
    assert MapDecimalSeparator(s) == s;
    StripKeepsPlain(s);
    StringToNumberOfDecimal(n);
  }

  lemma {:induction false} StripKeepsPlain(s: string)
    requires forall i :: 0 <= i < |s| ==> '0' <= s[i] <= '9'
    ensures StripIgnorable(s) == s
  {
    if s != [] {
      StripKeepsPlain(s[1..]);
    }
  }

  /** What the replacements make of a single character. */
  function RewriteChar(c: char): string {
    var d := DecimalPoint(AsciiDigit(c));
    if IsIgnorable(d) then [] else [d]
  }

  /** The replacements, one character at a time. */
  function RewriteEach(s: string): string {
    if s == [] then [] else RewriteChar(s[0]) + RewriteEach(s[1..])
  }

  lemma {:induction false} RewriteIsRewriteEach(s: string)
    ensures Rewrite(s) == RewriteEach(s)
  {
    if s != [] {
      RewriteIsRewriteEach(s[1..]);
      var t := MapDecimalSeparator(MapDigits(s));
      assert t[1..] == MapDecimalSeparator(MapDigits(s[1..]));
    }
  }

  lemma {:induction false} RewriteEachDistributes(a: string, b: string)
    ensures RewriteEach(a + b) == RewriteEach(a) + RewriteEach(b)
  {
    if a != [] {
      assert (a + b)[1..] == a[1..] + b;
      RewriteEachDistributes(a[1..], b);
    } else {
      assert a + b == b;
    }
  }

  lemma {:induction false} RewriteOfSpace(s: string)
    requires AllSpace(s)
    ensures RewriteEach(s) == []
  {
    if s != [] {
      assert IsJsSpace(s[0]);
      RewriteOfSpace(s[1..]);
    }
  }

  /** Trimming first makes no difference: the last replacement drops all white space anyway. */
  lemma NormalizeIsRewriteEach(raw: string)
    ensures Normalize(raw) == RewriteEach(raw)
  {
    var k := LeadingSpace(raw);
    var m := TrailingSpaceStart(raw);
    if k < m {
      assert raw == raw[..k] + raw[k..m] + raw[m..];
      RewriteEachOfPadded(raw[..k], raw[k..m], raw[m..]);
      RewriteIsRewriteEach(raw[k..m]);
    } else {
      assert raw[..k] == raw;
      RewriteOfSpace(raw);
    }
  }

  /** White space around a text rewrites to nothing. */
  lemma RewriteEachOfPadded(pre: string, mid: string, post: string)
    requires AllSpace(pre) && AllSpace(post)
    ensures RewriteEach(pre + mid + post) == RewriteEach(mid)
  {
    RewriteEachDistributes(pre + mid, post);
    RewriteEachDistributes(pre, mid);
    RewriteOfSpace(pre);
    RewriteOfSpace(post);
  }

  /** A thousands separator or a space anywhere in the text does not change what is read. */
  lemma SeparatorIgnored(a: string, c: char, b: string)
    requires IsIgnorable(c)
    ensures ParseLocalizedNumber(Some(a + [c] + b)) == ParseLocalizedNumber(Some(a + b))
  {
    IgnorableVanishes(c);
    NormalizeDropsChar(a, c, b);
  }

  lemma IgnorableVanishes(c: char)
    requires IsIgnorable(c)
    ensures RewriteChar(c) == []
  {
    assert !IsArabicIndicDigit(c) && c != '٫';
  }

  lemma NormalizeDropsChar(a: string, c: char, b: string)
    requires RewriteChar(c) == []
    ensures Normalize(a + [c] + b) == Normalize(a + b)
  {
    NormalizeIsRewriteEach(a + [c] + b);
    NormalizeIsRewriteEach(a + b);
    RewriteEachDropChar(a, c, b);
  }

  lemma RewriteEachDropChar(a: string, c: char, b: string)
    requires RewriteChar(c) == []
    ensures RewriteEach(a + [c] + b) == RewriteEach(a + b)
  {
    RewriteEachDistributes(a + [c], b);
    RewriteEachDistributes(a, [c]);
    RewriteEachDistributes(a, b);
    RewriteEachSingle(c);
    calc {
      RewriteEach(a + [c] + b);
      RewriteEach(a) + RewriteEach([c]) + RewriteEach(b);
      RewriteEach(a) + [] + RewriteEach(b);
      { assert RewriteEach(a) + [] == RewriteEach(a); }
      RewriteEach(a + b);
    }
  }

  lemma RewriteEachSingle(c: char)
    ensures RewriteEach([c]) == RewriteChar(c)
  {
    assert RewriteEach([c]) == RewriteChar(c) + RewriteEach([]);
  }

  /** Replacing one character by text that rewrites the same way does not change the rewrite. */
  lemma RewriteEachReplaceChar(a: string, c: char, d: string, b: string)
    requires RewriteChar(c) == RewriteEach(d)
    ensures RewriteEach(a + [c] + b) == RewriteEach(a + d + b)
  {
    RewriteEachDistributes(a + [c], b);
    RewriteEachDistributes(a, [c]);
    RewriteEachDistributes(a + d, b);
    RewriteEachDistributes(a, d);
    assert RewriteEach([c]) == RewriteChar(c) + RewriteEach([]);
  }

  /** An Arabic-Indic digit reads as its ASCII digit, and ٫ reads as a point. */
  lemma LocalizedCharacterRead(a: string, c: char, b: string)
    ensures ParseLocalizedNumber(Some(a + [c] + b)) == ParseLocalizedNumber(Some(a + [DecimalPoint(AsciiDigit(c))] + b))
  {
    NormalizeMapsCharacter(a, c, b);
  }

  lemma NormalizeMapsCharacter(a: string, c: char, b: string)
    ensures Normalize(a + [c] + b) == Normalize(a + [DecimalPoint(AsciiDigit(c))] + b)
  {
    var d := DecimalPoint(AsciiDigit(c));
    NormalizeIsRewriteEach(a + [c] + b);
    NormalizeIsRewriteEach(a + [d] + b);
    assert RewriteEach([d]) == RewriteChar(d) + RewriteEach([]);
    RewriteEachReplaceChar(a, c, [d], b);
  }
}
