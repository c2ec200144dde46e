/** The two JavaScript number parsers the message handler calls, `parseInt(text)`
    (no radix) and `parseFloat(text)`, following their ECMAScript definitions.
    Both skip leading white space and then read the LONGEST numeric prefix, so
    trailing garbage is ignored ("12abc" reads as 12); NaN is `None`. */
module JsNumbers {
  import opened JsStrings

  /** A digit of `radix` (10 or 16): 0-9, and for 16 also a-f and A-F. */
  predicate IsDigitOf(c: char, radix: nat) {
    ('0' <= c <= '9') || (radix == 16 && (('a' <= c <= 'f') || ('A' <= c <= 'F')))
  }

  function DigitValue(c: char): (v: nat)
    ensures '0' <= c <= '9' ==> v < 10
    ensures IsDigitOf(c, 16) ==> v < 16 && ("0123456789abcdef"[v] == c || "0123456789ABCDEF"[v] == c)
  {
    if '0' <= c <= '9' then c as nat - '0' as nat
    else if 'a' <= c <= 'f' then c as nat - 'a' as nat + 10
    else if 'A' <= c <= 'F' then c as nat - 'A' as nat + 10
    else 0
  }

  predicate AllDigitsOf(s: string, radix: nat) {
    forall i :: 0 <= i < |s| ==> IsDigitOf(s[i], radix)
  }

  /** The longest prefix of `s` made of digits of `radix`. */
  function DigitPrefix(s: string, radix: nat): (p: string)
    ensures |p| <= |s| && p == s[..|p|]
    ensures AllDigitsOf(p, radix)
    ensures |p| == |s| || !IsDigitOf(s[|p|], radix)
  {
    if s != [] && IsDigitOf(s[0], radix) then [s[0]] + DigitPrefix(s[1..], radix) else []
  }

  /** The number a digit string denotes in `radix`, most significant digit first. */
  function DigitsValue(ds: string, radix: nat): nat {
    if ds == [] then 0 else DigitsValue(ds[..|ds| - 1], radix) * radix + DigitValue(ds[|ds| - 1])
  }

  function DecimalDigit(d: nat): (c: char)
    requires d < 10
    ensures IsDigitOf(c, 10) && DigitValue(c) == d
  {
    ('0' as nat + d) as char
  }

  /** `${n}`: the decimal rendering of a natural number, as a template
      literal produces it. Reading it back gives `n`. */
  function NatToDecimal(n: nat): (r: string)
    ensures |r| >= 1 && AllDigitsOf(r, 10)
    ensures n > 0 ==> r[0] != '0'
    ensures DigitsValue(r, 10) == n
  {
    if n < 10 then [DecimalDigit(n)]
    else
      var front := NatToDecimal(n / 10);
      var r := front + [DecimalDigit(n % 10)];
      assert r[..|r| - 1] == front;
      r
  }

  /** `parseInt(text)` with no radix. `None` is NaN. A negative zero is
      returned as 0: the only use made of the value is to index an array. */
  function ParseInt(t: MsgText): (r: Option<int>)
  {
    SignedInteger(TrimStart(ToJsString(t)))
  }

  /** An optional sign, then a magnitude. */
  function SignedInteger(s: string): (r: Option<int>)
  {
    var negative := |s| > 0 && s[0] == '-';
    var unsigned := if |s| > 0 && (s[0] == '-' || s[0] == '+') then s[1..] else s;
    match Magnitude(unsigned)
    case None => None
    case Some(m) =>
      var magnitude: int := m;
      Some(if negative then -magnitude else magnitude)
  }

  /** An explicit "0x"/"0X" switches to base 16; otherwise base 10. */
  function Magnitude(u: string): (r: Option<nat>)
  {
    if |u| >= 2 && u[0] == '0' && (u[1] == 'x' || u[1] == 'X') then LeadingNumber(u[2..], 16)
    else LeadingNumber(u, 10)
  }

  /** The value of the longest digit prefix in `radix`; none without a digit. */
  function LeadingNumber(u: string, radix: nat): (r: Option<nat>)
  {
    var z := DigitPrefix(u, radix);
    if z == [] then None else Some(DigitsValue(z, radix))
  }

  /** The digits of a number followed by anything that is not a digit
      read back as exactly those digits. */
  lemma {:induction false} DigitPrefixOfDigits(ds: string, rest: string, radix: nat)
    requires AllDigitsOf(ds, radix)
    requires rest == [] || !IsDigitOf(rest[0], radix)
    ensures DigitPrefix(ds + rest, radix) == ds
  {
    if ds != [] {
      assert (ds + rest)[1..] == ds[1..] + rest;
      DigitPrefixOfDigits(ds[1..], rest, radix);
      assert [ds[0]] + ds[1..] == ds;
    } else {
      assert ds + rest == rest;
    }
  }

  /** `parseInt` reads back the decimal rendering of a positive number,
      whatever non-digit text follows it ("10. Entertainment" reads as 10). */
  lemma ParseIntOfDecimal(n: nat, rest: string)
    requires n > 0
    requires rest == [] || !IsDigitOf(rest[0], 10)
    ensures ParseInt(Text(NatToDecimal(n) + rest)) == Some(n)
  {
    var ds := NatToDecimal(n);
    var s := ds + rest;
    assert s[0] == ds[0];
    ParseIntOfUnsigned(s);
    assert Magnitude(s) == Some(n) by {
      DigitPrefixOfDigits(ds, rest, 10);
    }
  }

  /** `parseInt` reads "0x" followed by hexadecimal digits in base 16,
      whatever follows them. */
  lemma ParseIntOfHex(ds: string, rest: string)
    requires |ds| > 0 && AllDigitsOf(ds, 16)
    requires rest == [] || !IsDigitOf(rest[0], 16)
    ensures ParseInt(Text(['0', 'x'] + (ds + rest))) == Some(DigitsValue(ds, 16))
  {
    var tail := ds + rest;
    var s := ['0', 'x'] + tail;
    assert s[0] == '0' && s[1] == 'x' && s[2..] == tail;
    ParseIntOfUnsigned(s);
    assert Magnitude(s) == Some(DigitsValue(ds, 16)) by {
      DigitPrefixOfDigits(ds, rest, 16);
    }
  }

  /** A text that starts with neither white space nor a sign is read from
      its first character. */
  lemma ParseIntOfUnsigned(s: string)
    requires s == [] || !(IsStrWhiteSpace(s[0]) || s[0] == '-' || s[0] == '+')
    ensures ParseInt(Text(s)) == Magnitude(s)
  {
    assert TrimStart(s) == s;
  }

  /** A text whose first character is a letter other than white space,
      a sign or a digit has no integer prefix. */
  lemma ParseIntOfWord(s: string)
    requires |s| > 0 && 'A' <= s[0] <= 'Z'
    ensures ParseInt(Text(s)) == None
  {
    assert !IsStrWhiteSpace(s[0]);
    assert TrimStart(s) == s;
    assert !IsDigitOf(s[0], 10);
    assert DigitPrefix(s, 10) == [];
    assert Magnitude(s) == None;
  }

  /** The length of the exponent part ("e", optional sign, at least one digit)
      at the start of `s`, or 0 when there is none. */
  function ExponentLength(s: string): (n: nat)
    ensures n <= |s|
    ensures n > 0 ==> n >= 2 && (s[0] == 'e' || s[0] == 'E')
  {
    if |s| > 0 && (s[0] == 'e' || s[0] == 'E') then
      var j := if |s| > 1 && (s[1] == '+' || s[1] == '-') then 2 else 1;
      var d := DigitPrefix(s[j..], 10);
      if d == [] then 0 else j + |d|
    else 0
  }

  /** The length of the longest prefix of `s` that is an ECMAScript
      StrDecimalLiteral: an optional sign, then an unsigned literal. */
  function DecimalLiteralLength(s: string): (r: Option<nat>)
    ensures r.Some? ==> 0 < r.value <= |s|
  {
    var k := if |s| > 0 && (s[0] == '+' || s[0] == '-') then 1 else 0;
    match UnsignedLiteralLength(s[k..])
    case None => None
    case Some(n) => Some(k + n)
  }

  /** "Infinity", or a mantissa followed by an optional exponent. */
  function UnsignedLiteralLength(u: string): (r: Option<nat>)
    ensures r.Some? ==> 0 < r.value <= |u|
  {
    if StartsWith(u, "Infinity") then Some(8)
    else
      match MantissaLength(u)
      case None => None
      case Some(m) => Some(m + ExponentLength(u[m..]))
  }

  /** Digits with an optional fraction, at least one digit in all. */
  function MantissaLength(u: string): (r: Option<nat>)
    ensures r.Some? ==> 0 < r.value <= |u|
  {
    var intPart := DigitPrefix(u, 10);
    var afterInt := u[|intPart|..];
    var hasDot := |afterInt| > 0 && afterInt[0] == '.';
    var fracPart := if hasDot then DigitPrefix(afterInt[1..], 10) else [];
    if intPart == [] && fracPart == [] then None
    else Some(|intPart| + (if hasDot then 1 + |fracPart| else 0))
  }

  /** Digits followed by text that cannot continue a number (no digit, no
      point, no exponent mark) form a literal of exactly those digits. */
  lemma DecimalLiteralOfDigits(ds: string, rest: string)
    requires |ds| > 0 && AllDigitsOf(ds, 10)
    requires rest == [] || !(IsDigitOf(rest[0], 10) || rest[0] == '.' || rest[0] == 'e' || rest[0] == 'E')
    ensures DecimalLiteralLength(ds + rest) == Some(|ds|)
  {
    var s := ds + rest;
    assert s[0] == ds[0] && s[0..] == s;
    assert !StartsWith(s, "Infinity") by {
      assert IsDigitOf(s[0], 10);
    }
    assert MantissaLength(s) == Some(|ds|) by {
      DigitPrefixOfDigits(ds, rest, 10);
      assert s[|ds|..] == rest;
    }
    assert s[|ds|..] == rest;
    assert ExponentLength(rest) == 0;
  }

  /** Digits, a point and more digits form a literal of the whole text. */
  lemma DecimalLiteralOfFraction(ip: string, fp: string)
    requires |ip| > 0 && AllDigitsOf(ip, 10) && |fp| > 0 && AllDigitsOf(fp, 10)
    ensures DecimalLiteralLength(ip + (['.'] + fp)) == Some(|ip| + 1 + |fp|)
  {
    var s := ip + (['.'] + fp);
    assert s[0] == ip[0] && s[0..] == s;
    assert !StartsWith(s, "Infinity") by {
      assert IsDigitOf(s[0], 10);
    }
    MantissaOfFraction(ip, fp);
    assert s[|s|..] == [];
  }

  /** The mantissa of digits, a point and more digits is the whole text. */
  lemma MantissaOfFraction(ip: string, fp: string)
    requires |ip| > 0 && AllDigitsOf(ip, 10) && |fp| > 0 && AllDigitsOf(fp, 10)
    ensures MantissaLength(ip + (['.'] + fp)) == Some(|ip| + 1 + |fp|)
  {
    var afterInt := ['.'] + fp;
    var s := ip + afterInt;
    assert DigitPrefix(s, 10) == ip by {
      DigitPrefixOfDigits(ip, afterInt, 10);
    }
    assert s[|ip|..] == afterInt && afterInt[1..] == fp;
    assert DigitPrefix(fp, 10) == fp by {
      DigitPrefixOfDigits(fp, [], 10);
      assert fp + [] == fp;
    }
  }

  /** `parseFloat(text)`: the decimal literal it reads (the Number is that
      literal's value rounded to a double), or `None` for NaN. */
  function ParseFloat(t: MsgText): (r: Option<string>)
  {
    var s := TrimStart(ToJsString(t));
    match DecimalLiteralLength(s)
    case None => None
    case Some(n) => Some(s[..n])
  }

  /** What a number must start with, once white space and one sign are
      skipped: "Infinity", a digit, or a point followed by a digit. */
  predicate NumericStart(s: string) {
    var u := if |s| > 0 && (s[0] == '+' || s[0] == '-') then s[1..] else s;
    StartsWith(u, "Infinity") || (|u| > 0 && IsDigitOf(u[0], 10))
    || (|u| > 1 && u[0] == '.' && IsDigitOf(u[1], 10))
  }

  /** A mantissa is found exactly when the text starts with a digit or
      with a point followed by a digit. */
  lemma MantissaFoundIff(u: string)
    ensures MantissaLength(u).None? <==>
      !(|u| > 0 && IsDigitOf(u[0], 10)) && !(|u| > 1 && u[0] == '.' && IsDigitOf(u[1], 10))
  {
    var intPart := DigitPrefix(u, 10);
    if intPart == [] {
      assert u[|intPart|..] == u;
      if |u| > 1 && u[0] == '.' {
        var frac := DigitPrefix(u[1..], 10);
        assert frac == [] <==> !IsDigitOf(u[1..][0], 10);
      }
    } else {
      assert IsDigitOf(u[0], 10);
    }
  }

  /** A decimal literal is found exactly when the text has a numeric start. */
  lemma DecimalLiteralFoundIff(s: string)
    ensures DecimalLiteralLength(s).None? <==> !NumericStart(s)
  {
    var k := if |s| > 0 && (s[0] == '+' || s[0] == '-') then 1 else 0;
    MantissaFoundIff(s[k..]);
  }

  /** `isNaN(parseFloat(text))` holds exactly when the trimmed text does not
      have a numeric start; otherwise what is read is a non-empty prefix of
      the trimmed text. */
  lemma ParseFloatIsNaNIff(t: MsgText)
    ensures ParseFloat(t).None? <==> !NumericStart(TrimStart(ToJsString(t)))
    ensures ParseFloat(t).Some? ==>
      |ParseFloat(t).value| > 0 && StartsWith(TrimStart(ToJsString(t)), ParseFloat(t).value)
  {
    DecimalLiteralFoundIff(TrimStart(ToJsString(t)));
  }

  // The StrDecimalLiteral grammar of ECMAScript (section 7.1.4.1 of
  // ECMA-262), written as predicates on a candidate text. The greedy
  // readers above are proved to read the longest prefix it accepts.

  /** DecimalDigits: one or more decimal digits. */
  predicate IsDigits(p: string) {
    |p| > 0 && AllDigitsOf(p, 10)
  }

  /** SignedInteger: decimal digits with an optional sign. */
  predicate IsSignedInteger(p: string) {
    IsDigits(p) || (|p| > 0 && (p[0] == '+' || p[0] == '-') && IsDigits(p[1..]))
  }

  /** ExponentPart: an exponent mark followed by a SignedInteger. */
  predicate IsExponentPart(p: string) {
    |p| > 0 && (p[0] == 'e' || p[0] == 'E') && IsSignedInteger(p[1..])
  }

  /** The position of the first `c1` or `c2` in `p`, or `|p|` when there is none.
      To look for one character, pass it as both (`FirstOf(p, '.', '.')`). */
  function FirstOf(p: string, c1: char, c2: char): (i: nat)
    ensures i <= |p|
    ensures i < |p| ==> p[i] == c1 || p[i] == c2
    ensures forall k :: 0 <= k < i ==> p[k] != c1 && p[k] != c2
  {
    if p == [] then 0 else if p[0] == c1 || p[0] == c2 then 0 else 1 + FirstOf(p[1..], c1, c2)
  }

  /** The mantissa of a StrUnsignedDecimalLiteral: `DecimalDigits`,
      `DecimalDigits .`, `DecimalDigits . DecimalDigits` or `. DecimalDigits`. */
  predicate IsMantissa(p: string) {
    var i := FirstOf(p, '.', '.');
    AllDigitsOf(p[..i], 10) && (i == |p| || AllDigitsOf(p[i + 1..], 10)) && (i > 0 || i + 1 < |p|)
  }

  /** StrUnsignedDecimalLiteral: `Infinity`, or a mantissa with an optional
      ExponentPart. */
  predicate IsUnsignedDecimalLiteral(p: string) {
    p == "Infinity"
    || (var j := FirstOf(p, 'e', 'E'); IsMantissa(p[..j]) && (j == |p| || IsExponentPart(p[j..])))
  }

  /** StrDecimalLiteral: a StrUnsignedDecimalLiteral with an optional sign. */
  predicate IsStrDecimalLiteral(p: string) {
    IsUnsignedDecimalLiteral(p) || (|p| > 0 && (p[0] == '+' || p[0] == '-') && IsUnsignedDecimalLiteral(p[1..]))
  }

  /** A position that has the first-occurrence properties is the first occurrence. */
  lemma FirstOfIs(p: string, c1: char, c2: char, i: nat)
    requires i <= |p| && (i < |p| ==> p[i] == c1 || p[i] == c2)
    requires forall k :: 0 <= k < i ==> p[k] != c1 && p[k] != c2
    ensures FirstOf(p, c1, c2) == i
  {
  }

  /** Every prefix of `s` made only of digits lies within its digit prefix. */
  lemma DigitPrefixCovers(s: string, radix: nat, m: nat)
    requires m <= |s| && AllDigitsOf(s[..m], radix)
    ensures m <= |DigitPrefix(s, radix)|
  {
  }

  /** The digit prefix of `s` ends at or before any non-digit. */
  lemma DigitPrefixStops(s: string, radix: nat, i: nat)
    requires i < |s| && !IsDigitOf(s[i], radix)
    ensures |DigitPrefix(s, radix)| <= i
  {
  }

  /** A mantissa holds only digits and points, and starts with one of them. */
  lemma MantissaChars(q: string)
    ensures IsMantissa(q) ==>
      |q| > 0 && forall k :: 0 <= k < |q| ==> IsDigitOf(q[k], 10) || q[k] == '.'
  {
    var i := FirstOf(q, '.', '.');
    forall k | 0 <= k < |q| && IsMantissa(q) ensures IsDigitOf(q[k], 10) || q[k] == '.' {
      if k < i {
        assert q[..i][k] == q[k];
      } else if i < k {
        assert q[i + 1..][k - i - 1] == q[k];
      }
    }
  }

  /** An unsigned literal starts with `I`, a digit or a point, never a sign. */
  lemma UnsignedLiteralStart(q: string)
    ensures IsUnsignedDecimalLiteral(q) ==> |q| > 0 && (q[0] == 'I' || IsDigitOf(q[0], 10) || q[0] == '.')
  {
    var j := FirstOf(q, 'e', 'E');
    MantissaChars(q[..j]);
    assert j > 0 ==> q[..j][0] == q[0];
  }

  /** `ExponentLength` reads an ExponentPart when it reads anything. */
  lemma ExponentLengthReadsExponent(s: string)
    ensures ExponentLength(s) > 0 ==> IsExponentPart(s[..ExponentLength(s)])
  {
    var n := ExponentLength(s);
    if n > 0 {
      var j := if |s| > 1 && (s[1] == '+' || s[1] == '-') then 2 else 1;
      var p := s[..n];
      assert p[j..] == DigitPrefix(s[j..], 10);
      assert p[1..][j - 1..] == p[j..];
    }
  }

  /** Every prefix of `s` that is an ExponentPart is within what
      `ExponentLength` reads. */
  lemma ExponentWithin(s: string, m: nat)
    requires 0 < m <= |s| && IsExponentPart(s[..m])
    ensures m <= ExponentLength(s)
  {
    var j := if |s| > 1 && (s[1] == '+' || s[1] == '-') then 2 else 1;
    var p := s[..m];
    assert p[0] == s[0] && p[1..][0] == s[1];
    assert p[1..][j - 1..] == p[j..] == s[j..][..m - j];
    DigitPrefixCovers(s[j..], 10, m - j);
  }

  /** `MantissaLength` reads a mantissa when it reads anything. */
  lemma MantissaLengthReadsMantissa(u: string)
    ensures MantissaLength(u).Some? ==> IsMantissa(u[..MantissaLength(u).value])
  {
    if MantissaLength(u).Some? {
      var intPart := DigitPrefix(u, 10);
      var a := |intPart|;
      var q := u[..MantissaLength(u).value];
      assert q[..a] == intPart;
      if a < |u| && u[a] == '.' {
        assert q[a + 1..] == DigitPrefix(u[a..][1..], 10);
      }
      forall k | 0 <= k < a ensures q[k] != '.' {
        assert q[k] == intPart[k];
      }
      FirstOfIs(q, '.', '.', a);
    }
  }

  /** A prefix of `u` made of digits only is within what `MantissaLength` reads. */
  lemma DigitsWithinMantissa(u: string, m: nat)
    requires 0 < m <= |u| && AllDigitsOf(u[..m], 10)
    ensures MantissaLength(u).Some? && m <= MantissaLength(u).value
  {
    DigitPrefixCovers(u, 10, m);
  }

  /** A prefix of `u` made of digits, a point at `i` and digits is within what
      `MantissaLength` reads. */
  lemma PointWithinMantissa(u: string, i: nat, m: nat)
    requires i < m <= |u| && u[i] == '.' && (i > 0 || i + 1 < m)
    requires AllDigitsOf(u[..i], 10) && AllDigitsOf(u[i + 1..m], 10)
    ensures MantissaLength(u).Some? && m <= MantissaLength(u).value
  {
    DigitPrefixCovers(u, 10, i);
    DigitPrefixStops(u, 10, i);
    var afterInt := u[|DigitPrefix(u, 10)|..];
    assert afterInt == u[i..] && afterInt[0] == '.';
    assert u[i + 1..m] == afterInt[1..][..m - i - 1];
    DigitPrefixCovers(afterInt[1..], 10, m - i - 1);
  }

  /** Every prefix of `u` that is a mantissa is within what `MantissaLength`
      reads. */
  lemma MantissaWithin(u: string, m: nat)
    requires 0 < m <= |u| && IsMantissa(u[..m])
    ensures MantissaLength(u).Some? && m <= MantissaLength(u).value
  {
    var p := u[..m];
    var i := FirstOf(p, '.', '.');
    assert p[..i] == u[..i];
    if i < |p| {
      assert p[i + 1..] == u[i + 1..m];
      PointWithinMantissa(u, i, m);
    } else {
      DigitsWithinMantissa(u, m);
    }
  }

  /** `UnsignedLiteralLength` reads a StrUnsignedDecimalLiteral when it
      reads anything. */
  lemma UnsignedLiteralLengthReadsLiteral(u: string)
    ensures UnsignedLiteralLength(u).Some? ==> IsUnsignedDecimalLiteral(u[..UnsignedLiteralLength(u).value])
  {
    if MantissaLength(u).Some? && !StartsWith(u, "Infinity") {
      var k := MantissaLength(u).value;
      var e := ExponentLength(u[k..]);
      var p := u[..k + e];
      MantissaLengthReadsMantissa(u);
      ExponentLengthReadsExponent(u[k..]);
      MantissaChars(u[..k]);
      assert p[..k] == u[..k];
      forall i | 0 <= i < k ensures p[i] != 'e' && p[i] != 'E' {
        assert p[i] == u[..k][i];
      }
      assert e > 0 ==> p[k] == u[k..][0];
      FirstOfIs(p, 'e', 'E', k);
      assert p[k..] == u[k..][..e];
    }
  }

  /** A mantissa at the head of `u` ends at or before any exponent mark. */
  lemma MantissaEndsBeforeMark(u: string, k: nat, j: nat)
    requires k <= |u| && IsMantissa(u[..k])
    requires j < |u| && (u[j] == 'e' || u[j] == 'E')
    ensures k <= j
  {
    MantissaChars(u[..k]);
  }

  /** Every prefix of `u` that is a mantissa with an optional exponent is
      within what the mantissa and exponent readers read, and then `u` does
      not start with `Infinity`. */
  lemma MantissaLiteralWithin(u: string, m: nat)
    requires 0 < m <= |u| && u[..m] != "Infinity" && IsUnsignedDecimalLiteral(u[..m])
    ensures !StartsWith(u, "Infinity")
    ensures MantissaLength(u).Some?
    ensures m <= MantissaLength(u).value + ExponentLength(u[MantissaLength(u).value..])
  {
    var p := u[..m];
    var j := FirstOf(p, 'e', 'E');
    assert p[..j] == u[..j];
    MantissaChars(u[..j]);
    assert u[..j][0] == u[0];
    assert |u| >= 8 ==> u[..8][0] == u[0];
    MantissaWithin(u, j);
    var k := MantissaLength(u).value;
    if j < |p| {
      assert u[j] == p[j];
      MantissaLengthReadsMantissa(u);
      MantissaEndsBeforeMark(u, k, j);
      assert p[j..] == u[k..][..m - k];
      ExponentWithin(u[k..], m - k);
    }
  }

  /** Every prefix of `u` that is a StrUnsignedDecimalLiteral is within what
      `UnsignedLiteralLength` reads. */
  lemma UnsignedLiteralWithin(u: string, m: nat)
    requires 0 < m <= |u| && IsUnsignedDecimalLiteral(u[..m])
    ensures UnsignedLiteralLength(u).Some? && m <= UnsignedLiteralLength(u).value
  {
    if u[..m] == "Infinity" {
      assert StartsWith(u, "Infinity");
    } else {
      MantissaLiteralWithin(u, m);
    }
  }

  /** `DecimalLiteralLength` reads a StrDecimalLiteral when it reads anything. */
  lemma DecimalLiteralLengthReadsLiteral(s: string)
    ensures DecimalLiteralLength(s).Some? ==> IsStrDecimalLiteral(s[..DecimalLiteralLength(s).value])
  {
    var k := if |s| > 0 && (s[0] == '+' || s[0] == '-') then 1 else 0;
    UnsignedLiteralLengthReadsLiteral(s[k..]);
    if DecimalLiteralLength(s).Some? {
      var p := s[..DecimalLiteralLength(s).value];
      assert p[k..] == s[k..][..UnsignedLiteralLength(s[k..]).value];
    }
  }

  /** Every prefix of `s` that is a StrDecimalLiteral is within what
      `DecimalLiteralLength` reads. */
  lemma DecimalLiteralWithin(s: string, m: nat)
    requires 0 < m <= |s| && IsStrDecimalLiteral(s[..m])
    ensures DecimalLiteralLength(s).Some? && m <= DecimalLiteralLength(s).value
  {
    var p := s[..m];
    UnsignedLiteralStart(p);
    UnsignedLiteralStart(p[1..]);
    assert p[0] == s[0];
    if s[0] == '+' || s[0] == '-' {
      assert p[1..] == s[1..][..m - 1];
      UnsignedLiteralWithin(s[1..], m - 1);
    } else {
      assert p == s[0..][..m];
      UnsignedLiteralWithin(s[0..], m);
    }
  }

  /** The literal `parseFloat` reads is the longest prefix of the trimmed
      text that is a StrDecimalLiteral; it is NaN exactly when no prefix is. */
  lemma ParseFloatReadsLongestLiteral(t: MsgText)
    ensures var s := TrimStart(ToJsString(t));
      (ParseFloat(t).Some? ==> IsStrDecimalLiteral(ParseFloat(t).value) && StartsWith(s, ParseFloat(t).value))
      && forall m :: 0 < m <= |s| && IsStrDecimalLiteral(s[..m]) ==>
           ParseFloat(t).Some? && m <= |ParseFloat(t).value|
  {
    var s := TrimStart(ToJsString(t));
    DecimalLiteralLengthReadsLiteral(s);
    forall m | 0 < m <= |s| && IsStrDecimalLiteral(s[..m])
      ensures ParseFloat(t).Some? && m <= |ParseFloat(t).value|
    {
      DecimalLiteralWithin(s, m);
    }
  }
}
