/**
 The Number conversion applied to each token of a manually typed row: the
 StringToNumber grammar of ECMAScript (section 7.1.4.1.1 of ECMA-262), with
 the value of a decimal literal kept as an exact real.
 */
module JsNumber {
  import opened JsString

  /** A number value; -0 and +0 are the same real here. */
  datatype Number = Finite(value: real) | Infinity(negative: bool) | NaN

  datatype Option<T> = None | Some(value: T)

  predicate IsDecimalDigit(c: char)
  {
    '0' <= c <= '9'
  }

  predicate IsHexDigit(c: char)
  {
    IsDecimalDigit(c) || 'a' <= c <= 'f' || 'A' <= c <= 'F'
  }

  function DigitValue(c: char): (v: nat)
    requires IsHexDigit(c)
    ensures v < 16
    ensures IsDecimalDigit(c) <==> v < 10
  {
    if IsDecimalDigit(c) then c as int - '0' as int
    else if 'a' <= c <= 'f' then c as int - 'a' as int + 10
    else c as int - 'A' as int + 10
  }

  /** A digit of the given radix (2, 8, 10 or 16). */
  predicate IsDigitIn(c: char, radix: nat)
  {
    IsHexDigit(c) && DigitValue(c) < radix
  }

  predicate AllDigitsIn(s: string, radix: nat)
  {
    forall k :: 0 <= k < |s| ==> IsDigitIn(s[k], radix)
  }

  function Power(b: nat, e: nat): (r: nat)
    ensures b >= 1 ==> r >= 1
  {
    if e == 0 then 1 else b * Power(b, e - 1)
  }

  /** The value of a digit string read most significant digit first. */
  function DigitsValue(s: string, radix: nat): nat
    requires 2 <= radix && AllDigitsIn(s, radix)
  {
    if s == [] then 0 else DigitsValue(s[..|s| - 1], radix) * radix + DigitValue(s[|s| - 1])
  }

  /** x divided by 10 as many times as there are places: x / 10^places. */
  function ShiftRight(x: real, places: nat): real
  {
    if places == 0 then x else ShiftRight(x, places - 1) / 10.0
  }

  /** x times 10^e for an integer exponent e, one factor of ten at a time. */
  function Scale(x: real, e: int): real
    decreases if e >= 0 then e else -e
  {
    if e == 0 then x else if e > 0 then Scale(x, e - 1) * 10.0 else Scale(x, e + 1) / 10.0
  }

  /** Shifting right by p places is division by the natural number 10^p. */
  lemma {:induction false} ShiftRightIsDivision(x: real, p: nat)
    ensures ShiftRight(x, p) == x / Power(10, p) as real
  {
    if p > 0 {
      ShiftRightIsDivision(x, p - 1);
      var q := Power(10, p - 1) as real;
      assert Power(10, p) as real == 10.0 * q;
      assert (x / q) / 10.0 == x / (10.0 * q);
    }
  }

  /** Scaling by a non-negative exponent is multiplication by 10^e. */
  lemma {:induction false} ScaleIsMultiplication(x: real, e: nat)
    ensures Scale(x, e) == x * Power(10, e) as real
  {
    if e > 0 {
      ScaleIsMultiplication(x, e - 1);
      var q := Power(10, e - 1) as real;
      assert Power(10, e) as real == 10.0 * q;
      assert (x * q) * 10.0 == x * (10.0 * q);
    }
  }

  /** The first position of c in s, or |s| when there is none. */
  function FirstIndex(s: string, c: char): (k: nat)
    ensures k <= |s| && c !in s[..k]
    ensures k < |s| ==> s[k] == c
  {
    if s == [] then 0
    else if s[0] == c then 0
    else
      var k := FirstIndex(s[1..], c) + 1;
      assert s[..k] == [s[0]] + s[1..][..k - 1];
      k
  }

  /** The first position of an exponent indicator (e or E) in s, or |s|. */
  function FirstExponentMark(s: string): (k: nat)
    ensures k <= |s| && 'e' !in s[..k] && 'E' !in s[..k]
    ensures k < |s| ==> s[k] == 'e' || s[k] == 'E'
  {
    var e := FirstIndex(s, 'e');
    var big := FirstIndex(s, 'E');
    if e <= big then
      assert s[..e] <= s[..big];
      e
    else
      assert s[..big] <= s[..e];
      big
  }

  /** SignedInteger: an optional sign followed by at least one decimal digit. */
  function SignedIntegerValue(s: string): (r: Option<int>)
    ensures AllDigitsIn(s, 10) && s != [] ==> r == Some(DigitsValue(s, 10))
  {
    var negative := s != [] && s[0] == '-';
    var digits := if s != [] && (s[0] == '-' || s[0] == '+') then s[1..] else s;
    if digits == [] || !AllDigitsIn(digits, 10) then None
    else
      var magnitude: int := DigitsValue(digits, 10);
      Some(if negative then -magnitude else magnitude)
  }

  /**
   A decimal literal read digit by digit: the values of its whole and
   fraction digits, how many fraction digits there are, and its exponent.
   */
  datatype Decimal = Decimal(whole: nat, fraction: nat, places: nat, exponent: int)

  /** The exact value (whole + fraction / 10^places) * 10^exponent. */
  function DecimalValue(d: Decimal): real
  {
    Scale(d.whole as real + ShiftRight(d.fraction as real, d.places), d.exponent)
  }

  /**
   StrUnsignedDecimalLiteral other than Infinity: whole digits, an optional
   point with fraction digits (at least one digit on either side), then an
   optional exponent part.
   */
  function ScanDecimal(t: string): (r: Option<Decimal>)
    ensures AllDigitsIn(t, 10) && t != [] ==> r == Some(Decimal(DigitsValue(t, 10), 0, 0, 0))
  {
    var e := FirstExponentMark(t);
    var mantissa := t[..e];
    var exponent := if e < |t| then SignedIntegerValue(t[e + 1..]) else Some(0);
    var d := FirstIndex(mantissa, '.');
    var whole := mantissa[..d];
    var fraction := if d < |mantissa| then mantissa[d + 1..] else [];
    if exponent.None? || !AllDigitsIn(whole, 10) || !AllDigitsIn(fraction, 10) || |whole| + |fraction| == 0 then
      None
    else
      assert AllDigitsIn(t, 10) ==> e == |t| && d == |t| && whole == t;
      Some(Decimal(DigitsValue(whole, 10), DigitsValue(fraction, 10), |fraction|, exponent.value))
  }

  /** The letter after a leading 0 that makes a binary, octal or hexadecimal integer. */
  predicate IsRadixMarker(c: char)
  {
    c == 'x' || c == 'X' || c == 'o' || c == 'O' || c == 'b' || c == 'B'
  }

  function RadixOf(marker: char): (radix: nat)
    requires IsRadixMarker(marker)
    ensures radix == 2 || radix == 8 || radix == 16
  {
    if marker == 'x' || marker == 'X' then 16 else if marker == 'o' || marker == 'O' then 8 else 2
  }

  /**
   StrNumericLiteral on an already trimmed, non-empty string: a 0x, 0o or 0b
   integer (no sign allowed), or a signed decimal literal or Infinity;
   anything else is NaN.
   */
  function NumericLiteral(t: string): (r: Number)
    requires t != []
    ensures AllDigitsIn(t, 10) ==> r == Finite(DigitsValue(t, 10) as real)
  {
    if |t| >= 2 && t[0] == '0' && IsRadixMarker(t[1]) then
      var radix := RadixOf(t[1]);
      var digits := t[2..];
      if digits != [] && AllDigitsIn(digits, radix) then Finite(DigitsValue(digits, radix) as real) else NaN
    else
      var negative := t[0] == '-';
      var body := if t[0] == '-' || t[0] == '+' then t[1..] else t;
      if body == "Infinity" then Infinity(negative)
      else
        match ScanDecimal(body)
        case None => NaN
        case Some(d) => Finite(if negative then -DecimalValue(d) else DecimalValue(d))
  }

  /** Number(s) on a string: blank strings are 0, otherwise the trimmed literal. */
  function ToNumber(s: string): Number
  {
    var t := Trim(s);
    if t == [] then Finite(0.0) else NumericLiteral(t)
  }

  /** Whitespace around a token never changes its number. */
  lemma ToNumberIgnoresPadding(p: string, s: string, q: string)
    requires AllWhitespace(p) && AllWhitespace(q)
    ensures ToNumber(p + s + q) == ToNumber(s)
  {
    TrimIgnoresPadding(p, s, q);
  }

  /** A plain run of decimal digits reads as its decimal value. */
  lemma DecimalDigitsToken(d: string)
    requires d != [] && AllDigitsIn(d, 10)
    ensures ToNumber(d) == Finite(DigitsValue(d, 10) as real)
  {
    assert [] + d + [] == d;
    TrimUnique([], d, []);
  }

  /** Appending digits shifts the value of the front part by the radix. */
  lemma {:induction false} DigitsValueAppend(a: string, b: string, radix: nat)
    requires 2 <= radix && AllDigitsIn(a, radix) && AllDigitsIn(b, radix)
    ensures AllDigitsIn(a + b, radix)
    ensures DigitsValue(a + b, radix) == DigitsValue(a, radix) * Power(radix, |b|) + DigitsValue(b, radix)
  {
    if b != [] {
      var b' := b[..|b| - 1];
      var last := DigitValue(b[|b| - 1]);
      DigitsValueAppend(a, b', radix);
      assert (a + b)[..|a + b| - 1] == a + b';
      assert (a + b)[|a + b| - 1] == b[|b| - 1];
      var x, p, y := DigitsValue(a, radix), Power(radix, |b'|), DigitsValue(b', radix);
      assert DigitsValue(a + b, radix) == (x * p + y) * radix + last;
      assert Power(radix, |b|) == radix * p;
      assert DigitsValue(b, radix) == y * radix + last;
      Distribute(x, p, y, radix);
    } else {
      assert a + b == a;
    }
  }

  lemma Distribute(x: nat, p: nat, y: nat, radix: nat)
    ensures (x * p + y) * radix == x * (radix * p) + y * radix
  {
  }

  /** Leading zeros do not change a digit string's value. */
  lemma {:induction false} LeadingZeros(z: string, d: string, radix: nat)
    requires 2 <= radix && AllDigitsIn(d, radix)
    requires forall k :: 0 <= k < |z| ==> z[k] == '0'
    ensures AllDigitsIn(z + d, radix)
    ensures DigitsValue(z + d, radix) == DigitsValue(d, radix)
  {
    assert AllDigitsIn(z, radix);
    DigitsValueAppend(z, d, radix);
    ZerosValue(z, radix);
  }

  lemma {:induction false} ZerosValue(z: string, radix: nat)
    requires 2 <= radix
    requires forall k :: 0 <= k < |z| ==> z[k] == '0'
    ensures AllDigitsIn(z, radix) && DigitsValue(z, radix) == 0
  {
    if z != [] {
      ZerosValue(z[..|z| - 1], radix);
    }
  }

  /**
   The tokens that read as 0 and 1 include every digit string of zeros ending
   in 0 or 1: "0", "00", "001" and so on.
   */
  lemma ZeroPaddedBit(z: string, bit: char)
    requires forall k :: 0 <= k < |z| ==> z[k] == '0'
    requires bit == '0' || bit == '1'
    ensures ToNumber(z + [bit]) == Finite(if bit == '1' then 1.0 else 0.0)
  {
    LeadingZeros(z, [bit], 10);
    assert [bit][..0] == [];
    assert DigitsValue([bit], 10) == DigitValue(bit);
    DecimalDigitsToken(z + [bit]);
  }

  /** A token with no whitespace in it is read whole. */
  lemma BareToken(t: string)
    requires t != []
    requires forall k :: 0 <= k < |t| ==> !IsWhitespace(t[k])
    ensures ToNumber(t) == NumericLiteral(t)
  {
    assert [] + t + [] == t;
    TrimUnique([], t, []);
  }

  /** A literal starting with a digit or a point, and not with 0x, 0o or 0b, is an unsigned decimal. */
  lemma DecimalLiteral(t: string)
    requires t != [] && (IsDecimalDigit(t[0]) || t[0] == '.')
    requires |t| >= 2 && t[0] == '0' ==> !IsRadixMarker(t[1])
    ensures NumericLiteral(t) == if ScanDecimal(t).Some? then Finite(DecimalValue(ScanDecimal(t).value)) else NaN
  {
    assert t != "Infinity" by { assert t[0] != 'I'; }
  }

  /** Once scanned, an unsigned decimal literal is worth its decimal value. */
  lemma DecimalLiteralValue(t: string, d: Decimal)
    requires t != [] && (IsDecimalDigit(t[0]) || t[0] == '.')
    requires |t| >= 2 && t[0] == '0' ==> !IsRadixMarker(t[1])
    requires ScanDecimal(t) == Some(d)
    ensures NumericLiteral(t) == Finite(DecimalValue(d))
  {
    DecimalLiteral(t);
  }

  /** A sign in front of decimal digits. */
  lemma SignedLiteral(sign: char, d: string)
    requires sign == '+' || sign == '-'
    requires d != [] && AllDigitsIn(d, 10)
    ensures NumericLiteral([sign] + d) == Finite(if sign == '-' then -(DigitsValue(d, 10) as real) else DigitsValue(d, 10) as real)
  {
    var t := [sign] + d;
    assert t[1..] == d;
    assert d != "Infinity" by { assert IsDecimalDigit(d[0]); }
    assert ScanDecimal(d) == Some(Decimal(DigitsValue(d, 10), 0, 0, 0));
    assert DecimalValue(Decimal(DigitsValue(d, 10), 0, 0, 0)) == DigitsValue(d, 10) as real;
  }

  /** A sign in front of decimal digits negates the value or leaves it. */
  lemma SignedToken(sign: char, d: string)
    requires sign == '+' || sign == '-'
    requires d != [] && AllDigitsIn(d, 10)
    ensures ToNumber([sign] + d) == Finite(if sign == '-' then -(DigitsValue(d, 10) as real) else DigitsValue(d, 10) as real)
  {
    var t := [sign] + d;
    forall k | 0 <= k < |t| ensures !IsWhitespace(t[k]) {
      if k > 0 { assert t[k] == d[k - 1]; }
    }
    BareToken(t);
    SignedLiteral(sign, d);
  }

  /** The first c in s is at k when s[k] is c and nothing before it is. */
  lemma {:induction false} FirstIndexAt(s: string, c: char, k: nat)
    requires k < |s| && s[k] == c
    requires forall j :: 0 <= j < k ==> s[j] != c
    ensures FirstIndex(s, c) == k
  {
    if k > 0 {
      FirstIndexAt(s[1..], c, k - 1);
    }
  }

  /** Without any c the search runs to the end. */
  lemma {:induction false} FirstIndexAbsent(s: string, c: char)
    requires forall j :: 0 <= j < |s| ==> s[j] != c
    ensures FirstIndex(s, c) == |s|
  {
    if s != [] {
      FirstIndexAbsent(s[1..], c);
    }
  }

  /** Whole digits, a point and fraction digits scan to their digit values. */
  lemma ScanFraction(w: string, f: string)
    requires AllDigitsIn(w, 10) && AllDigitsIn(f, 10) && |w| + |f| > 0
    ensures ScanDecimal(w + "." + f) == Some(Decimal(DigitsValue(w, 10), DigitsValue(f, 10), |f|, 0))
  {
    var t := w + "." + f;
    forall k | 0 <= k < |t| ensures t[k] != 'e' && t[k] != 'E' && (k != |w| ==> t[k] != '.') {
      if k < |w| { assert t[k] == w[k]; } else if k > |w| { assert t[k] == f[k - |w| - 1]; }
    }
    FirstIndexAbsent(t, 'e');
    FirstIndexAbsent(t, 'E');
    assert t[..|t|] == t;
    FirstIndexAt(t, '.', |w|);
    assert t[..|w|] == w && t[|w| + 1..] == f;
  }

  /** A fraction token holds only digits and its point, so no whitespace. */
  lemma FractionChars(w: string, f: string)
    requires AllDigitsIn(w, 10) && AllDigitsIn(f, 10) && |w| + |f| > 0
    ensures |w + "." + f| >= 2
    ensures forall k :: 0 <= k < |w + "." + f| ==> !IsWhitespace((w + "." + f)[k])
    ensures IsDecimalDigit((w + "." + f)[0]) || (w + "." + f)[0] == '.'
    ensures IsDecimalDigit((w + "." + f)[1]) || (w + "." + f)[1] == '.'
  {
    var t := w + "." + f;
    forall k | 0 <= k < |t| ensures IsDecimalDigit(t[k]) || t[k] == '.' {
      if k < |w| { assert t[k] == w[k]; } else if k > |w| { assert t[k] == f[k - |w| - 1]; }
    }
  }

  /** Whole digits, a point, then fraction digits (one side may be empty). */
  lemma FractionToken(w: string, f: string)
    requires AllDigitsIn(w, 10) && AllDigitsIn(f, 10) && |w| + |f| > 0
    ensures ToNumber(w + "." + f) == Finite(DigitsValue(w, 10) as real + ShiftRight(DigitsValue(f, 10) as real, |f|))
  {
    FractionChars(w, f);
    BareToken(w + "." + f);
    FractionLiteral(w, f);
  }

  lemma FractionLiteral(w: string, f: string)
    requires AllDigitsIn(w, 10) && AllDigitsIn(f, 10) && |w| + |f| > 0
    ensures NumericLiteral(w + "." + f) == Finite(DigitsValue(w, 10) as real + ShiftRight(DigitsValue(f, 10) as real, |f|))
  {
    var t := w + "." + f;
    var d := Decimal(DigitsValue(w, 10), DigitsValue(f, 10), |f|, 0);
    FractionChars(w, f);
    ScanFraction(w, f);
    DecimalLiteralValue(t, d);
    DecimalValueUnscaled(DigitsValue(w, 10), DigitsValue(f, 10), |f|);
    var v := DecimalValue(d);
    assert NumericLiteral(t) == Finite(v);
    assert v == DigitsValue(w, 10) as real + ShiftRight(DigitsValue(f, 10) as real, |f|);
  }

  /** With exponent 0 a decimal is its whole part plus its shifted fraction. */
  lemma DecimalValueUnscaled(whole: nat, fraction: nat, places: nat)
    ensures DecimalValue(Decimal(whole, fraction, places, 0)) == whole as real + ShiftRight(fraction as real, places)
  {
  }

  /** 0x, 0o and 0b in front of digits of that radix. */
  lemma PrefixedToken(marker: char, d: string, radix: nat)
    requires (marker == 'x' && radix == 16) || (marker == 'o' && radix == 8) || (marker == 'b' && radix == 2)
    requires d != [] && AllDigitsIn(d, radix)
    ensures ToNumber("0" + [marker] + d) == Finite(DigitsValue(d, radix) as real)
  {
    var t := "0" + [marker] + d;
    forall k | 0 <= k < |t| ensures !IsWhitespace(t[k]) {
      if k >= 2 { assert t[k] == d[k - 2]; }
    }
    BareToken(t);
    assert t[2..] == d;
  }

  /** Decimal digits, e, then exponent digits scan to their digit values. */
  lemma ScanExponent(d: string, x: string)
    requires d != [] && AllDigitsIn(d, 10)
    requires x != [] && AllDigitsIn(x, 10)
    ensures ScanDecimal(d + "e" + x) == Some(Decimal(DigitsValue(d, 10), 0, 0, DigitsValue(x, 10)))
  {
    var t := d + "e" + x;
    forall k | 0 <= k < |t| ensures t[k] != 'E' && (k != |d| ==> t[k] != 'e') {
      if k < |d| { assert t[k] == d[k]; } else if k > |d| { assert t[k] == x[k - |d| - 1]; }
    }
    FirstIndexAt(t, 'e', |d|);
    FirstIndexAbsent(t, 'E');
    assert t[..|d|] == d && t[|d| + 1..] == x;
    FirstIndexAbsent(d, '.');
    assert d[..|d|] == d;
  }

  /** An exponent scales decimal digits by a power of ten. */
  lemma ExponentToken(d: string, x: string)
    requires d != [] && AllDigitsIn(d, 10)
    requires x != [] && AllDigitsIn(x, 10)
    ensures ToNumber(d + "e" + x) == Finite(Scale(DigitsValue(d, 10) as real, DigitsValue(x, 10)))
  {
    var t := d + "e" + x;
    forall k | 0 <= k < |t| ensures !IsWhitespace(t[k]) && (k != |d| ==> IsDecimalDigit(t[k])) {
      if k < |d| { assert t[k] == d[k]; } else if k > |d| { assert t[k] == x[k - |d| - 1]; }
    }
    BareToken(t);
    DecimalLiteral(t);
    ScanExponent(d, x);
  }

  /** A single digit is worth its digit value. */
  lemma SingleDigit(c: char, radix: nat)
    requires 2 <= radix && IsDigitIn(c, radix)
    ensures AllDigitsIn([c], radix) && DigitsValue([c], radix) == DigitValue(c)
  {
    assert [c][..0] == [];
  }

  /** "1.0" reads as 1. */
  lemma PointZeroIsOne()
    ensures ToNumber("1.0") == Finite(1.0)
  {
    SingleDigit('1', 10);
    SingleDigit('0', 10);
    FractionToken("1", "0");
    assert "1" + "." + "0" == "1.0";
  }

  /** "+1" reads as 1. */
  lemma PlusOneIsOne()
    ensures ToNumber("+1") == Finite(1.0)
  {
    SingleDigit('1', 10);
    SignedToken('+', "1");
    assert ['+'] + "1" == "+1";
  }

  /** "-0" reads as 0: negative zero equals zero. */
  lemma MinusZeroIsZero()
    ensures ToNumber("-0") == Finite(0.0)
  {
    SingleDigit('0', 10);
    SignedToken('-', "0");
    assert ['-'] + "0" == "-0";
  }

  /** "0x1" and "0b1" read as 1. */
  lemma PrefixedOneIsOne()
    ensures ToNumber("0x1") == Finite(1.0)
    ensures ToNumber("0b1") == Finite(1.0)
  {
    SingleDigit('1', 16);
    SingleDigit('1', 2);
    PrefixedToken('x', "1", 16);
    assert "0" + ['x'] + "1" == "0x1";
    PrefixedToken('b', "1", 2);
    assert "0" + ['b'] + "1" == "0b1";
  }

  /** "1e0" reads as 1. */
  lemma ExponentZeroIsOne()
    ensures ToNumber("1e0") == Finite(1.0)
  {
    SingleDigit('1', 10);
    SingleDigit('0', 10);
    ExponentToken("1", "0");
    assert "1" + "e" + "0" == "1e0";
  }

  /** "2" reads as 2 and "-1" as -1, neither of them a bit. */
  lemma OtherDigitsAreNotBits()
    ensures ToNumber("2") == Finite(2.0)
    ensures ToNumber("-1") == Finite(-1.0)
  {
    SingleDigit('2', 10);
    DecimalDigitsToken("2");
    SingleDigit('1', 10);
    SignedToken('-', "1");
    assert ['-'] + "1" == "-1";
  }
}
