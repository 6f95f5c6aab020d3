/** FIX floats: their normal form, text and equality. */
module Decimals {
  import opened Wrappers
  import opened Bytes
  import opened Division
  import opened Sequences

  const I8_MIN: int := -128
  const I8_MAX: int := 127

  type i8 = n: int | I8_MIN <= n <= I8_MAX

  /** `mantissa * 10^exponent`. */
  datatype Decimal = Decimal(mantissa: i64, exponent: i8)

  /** A nonzero mantissa without trailing zeros, as far as the exponent goes. */
  function Stripped(mantissa: i64, exponent: i8): (r: (i64, i8))
    requires mantissa != 0
    decreases I8_MAX - exponent
  {
    if mantissa % 10 == 0 && exponent < I8_MAX then Stripped(mantissa / 10, exponent + 1) else (mantissa, exponent)
  }

  function NormalForm(d: Decimal): (r: (i64, i8)) {
    if d.mantissa == 0 then (0, 0) else Stripped(d.mantissa, d.exponent)
  }

  /** The same value without trailing zeros, to compare across scales. */
  method Normalized(d: Decimal) returns (mantissa: i64, exponent: i8)
    ensures (mantissa, exponent) == NormalForm(d)
  {
    if d.mantissa == 0 {
      return 0, 0;
    }
    mantissa, exponent := d.mantissa, d.exponent;
    while mantissa % 10 == 0 && exponent < I8_MAX
      invariant mantissa != 0 && Stripped(mantissa, exponent) == NormalForm(d)
      decreases I8_MAX - exponent
    {
      mantissa := mantissa / 10;
      exponent := exponent + 1;
    }
  }

  predicate Equal(a: Decimal, b: Decimal) {
    NormalForm(a) == NormalForm(b)
  }

  /** The value in units of `10^-128`, the smallest there is. */
  function Units(d: Decimal): int {
    d.mantissa * Pow10(d.exponent - I8_MIN)
  }

  lemma {:induction false} StrippedKeepsUnits(mantissa: i64, exponent: i8)
    requires mantissa != 0
    ensures var (m, e) := Stripped(mantissa, exponent); Units(Decimal(m, e)) == Units(Decimal(mantissa, exponent)) && m != 0
    decreases I8_MAX - exponent
  {
    if mantissa % 10 == 0 && exponent < I8_MAX {
      StrippedKeepsUnits(mantissa / 10, exponent + 1);
      OneZeroLess(mantissa / 10, Pow10(exponent - I8_MIN));
    }
  }

  lemma OneZeroLess(m: int, p: int)
    ensures m * (10 * p) == (10 * m) * p
  {
  }

  /** Zeros added to a mantissa are stripped again. */
  lemma {:induction false} StripsZeros(mantissa: i64, exponent: i8, zeros: nat)
    requires mantissa != 0 && exponent + zeros <= I8_MAX && I64_MIN <= mantissa * Pow10(zeros) <= I64_MAX
    ensures mantissa * Pow10(zeros) != 0
    ensures Stripped(mantissa * Pow10(zeros), exponent) == Stripped(mantissa, exponent + zeros)
    decreases zeros
  {
    ProductIsNotZero(mantissa, Pow10(zeros));
    if zeros > 0 {
      var fewer := mantissa * Pow10(zeros - 1);
      OneZeroLess(mantissa, Pow10(zeros - 1));
      assert mantissa * Pow10(zeros) == 10 * fewer by { OneZeroFewer(mantissa, Pow10(zeros - 1)); }
      QuotientAndRest(fewer, 0, 10);
      StripsZeros(mantissa, exponent + 1, zeros - 1);
    }
  }

  lemma OneZeroFewer(m: int, p: int)
    ensures m * (10 * p) == 10 * (m * p)
  {
  }

  lemma ProductIsNotZero(m: int, p: int)
    requires m != 0 && p > 0
    ensures m * p != 0
  {
  }

  lemma CancelFactor(m: int, n: int, p: int)
    requires p > 0 && m * p == n * p
    ensures m == n
  {
  }

  /** The mantissas of equal values differ by the zeros between their exponents. */
  lemma SameUnitsSameDigits(a: Decimal, b: Decimal)
    requires Units(a) == Units(b) && a.exponent <= b.exponent
    ensures a.mantissa == b.mantissa * Pow10(b.exponent - a.exponent)
  {
    var p, q := Pow10(a.exponent - I8_MIN), Pow10(b.exponent - a.exponent);
    Pow10Adds(b.exponent - a.exponent, a.exponent - I8_MIN);
    Regroup(b.mantissa, q, p);
    CancelFactor(a.mantissa, b.mantissa * q, p);
  }

  /** Decimals are equal exactly when they have the same value. */
  lemma EqualIffSameValue(a: Decimal, b: Decimal)
    ensures Equal(a, b) <==> Units(a) == Units(b)
  {
    hide Pow10, Stripped;
    ZeroHasNoUnits(a);
    ZeroHasNoUnits(b);
    if a.mantissa != 0 && b.mantissa != 0 {
      StrippedKeepsUnits(a.mantissa, a.exponent);
      StrippedKeepsUnits(b.mantissa, b.exponent);
      if Units(a) == Units(b) {
        if a.exponent <= b.exponent { SameUnitsSameForm(a, b); } else { SameUnitsSameForm(b, a); }
      }
    } else {
      if a.mantissa != 0 { StrippedKeepsUnits(a.mantissa, a.exponent); }
      if b.mantissa != 0 { StrippedKeepsUnits(b.mantissa, b.exponent); }
    }
  }

  lemma SameUnitsSameForm(a: Decimal, b: Decimal)
    requires Units(a) == Units(b) && a.exponent <= b.exponent && a.mantissa != 0 && b.mantissa != 0
    ensures NormalForm(a) == NormalForm(b)
  {
    hide Pow10, Stripped;
    SameUnitsSameDigits(a, b);
    StripsZeros(b.mantissa, a.exponent, b.exponent - a.exponent);
  }

  lemma ZeroHasNoUnits(d: Decimal)
    ensures Units(d) == 0 <==> d.mantissa == 0
  {
    if d.mantissa != 0 { ProductIsNotZero(d.mantissa, Pow10(d.exponent - I8_MIN)); }
  }

  // Text.

  /** The parts of a float's text. */
  datatype Parts = Parts(negative: bool, whole: bytes, fraction: bytes)

  function Split(text: bytes): (p: Parts) {
    var negative := text != [] && text[0] == MINUS;
    var unsigned := if negative then text[1..] else text;
    match FindByte(unsigned, DOT, 0, |unsigned|)
    case Some(at) => Parts(negative, unsigned[..at], unsigned[at + 1..])
    case None => Parts(negative, unsigned, [])
  }

  function Sign(negative: bool): int {
    if negative then -1 else 1
  }

  /** The decimal a float's text writes, if it can be held. */
  function Parsed(text: bytes): (r: Option<Decimal>) {
    var p := Split(text);
    var digits := p.whole + p.fraction;
    if digits == [] || |p.fraction| > I8_MAX || !AllDigits(digits) || DigitsValue(digits) > I64_MAX then None
    else Some(Decimal(Sign(p.negative) * DigitsValue(digits), -|p.fraction|))
  }

  /** Reads a FIX float, keeping its scale. */
  method Parse(text: bytes) returns (r: Option<Decimal>)
    ensures r == Parsed(text)
  {
    var p := Split(text);
    if p.whole == [] && p.fraction == [] {
      return None;
    }
    if |p.fraction| > I8_MAX {
      return None;
    }
    var mantissa := FoldDigits(p.whole + p.fraction);
    if mantissa.None? {
      return None;
    }
    return Some(Decimal(Sign(p.negative) * mantissa.value, -|p.fraction|));
  }

  /** Adds digits up, until one is not a digit or the sum leaves an `i64`. */
  method FoldDigits(digits: bytes) returns (mantissa: Option<nat>)
    ensures mantissa == if AllDigits(digits) && DigitsValue(digits) <= I64_MAX then Some(DigitsValue(digits)) else None
  {
    var sum := 0;
    for i := 0 to |digits|
      invariant AllDigits(digits[..i]) && sum == DigitsValue(digits[..i]) <= I64_MAX
    {
      assert digits[..i + 1][..i] == digits[..i];
      if !IsDigit(digits[i]) {
        return None;
      }
      TooLong(digits, i + 1);
      if sum * 10 > I64_MAX || sum * 10 + (digits[i] - ZERO) > I64_MAX {
        return None;
      }
      sum := sum * 10 + (digits[i] - ZERO);
    }
    assert digits[..|digits|] == digits;
    return Some(sum);
  }

  /** More digits make no smaller number. */
  lemma {:induction false} TooLong(s: bytes, n: nat)
    requires n <= |s| && AllDigits(s[..n])
    ensures AllDigits(s) ==> DigitsValue(s[..n]) <= DigitsValue(s)
    decreases |s| - n
  {
    if n < |s| && AllDigits(s) {
      assert s[..n + 1][..n] == s[..n];
      TooLong(s, n + 1);
    } else {
      assert s[..|s|] == s;
    }
  }

  function Zeros(n: nat): (s: bytes)
    ensures |s| == n && AllDigits(s)
  {
    seq(n, _ => ZERO)
  }

  function Magnitude(n: int): nat {
    if n < 0 then -n else n
  }

  /** The text of a decimal: its digits with the point put in, or zeros added. */
  function Text(d: Decimal): (s: bytes) {
    var digits := Bytes.Decimal(Magnitude(d.mantissa));
    var scale := Magnitude(d.exponent);
    var unsigned :=
      if d.exponent >= 0 then digits + Zeros(scale)
      else if |digits| > scale then digits[..|digits| - scale] + [DOT] + digits[|digits| - scale..]
      else [ZERO, DOT] + Zeros(scale - |digits|) + digits;
    (if d.mantissa >= 0 then [] else [MINUS]) + unsigned
  }

  lemma {:induction false} DigitsOfTwo(a: bytes, b: bytes)
    requires AllDigits(a) && AllDigits(b)
    ensures AllDigits(a + b) && DigitsValue(a + b) == DigitsValue(a) * Pow10(|b|) + DigitsValue(b)
    decreases |b|
  {
    if b == [] {
      assert a + b == a;
    } else {
      var n := |b| - 1;
      DigitsOfTwo(a, b[..n]);
      assert (a + b)[..|a| + n] == a + b[..n];
      OneZeroFewer(DigitsValue(a), Pow10(n));
    }
  }

  lemma {:induction false} ZerosAreNothing(n: nat)
    ensures DigitsValue(Zeros(n)) == 0
  {
    if n > 0 {
      assert Zeros(n)[..n - 1] == Zeros(n - 1);
      ZerosAreNothing(n - 1);
    }
  }

  /** What is read back from the text of a decimal: its digits, with a positive exponent written out. */
  function ReadBack(d: Decimal): (r: Option<Decimal>) {
    var size := Magnitude(d.mantissa);
    if d.exponent > 0 then
      if size * Pow10(d.exponent) > I64_MAX then None
      else SignedDecimal(d.mantissa < 0, size * Pow10(d.exponent), 0)
    else if d.exponent == I8_MIN || size > I64_MAX then None
    else Some(d)
  }

  function SignedDecimal(negative: bool, size: nat, exponent: i8): Option<Decimal>
    requires size <= I64_MAX
  {
    Some(Decimal(Sign(negative) * size, exponent))
  }

  lemma SplitSigned(negative: bool, whole: bytes, fraction: bytes, point: bool)
    requires AllDigits(whole) && AllDigits(fraction) && (whole != [] || point) && (!point ==> fraction == [])
    ensures Split((if negative then [MINUS] else []) + (if point then whole + [DOT] + fraction else whole)) == Parts(negative, whole, fraction)
  {
    hide AllDigits, FindByte;
    var unsigned := if point then whole + [DOT] + fraction else whole;
    DigitsOnly(whole);
    SignStripped(negative, unsigned);
    if point { PointFound(whole, fraction); } else { NoPoint(whole); }
  }

  lemma DigitsOnly(s: bytes)
    requires AllDigits(s)
    ensures DOT !in s && MINUS !in s
  {
  }

  lemma SignStripped(negative: bool, unsigned: bytes)
    requires unsigned != [] && unsigned[0] != MINUS
    ensures var text := (if negative then [MINUS] else []) + unsigned;
            text != [] && (text[0] == MINUS <==> negative) && (if negative then text[1..] else text) == unsigned
  {
  }

  lemma PointFound(whole: bytes, fraction: bytes)
    requires DOT !in whole
    ensures var unsigned := whole + [DOT] + fraction;
            && FindByte(unsigned, DOT, 0, |unsigned|) == Some(|whole|)
            && unsigned[..|whole|] == whole && unsigned[|whole| + 1..] == fraction
  {
    var unsigned := whole + [DOT] + fraction;
    assert unsigned[|whole|] == DOT && forall j :: 0 <= j < |whole| ==> unsigned[j] == whole[j];
    var found := FindByte(unsigned, DOT, 0, |unsigned|);
  }

  lemma NoPoint(whole: bytes)
    requires DOT !in whole
    ensures FindByte(whole, DOT, 0, |whole|) == None
  {
  }

  /** The text of a decimal, in parts. */
  lemma TextInParts(d: Decimal)
    ensures var p, size := Split(Text(d)), Magnitude(d.mantissa);
            && p.negative == (d.mantissa < 0) && p.whole != [] && AllDigits(p.whole + p.fraction)
            && |p.fraction| == (if d.exponent < 0 then Magnitude(d.exponent) else 0)
            && DigitsValue(p.whole + p.fraction) == if d.exponent > 0 then size * Pow10(d.exponent) else size
  {
    var size := Magnitude(d.mantissa);
    var digits := Bytes.Decimal(size);
    DecimalRoundTrip(size);
    hide Bytes.Decimal, DigitsValue, Split, Text, Zeros;
    if d.exponent >= 0 {
      WholeText(d, digits);
      assert digits + Zeros(d.exponent) + [] == digits + Zeros(d.exponent);
      assert Pow10(0) == 1;
    } else if |digits| > -(d.exponent as int) {
      PointText(d, digits, |digits| + d.exponent);
      assert digits[..|digits| + d.exponent] + digits[|digits| + d.exponent..] == digits;
    } else {
      SmallText(d, digits, -(d.exponent as int) - |digits|);
    }
  }

  lemma WholeText(d: Decimal, digits: bytes)
    requires d.exponent >= 0 && digits == Bytes.Decimal(Magnitude(d.mantissa))
    ensures Split(Text(d)) == Parts(d.mantissa < 0, digits + Zeros(d.exponent), [])
    ensures AllDigits(digits + Zeros(d.exponent)) && DigitsValue(digits + Zeros(d.exponent)) == DigitsValue(digits) * Pow10(d.exponent)
  {
    hide Bytes.Decimal, DigitsValue, Split, Zeros, Pow10;
    DigitsOfTwo(digits, Zeros(d.exponent));
    ZerosAreNothing(d.exponent);
    SplitSigned(d.mantissa < 0, digits + Zeros(d.exponent), [], false);
  }

  lemma PointText(d: Decimal, digits: bytes, at: nat)
    requires d.exponent < 0 && digits == Bytes.Decimal(Magnitude(d.mantissa)) && 0 < at == |digits| + d.exponent
    ensures Split(Text(d)) == Parts(d.mantissa < 0, digits[..at], digits[at..])
  {
    hide Bytes.Decimal, Split, Zeros;
    SplitSigned(d.mantissa < 0, digits[..at], digits[at..], true);
  }

  lemma SmallText(d: Decimal, digits: bytes, zeros: nat)
    requires d.exponent < 0 && digits == Bytes.Decimal(Magnitude(d.mantissa)) && zeros + |digits| + d.exponent == 0
    ensures Split(Text(d)) == Parts(d.mantissa < 0, [ZERO], Zeros(zeros) + digits)
    ensures AllDigits([ZERO] + (Zeros(zeros) + digits)) && DigitsValue([ZERO] + (Zeros(zeros) + digits)) == DigitsValue(digits)
  {
    hide Bytes.Decimal, DigitsValue, Split, Zeros;
    var fraction := Zeros(zeros) + digits;
    assert [ZERO, DOT] + Zeros(zeros) + digits == [ZERO] + [DOT] + fraction;
    SplitSigned(d.mantissa < 0, [ZERO], fraction, true);
    PaddedDigits(digits, zeros);
  }

  lemma PaddedDigits(digits: bytes, zeros: nat)
    requires AllDigits(digits)
    ensures AllDigits([ZERO] + (Zeros(zeros) + digits)) && DigitsValue([ZERO] + (Zeros(zeros) + digits)) == DigitsValue(digits)
  {
    assert [ZERO] + (Zeros(zeros) + digits) == Zeros(zeros + 1) + digits;
    ZerosAreNothing(zeros + 1);
    DigitsOfTwo(Zeros(zeros + 1), digits);
  }

  /** What parsing makes of every decimal's text. */
  lemma TextReadsBack(d: Decimal)
    ensures Parsed(Text(d)) == ReadBack(d)
  {
    hide Split, Text, Pow10, DigitsValue;
    TextInParts(d);
  }

  /** Parsing undoes display exactly for exponents -127 to 0 and mantissas other than the least. */
  lemma ParseUndoesText(d: Decimal)
    ensures Parsed(Text(d)) == Some(d) <==> -127 <= d.exponent <= 0 && d.mantissa != I64_MIN
  {
    hide Parsed, Text;
    TextReadsBack(d);
  }

  /** Any decimal read back from its text equals it, whatever its exponent. */
  lemma ReadBackIsEqual(d: Decimal)
    requires Parsed(Text(d)).Some?
    ensures Equal(Parsed(Text(d)).value, d)
  {
    hide Parsed, Text, Equal, Units, Pow10;
    TextReadsBack(d);
    EqualIffSameValue(Parsed(Text(d)).value, d);
    if d.exponent > 0 { WrittenOutKeepsUnits(d); }
  }

  lemma WrittenOutKeepsUnits(d: Decimal)
    requires d.exponent > 0 && I64_MIN <= d.mantissa * Pow10(d.exponent) <= I64_MAX
    ensures Units(Decimal(d.mantissa * Pow10(d.exponent), 0)) == Units(d)
  {
    hide Pow10;
    Pow10Adds(d.exponent, -I8_MIN);
    Regroup(d.mantissa, Pow10(d.exponent), Pow10(-I8_MIN));
  }

  /** `text` is a sign if `negative`, digits, and a point and more digits if `point`, and writes `d` at the scale of those. */
  predicate WritesDecimal(text: bytes, negative: bool, whole: bytes, point: bool, fraction: bytes, d: Decimal) {
    && text == (if negative then [MINUS] else []) + (if point then whole + [DOT] + fraction else whole)
    && (!point ==> fraction == []) && |fraction| <= I8_MAX
    && whole + fraction != [] && AllDigits(whole + fraction)
    && d.exponent == -|fraction| && d.mantissa == Sign(negative) * DigitsValue(whole + fraction)
    && DigitsValue(whole + fraction) <= I64_MAX
  }

  /** A float is read from exactly the texts that write it: digits on one side of the point are enough. */
  lemma ParsesExactly(text: bytes, d: Decimal)
    ensures Parsed(text) == Some(d) <==>
            exists negative, whole, point, fraction :: WritesDecimal(text, negative, whole, point, fraction, d)
  {
    hide DigitsValue;
    if Parsed(text) == Some(d) {
      var p := Split(text);
      var unsigned := if p.negative then text[1..] else text;
      var point := FindByte(unsigned, DOT, 0, |unsigned|).Some?;
      SplitJoins(text);
      assert WritesDecimal(text, p.negative, p.whole, point, p.fraction, d);
    }
    forall negative, whole, point, fraction | WritesDecimal(text, negative, whole, point, fraction, d) ensures Parsed(text) == Some(d) {
      WritesSplits(text, negative, whole, point, fraction, d);
    }
  }

  lemma SplitJoins(text: bytes)
    ensures var p := Split(text);
            var unsigned := if p.negative then text[1..] else text;
            var point := FindByte(unsigned, DOT, 0, |unsigned|).Some?;
            && text == (if p.negative then [MINUS] else []) + (if point then p.whole + [DOT] + p.fraction else p.whole)
            && (!point ==> p.fraction == [])
  {
    hide FindByte;
    var negative := text != [] && text[0] == MINUS;
    var unsigned := if negative then text[1..] else text;
    if negative { FirstAndRest(text); }
    var found := FindByte(unsigned, DOT, 0, |unsigned|);
    if found.Some? { JoinsAt(unsigned, found.value); }
  }

  lemma JoinsAt(s: bytes, at: nat)
    requires at < |s|
    ensures s == s[..at] + [s[at]] + s[at + 1..]
  {
  }

  lemma WritesSplits(text: bytes, negative: bool, whole: bytes, point: bool, fraction: bytes, d: Decimal)
    requires WritesDecimal(text, negative, whole, point, fraction, d)
    ensures Parsed(text) == Some(d)
  {
    hide DigitsValue, Split;
    assert AllDigits(whole) by { assert whole == (whole + fraction)[..|whole|]; }
    assert AllDigits(fraction) by { assert fraction == (whole + fraction)[|whole|..]; }
    SplitSigned(negative, whole, fraction, point);
  }

  /** `text` has the digits of the scale after a point, and before it one or more, the first a zero only if alone. */
  predicate HasPoint(text: bytes, d: Decimal, whole: bytes, fraction: bytes) {
    && text == (if d.mantissa < 0 then [MINUS] else []) + (whole + [DOT] + fraction) && |fraction| + d.exponent == 0
    && whole != [] && AllDigits(whole + fraction) && (whole[0] == ZERO ==> |whole| == 1)
    && DigitsValue(whole + fraction) == Magnitude(d.mantissa)
  }

  /** A decimal with a scale is written with its digits around the point, any other with its digits and zeros. */
  lemma TextIsCanonical(d: Decimal)
    ensures if d.exponent >= 0 then
              Text(d) == (if d.mantissa < 0 then [MINUS] else []) + (Bytes.Decimal(Magnitude(d.mantissa)) + Zeros(d.exponent))
            else exists whole, fraction :: HasPoint(Text(d), d, whole, fraction)
  {
    hide Bytes.Decimal, DigitsValue, Split, Text, Zeros, AllDigits, HasPoint;
    var digits := Bytes.Decimal(Magnitude(d.mantissa));
    TextIs(d, digits);
    if d.exponent < 0 {
      var at := |digits| + d.exponent;
      if at > 0 { PointIsInside(d, digits, at); } else { PointIsBefore(d, digits, -at); }
    }
  }

  lemma PointIsInside(d: Decimal, digits: bytes, at: nat)
    requires d.exponent < 0 && digits == Bytes.Decimal(Magnitude(d.mantissa)) && 0 < at == |digits| + d.exponent
    requires Text(d) == (if d.mantissa < 0 then [MINUS] else []) + (digits[..at] + [DOT] + digits[at..])
    ensures HasPoint(Text(d), d, digits[..at], digits[at..])
  {
    hide Bytes.Decimal, DigitsValue, Text;
    NoLeadingZero(Magnitude(d.mantissa));
    DecimalRoundTrip(Magnitude(d.mantissa));
    assert digits[..at] + digits[at..] == digits;
  }

  lemma PointIsBefore(d: Decimal, digits: bytes, zeros: nat)
    requires d.exponent < 0 && digits == Bytes.Decimal(Magnitude(d.mantissa)) && zeros + |digits| + d.exponent == 0
    requires Text(d) == (if d.mantissa < 0 then [MINUS] else []) + ([ZERO] + [DOT] + (Zeros(zeros) + digits))
    ensures HasPoint(Text(d), d, [ZERO], Zeros(zeros) + digits)
  {
    hide Bytes.Decimal, DigitsValue, Text, Zeros;
    DecimalRoundTrip(Magnitude(d.mantissa));
    PaddedDigits(digits, zeros);
  }

  lemma TextIs(d: Decimal, digits: bytes)
    requires digits == Bytes.Decimal(Magnitude(d.mantissa))
    ensures var sign, at := if d.mantissa < 0 then [MINUS] else [], |digits| + d.exponent;
            Text(d) == sign + if d.exponent >= 0 then digits + Zeros(d.exponent)
                              else if at > 0 then digits[..at] + [DOT] + digits[at..]
                              else [ZERO] + [DOT] + (Zeros(-at) + digits)
  {
    hide Bytes.Decimal, Zeros;
    var at := |digits| + d.exponent;
    if d.exponent < 0 && at <= 0 { assert [ZERO, DOT] + Zeros(-at) + digits == [ZERO] + [DOT] + (Zeros(-at) + digits); }
  }

  lemma {:induction false} NoLeadingZero(n: nat)
    ensures Bytes.Decimal(n)[0] == ZERO ==> n == 0 && |Bytes.Decimal(n)| == 1
  {
    if n >= 10 {
      NoLeadingZero(n / 10);
      assert Bytes.Decimal(n)[0] == Bytes.Decimal(n / 10)[0];
    }
  }
}
