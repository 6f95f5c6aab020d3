/** Bytes, the searches over them, and decimal text. */
module Bytes {
  import opened Wrappers
  import opened Division

  type byte = b: int | 0 <= b < 0x100
  type bytes = seq<byte>

  const SOH: byte := 1
  const LF: byte := 10
  const CR: byte := 13
  const PLUS: byte := 43
  const MINUS: byte := 45
  const DOT: byte := 46
  const ZERO: byte := 48
  const EQUALS: byte := 61
  const CARET: byte := 94

  const U32_MAX: nat := 0xFFFF_FFFF
  /** `usize` is taken as 64 bits wide. */
  const USIZE_MAX: nat := 0xFFFF_FFFF_FFFF_FFFF

  const I64_MIN: int := -0x8000_0000_0000_0000
  const I64_MAX: int := 0x7FFF_FFFF_FFFF_FFFF

  type i64 = n: int | I64_MIN <= n <= I64_MAX

  function Min(a: int, b: int): int {
    if a < b then a else b
  }

  predicate IsDigit(b: byte) {
    48 <= b <= 57
  }

  predicate AllDigits(s: bytes) {
    forall i :: 0 <= i < |s| ==> IsDigit(s[i])
  }

  /** The first position in `from..until` holding `b`. */
  function FindByte(s: bytes, b: byte, from: nat, until: nat): (r: Option<nat>)
    requires from <= until <= |s|
    ensures r.Some? ==> from <= r.value < until && s[r.value] == b && forall j :: from <= j < r.value ==> s[j] != b
    ensures r.None? ==> forall j :: from <= j < until ==> s[j] != b
    decreases until - from
  {
    if from == until then None
    else if s[from] == b then Some(from)
    else FindByte(s, b, from + 1, until)
  }

  /** A byte found stays the one found when the sequence or the range is extended. */
  lemma FindByteExtends(s: bytes, t: bytes, b: byte, from: nat, until: nat, later: nat)
    requires from <= until <= |s| && until <= later <= |t|
    requires forall j :: from <= j < until ==> s[j] == t[j]
    ensures FindByte(s, b, from, until).Some? ==> FindByte(t, b, from, later) == FindByte(s, b, from, until)
  {
    var found := FindByte(t, b, from, later);
  }

  /** How many digits `s` holds from `from`, counting at most `cap`. */
  function DigitRun(s: bytes, from: nat, cap: nat): (n: nat)
    requires from <= |s|
    ensures n <= cap && from + n <= |s|
    ensures forall j :: from <= j < from + n ==> IsDigit(s[j])
    ensures n < cap && from + n < |s| ==> !IsDigit(s[from + n])
    decreases cap
  {
    if cap == 0 || from == |s| || !IsDigit(s[from]) then 0
    else 1 + DigitRun(s, from + 1, cap - 1)
  }

  /** The number a run of digits writes, whatever its size. */
  function DigitsValue(s: bytes): (n: nat)
    requires AllDigits(s)
  {
    if s == [] then 0 else DigitsValue(s[..|s| - 1]) * 10 + (s[|s| - 1] - ZERO)
  }

  /** One or more digits write the number `n`. */
  predicate Writes(digits: bytes, n: nat) {
    digits != [] && AllDigits(digits) && DigitsValue(digits) == n
  }

  /**
   * Checked decimal folding: the digits multiplied and added one at a time, `None`
   * as soon as a step leaves `0..max`.
   */
  function CheckedFold(s: bytes, max: nat): (r: Option<nat>)
    requires AllDigits(s)
  {
    if s == [] then Some(0)
    else
      match CheckedFold(s[..|s| - 1], max)
      case None => None
      case Some(acc) =>
        if acc * 10 > max || acc * 10 + (s[|s| - 1] - ZERO) > max then None
        else Some(acc * 10 + (s[|s| - 1] - ZERO))
  }

  /** Checked folding loses nothing: it yields the number exactly when the number fits. */
  lemma {:induction false} CheckedFoldIsValue(s: bytes, max: nat)
    requires AllDigits(s)
    ensures CheckedFold(s, max) == if DigitsValue(s) <= max then Some(DigitsValue(s)) else None
  {
    if s != [] {
      CheckedFoldIsValue(s[..|s| - 1], max);
    }
  }

  function Pow10(n: nat): (p: nat)
    ensures p >= 1
  {
    if n == 0 then 1 else 10 * Pow10(n - 1)
  }

  lemma {:induction false} Pow10Adds(a: nat, b: nat)
    ensures Pow10(a + b) == Pow10(a) * Pow10(b)
  {
    if a > 0 {
      Pow10Adds(a - 1, b);
      Regroup(10, Pow10(a - 1), Pow10(b));
    }
  }

  lemma {:induction false} DigitsValueBound(s: bytes)
    requires AllDigits(s)
    ensures DigitsValue(s) < Pow10(|s|)
  {
    if s != [] {
      DigitsValueBound(s[..|s| - 1]);
    }
  }

  /** `n` in decimal, as `format!("{n}")` writes it. */
  function Decimal(n: nat): (s: bytes)
    ensures |s| > 0 && AllDigits(s)
  {
    if n < 10 then [ZERO + n] else Decimal(n / 10) + [ZERO + n % 10]
  }

  lemma {:induction false} DecimalRoundTrip(n: nat)
    ensures DigitsValue(Decimal(n)) == n
  {
    if n >= 10 {
      DecimalRoundTrip(n / 10);
      assert Decimal(n)[..|Decimal(n)| - 1] == Decimal(n / 10);
    } else {
      assert Decimal(n)[..0] == [];
    }
  }

  /**
   * Parses ASCII digits into a `u32`, rejecting empty input, any non-digit and overflow.
   */
  function ParseU32(s: bytes): (r: Option<nat>)
    ensures r.Some? ==> r.value <= U32_MAX
  {
    if s == [] || !AllDigits(s) then None else
      CheckedFoldIsValue(s, U32_MAX);
      CheckedFold(s, U32_MAX)
  }

  /** A `u32` is parsed from exactly the digits that write it. */
  lemma ParseU32Is(s: bytes, n: nat)
    ensures ParseU32(s) == Some(n) <==> Writes(s, n) && n <= U32_MAX
  {
    if AllDigits(s) { CheckedFoldIsValue(s, U32_MAX); }
  }

  lemma ParseU32Decimal(n: nat)
    requires n <= U32_MAX
    ensures ParseU32(Decimal(n)) == Some(n)
  {
    DecimalRoundTrip(n);
    CheckedFoldIsValue(Decimal(n), U32_MAX);
  }

  predicate StartsWith(s: bytes, p: bytes) {
    |p| <= |s| && s[..|p|] == p
  }

  /** The bytes added with wrapping `u8` addition, from the left. */
  function WrappingSum(s: bytes): (sum: byte) {
    if s == [] then 0 else (WrappingSum(s[..|s| - 1]) + s[|s| - 1]) % 0x100
  }

  function Sum(s: bytes): (sum: nat) {
    if s == [] then 0 else Sum(s[..|s| - 1]) + s[|s| - 1]
  }

  /** The wrapping sum is the sum modulo 256, as FIX 4.2 Appendix B defines CheckSum. */
  lemma {:induction false} WrappingSumIsSumMod256(s: bytes)
    ensures WrappingSum(s) == Sum(s) % 0x100
  {
    if s != [] {
      WrappingSumIsSumMod256(s[..|s| - 1]);
      RestOfSum(Sum(s[..|s| - 1]), s[|s| - 1], 0x100);
    }
  }
}
