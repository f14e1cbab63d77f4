/** Unsigned 64-bit integers as the timer stores its count, and the conversion
    of an argument to one with Rust's `str::parse::<u64>()` (`u64::from_str`). */
module Numerals {
  import opened Wrappers
  import opened Lexicon

  const U64_MAX: int := 0xFFFF_FFFF_FFFF_FFFF

  /** The values of Rust's `u64`. */
  type U64 = x: int | 0 <= x <= U64_MAX

  /** The largest count of minutes whose length in seconds still fits a `u64`. */
  const MAX_MINUTES: int := U64_MAX / 60

  function DigitValue(c: char): (d: nat)
    requires IsDigit(c)
    ensures d < 10
  {
    c as int - '0' as int
  }

  function DigitChar(d: nat): (c: char)
    requires d < 10
    ensures IsDigit(c) && DigitValue(c) == d
  {
    ('0' as int + d) as char
  }

  /** The number a string of decimal digits denotes, read most significant digit first. */
  function DigitsValue(s: string): nat
    requires AllDigits(s)
    decreases |s|
  {
    if s == [] then 0 else DigitsValue(s[..|s| - 1]) * 10 + DigitValue(s[|s| - 1])
  }

  /** `u64::from_str`: an optional leading `+`, then one or more ASCII digits whose
      value is at most 2^64 - 1; everything else (the empty string, a lone `+`,
      a sign `-`, any other character, a value that overflows) is an error. */
  function ParseU64(s: string): (r: Option<U64>)
    ensures r.Some? ==> |s| > 0 && (IsDigit(s[0]) || s[0] == '+')
    ensures r.Some? ==> forall i :: 0 < i < |s| ==> IsDigit(s[i])
    ensures r.Some? && s[0] == '+' ==> |s| > 1
  {
    var digits := if |s| > 0 && s[0] == '+' then s[1..] else s;
    if digits != [] && AllDigits(digits) && DigitsValue(digits) <= U64_MAX
    then Some(DigitsValue(digits))
    else None
  }

  /** The shortest decimal spelling of `n`, the inverse of `ParseU64`. */
  function Decimal(n: nat): (s: string)
    ensures |s| > 0 && AllDigits(s)
  {
    if n < 10 then [DigitChar(n)] else Decimal(n / 10) + [DigitChar(n % 10)]
  }

  /** An argument that parses as a `u64` greater than zero. */
  predicate PositiveNumeral(s: string) {
    ParseU64(s).Some? && ParseU64(s).value > 0
  }

  /** The value of a positive numeral, and zero for every other argument. */
  function PositiveValue(s: string): (n: U64)
    ensures n > 0 <==> PositiveNumeral(s)
    ensures n > 0 ==> ParseU64(s) == Some(n)
  {
    match ParseU64(s)
    case Some(v) => v
    case None => 0
  }

  /** Multiplication of two `u64`s with Rust's overflow check (a debug build
      panics on overflow): `None` stands for the panic. */
  function CheckedMul(a: U64, b: U64): (r: Option<U64>)
    ensures r.None? <==> a * b > U64_MAX
    ensures r.Some? ==> r.value == a * b
  {
    if a * b <= U64_MAX then Some(a * b) else None
  }

  lemma {:induction false} DecimalValue(n: nat)
    ensures DigitsValue(Decimal(n)) == n
  {
    var s := Decimal(n);
    if n >= 10 {
      DecimalValue(n / 10);
      assert s[..|s| - 1] == Decimal(n / 10);
    }
  }

  /** Every `u64` reads back from its decimal spelling. */
  lemma ParseDecimal(n: nat)
    requires n <= U64_MAX
    ensures ParseU64(Decimal(n)) == Some(n)
  {
    DecimalValue(n);
  }

  /** A numeral past 2^64 - 1 fails to parse: it overflows instead of wrapping. */
  lemma ParseDecimalOverflow(n: nat)
    requires n > U64_MAX
    ensures ParseU64(Decimal(n)) == None
  {
    DecimalValue(n);
  }

  /** A leading `+` is accepted and does not change the value. */
  lemma ParsePlusSign(n: nat)
    requires n <= U64_MAX
    ensures ParseU64(['+'] + Decimal(n)) == Some(n)
  {
    var s := ['+'] + Decimal(n);
    assert s[1..] == Decimal(n);
    DecimalValue(n);
  }

  /** The two flags, the empty argument and a letter never parse as numbers. */
  lemma FlagsAreNotNumerals()
    ensures ParseU64("-m") == None && ParseU64("-q") == None
    ensures ParseU64("") == None && ParseU64("+") == None && ParseU64("c") == None
  {
  }

  /** The counts the arguments of the unit tests supply. */
  lemma TestCounts()
    ensures PositiveValue("12") == 12 && PositiveValue("24") == 24
    ensures PositiveValue("-m") == 0 && PositiveValue("-q") == 0 && PositiveValue("c") == 0
    ensures PositiveValue("") == 0
  {
    CountOf(12, "12");
    CountOf(24, "24");
    FlagsAreNotNumerals();
  }

  lemma CountOf(n: nat, s: string)
    requires 0 < n <= U64_MAX && s == Decimal(n)
    ensures PositiveValue(s) == n
  {
    ParseDecimal(n);
  }
}
