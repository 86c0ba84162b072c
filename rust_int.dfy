/**
 * Rust's `<i32 as FromStr>::from_str` (`from_str_radix` with radix 10) and
 * the `Display` rendering of an `i32`.
 *
 * The parser accepts one optional leading `+` or `-` and then ASCII digits
 * only; it folds the digits left to right into a checked 32-bit accumulator,
 * testing each character for being a digit before testing the multiplication
 * for overflow, and stops at the first failure.
 */
module RustInt {
  import opened Results

  const MinI32: int := -0x8000_0000
  const MaxI32: int := 0x7FFF_FFFF

  newtype int32 = x: int | -0x8000_0000 <= x < 0x8000_0000

  predicate InI32(x: int) { MinI32 <= x <= MaxI32 }

  /** The kinds of `core::num::ParseIntError` this parser can produce. */
  datatype IntErrorKind = Empty | InvalidDigit | PosOverflow | NegOverflow

  predicate IsDigit(c: char) { '0' <= c <= '9' }

  function DigitValue(c: char): (d: nat)
    requires IsDigit(c)
    ensures d < 10
  {
    c as int - '0' as int
  }

  predicate AllDigits(s: string) { forall i :: 0 <= i < |s| ==> IsDigit(s[i]) }

  /** Horner's rule: the value of the digits `ds` written after a number whose value is `acc`. */
  function Horner(acc: int, ds: string): (v: int)
    requires AllDigits(ds)
    ensures acc >= 0 ==> v >= acc
    decreases |ds|
  {
    if ds == [] then acc else Horner(acc * 10 + DigitValue(ds[0]), ds[1..])
  }

  /** The value of a decimal numeral, most significant digit first. */
  function NumeralValue(ds: string): nat
    requires AllDigits(ds)
  {
    Horner(0, ds)
  }

  /** What the parser should accept: an optional sign, then at least one ASCII digit. */
  predicate IsIntLiteral(s: string)
  {
    if |s| > 0 && (s[0] == '+' || s[0] == '-') then |s| > 1 && AllDigits(s[1..])
    else |s| > 0 && AllDigits(s)
  }

  /** The mathematical value of a literal, before any range check. */
  function LiteralValue(s: string): int
    requires IsIntLiteral(s)
  {
    if s[0] == '-' then -(NumeralValue(s[1..]) as int)
    else if s[0] == '+' then NumeralValue(s[1..])
    else NumeralValue(s)
  }

  /** The digit loop of `from_str_radix`: `acc` is the value so far, `positive` the sign. */
  function Accumulate(acc: int32, positive: bool, ds: string): Result<int32, IntErrorKind>
    decreases |ds|
  {
    if ds == [] then Ok(acc)
    else if !IsDigit(ds[0]) then Err(InvalidDigit)
    else
      var overflow := if positive then PosOverflow else NegOverflow;
      var mul := acc as int * 10;
      if !InI32(mul) then Err(overflow)
      else
        var next := if positive then mul + DigitValue(ds[0]) else mul - DigitValue(ds[0]);
        if !InI32(next) then Err(overflow)
        else Accumulate(next as int32, positive, ds[1..])
  }

  /** `s.parse::<i32>()`. */
  function ParseI32(s: string): Result<int32, IntErrorKind>
  {
    if s == [] then Err(Empty)
    else if s == "+" || s == "-" then Err(InvalidDigit)
    else if s[0] == '+' then Accumulate(0, true, s[1..])
    else if s[0] == '-' then Accumulate(0, false, s[1..])
    else Accumulate(0, true, s)
  }

  /** Writing one more digit multiplies by ten and adds it. */
  lemma {:induction false} HornerAppend(acc: int, p: string, c: char)
    requires AllDigits(p) && IsDigit(c)
    ensures AllDigits(p + [c]) && Horner(acc, p + [c]) == Horner(acc, p) * 10 + DigitValue(c)
    decreases |p|
  {
    if p != [] {
      assert (p + [c])[1..] == p[1..] + [c];
      HornerAppend(acc * 10 + DigitValue(p[0]), p[1..], c);
    }
  }

  /**
   * The digit loop for a non-negative number whose digits so far are worth
   * `a`: it returns the value of all the digits when every character is a
   * digit and that value fits, `PosOverflow` when every character is a digit
   * and it does not, and an error otherwise.
   */
  lemma {:induction false} AccumulatePositive(a: int, ds: string)
    requires 0 <= a <= MaxI32
    ensures var r := Accumulate(a as int32, true, ds);
      if AllDigits(ds) then
        r == if Horner(a, ds) <= MaxI32 then Ok(Horner(a, ds) as int32) else Err(PosOverflow)
      else r.Err?
    decreases |ds|
  {
    if ds != [] && IsDigit(ds[0]) {
      var a' := a * 10 + DigitValue(ds[0]);
      if a * 10 <= MaxI32 && a' <= MaxI32 {
        AccumulatePositive(a', ds[1..]);
      }
    }
  }

  /** The same loop for a negative number: digits are subtracted, and overflow is `NegOverflow`. */
  lemma {:induction false} AccumulateNegative(a: int, ds: string)
    requires 0 <= a <= -MinI32
    ensures var r := Accumulate((-a) as int32, false, ds);
      if AllDigits(ds) then
        r == if -Horner(a, ds) >= MinI32 then Ok((-Horner(a, ds)) as int32) else Err(NegOverflow)
      else r.Err?
    decreases |ds|
  {
    if ds != [] && IsDigit(ds[0]) {
      var a' := a * 10 + DigitValue(ds[0]);
      if -a * 10 >= MinI32 && -a' >= MinI32 {
        AccumulateNegative(a', ds[1..]);
      }
    }
  }

  /**
   * `parse` succeeds exactly on a sign-optional digit string whose value fits
   * in 32 bits, and then yields that value; the empty string is `Empty`, and a
   * well-formed literal out of range is an overflow on its own side.
   */
  lemma ParseI32Spec(s: string)
    ensures ParseI32(s).Ok? <==> IsIntLiteral(s) && InI32(LiteralValue(s))
    ensures ParseI32(s).Ok? ==> ParseI32(s).value as int == LiteralValue(s)
    ensures s == [] ==> ParseI32(s) == Err(Empty)
    ensures IsIntLiteral(s) && !InI32(LiteralValue(s)) ==>
      ParseI32(s) == Err(if LiteralValue(s) > 0 then PosOverflow else NegOverflow)
  {
    if s == [] || s == "+" || s == "-" {
      assert !IsIntLiteral(s);
    } else {
      var positive := s[0] != '-';
      var ds := if s[0] == '+' || s[0] == '-' then s[1..] else s;
      assert ParseI32(s) == Accumulate(0, positive, ds);
      assert IsIntLiteral(s) <==> AllDigits(ds);
      if positive { AccumulatePositive(0, ds); } else { AccumulateNegative(0, ds); }
      assert IsIntLiteral(s) ==>
        LiteralValue(s) == if positive then NumeralValue(ds) as int else -(NumeralValue(ds) as int);
    }
  }

  function DigitChar(d: nat): (c: char)
    requires d < 10
    ensures IsDigit(c) && DigitValue(c) == d
  {
    ('0' as int + d) as char
  }

  /** Decimal digits of `n`, no leading zeros, "0" for zero. */
  function NatDigits(n: nat): (ds: string)
    ensures |ds| > 0 && AllDigits(ds) && NumeralValue(ds) == n
  {
    if n < 10 then
      var ds := [DigitChar(n)];
      assert ds[1..] == [];
      assert Horner(0, ds) == Horner(n, []);
      ds
    else
      var ds := NatDigits(n / 10) + [DigitChar(n % 10)];
      HornerAppend(0, NatDigits(n / 10), DigitChar(n % 10));
      ds
  }

  /** `format!("{}", v)` for an `i32`. */
  function Render(v: int32): string
  {
    if v < 0 then "-" + NatDigits(-(v as int)) else NatDigits(v as int)
  }

  /** Round trip: every `i32` parses back from its decimal rendering. */
  lemma ParseRender(v: int32)
    ensures ParseI32(Render(v)) == Ok(v)
  {
    var s := Render(v);
    if v < 0 {
      assert s[1..] == NatDigits(-(v as int));
    }
    assert IsIntLiteral(s) && LiteralValue(s) == v as int;
    ParseI32Spec(s);
  }
}
