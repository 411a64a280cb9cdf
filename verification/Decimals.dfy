/**
 * Exact decimal numbers: an integer coefficient over a power of ten, their text, and the reader
 * for decimal literals.
 */
module Decimals {
  import opened Outcomes

  datatype Decimal = Decimal(coefficient: int, scale: nat)

  const MAX_DECIMAL_DIGITS := 1_000

  function Pow10(n: nat): (p: int)
    ensures p >= 1
  {
    if n == 0 then 1 else 10 * Pow10(n - 1)
  }

  /** A number times ten to the power e. */
  function Shift(x: real, e: int): real
    decreases if e < 0 then -e else e
  {
    if e == 0 then x else if e > 0 then Shift(10.0 * x, e - 1) else Shift(x / 10.0, e + 1)
  }

  /** The exact number a decimal stands for. */
  function Real(d: Decimal): real {
    Shift(d.coefficient as real, -(d.scale as int))
  }

  lemma {:induction false} ShiftOnce(x: real, e: int)
    ensures Shift(10.0 * x, e - 1) == Shift(x, e) && Shift(x / 10.0, e + 1) == Shift(x, e)
  {
    assert 10.0 * x / 10.0 == x && 10.0 * (x / 10.0) == x;
  }

  lemma {:induction false} ShiftsAdd(x: real, a: int, b: int)
    ensures Shift(Shift(x, a), b) == Shift(x, a + b)
    decreases if a < 0 then -a else a
  {
    ShiftOnce(x, a + b);
    if a > 0 {
      ShiftsAdd(10.0 * x, a - 1, b);
    } else if a < 0 {
      ShiftsAdd(x / 10.0, a + 1, b);
    }
  }

  lemma {:induction false} ShiftsBack(x: real, e: int)
    ensures Shift(Shift(x, e), -e) == x
  {
    ShiftsAdd(x, e, -e);
  }

  lemma {:induction false} ShiftOfSum(x: real, y: real, e: int)
    ensures Shift(x + y, e) == Shift(x, e) + Shift(y, e)
    decreases if e < 0 then -e else e
  {
    if e > 0 {
      assert 10.0 * (x + y) == 10.0 * x + 10.0 * y;
      ShiftOfSum(10.0 * x, 10.0 * y, e - 1);
    } else if e < 0 {
      assert (x + y) / 10.0 == x / 10.0 + y / 10.0;
      ShiftOfSum(x / 10.0, y / 10.0, e + 1);
    }
  }

  lemma {:induction false} ShiftOfZero(e: int)
    ensures Shift(0.0, e) == 0.0
    decreases if e < 0 then -e else e
  {
    if e > 0 { ShiftOfZero(e - 1); } else if e < 0 { ShiftOfZero(e + 1); }
  }

  lemma {:induction false} ShiftOfNegation(x: real, e: int)
    ensures Shift(-x, e) == -Shift(x, e)
  {
    ShiftOfSum(x, -x, e);
    ShiftOfZero(e);
  }

  lemma {:induction false} ShiftKeepsOrder(x: real, y: real, e: int)
    ensures x < y <==> Shift(x, e) < Shift(y, e)
    decreases if e < 0 then -e else e
  {
    if e > 0 {
      ShiftKeepsOrder(10.0 * x, 10.0 * y, e - 1);
    } else if e < 0 {
      ShiftKeepsOrder(x / 10.0, y / 10.0, e + 1);
    }
  }

  lemma {:induction false} ShiftByTen(x: real, e: int)
    ensures Shift(x, e + 1) == 10.0 * Shift(x, e)
  {
    ShiftsAdd(x, e, 1);
    assert Shift(Shift(x, e), 1) == Shift(10.0 * Shift(x, e), 0);
  }

  /** An integer times ten to the power k, ten at a time. */
  function TimesPow10(n: int, k: nat): int {
    if k == 0 then n else 10 * TimesPow10(n, k - 1)
  }

  /** That is its product with the power. */
  lemma {:induction false} TimesPow10IsProduct(n: int, k: nat)
    ensures TimesPow10(n, k) == n * Pow10(k)
  {
    if k == 0 {
      assert n * Pow10(0) == n;
    } else {
      TimesPow10IsProduct(n, k - 1);
      Reassociate(n, Pow10(k - 1));
    }
  }

  lemma {:induction false} Reassociate(n: int, p: int)
    ensures n * (10 * p) == 10 * (n * p)
  {
  }

  /** Shifting an integer left is multiplying it by a power of ten. */
  lemma {:induction false} ShiftOfInteger(n: int, k: nat)
    ensures Shift(n as real, k) == TimesPow10(n, k) as real
  {
    if k > 0 {
      ShiftOfInteger(n, k - 1);
      ShiftByTen(n as real, k - 1);
    }
  }

  /** The coefficient a decimal has at a larger scale. */
  function ScaleCoefficient(d: Decimal, scale: nat): int
    requires scale >= d.scale
  {
    TimesPow10(d.coefficient, scale - d.scale)
  }

  lemma {:induction false} ScalingIsExact(d: Decimal, scale: nat)
    requires scale >= d.scale
    ensures ScaleCoefficient(d, scale) as real == Shift(Real(d), scale)
  {
    ShiftOfInteger(d.coefficient, scale - d.scale);
    ShiftsAdd(d.coefficient as real, -(d.scale as int), scale);
  }

  // ----- normal form

  predicate IsNormal(d: Decimal) {
    d.scale == 0 || d.coefficient % 10 != 0
  }

  function Normalize(d: Decimal): Decimal
    decreases d.scale
  {
    if d.scale > 0 && d.coefficient % 10 == 0 then Normalize(Decimal(d.coefficient / 10, d.scale - 1)) else d
  }

  /** Normalizing keeps the number and gives its normal form. */
  lemma {:induction false} NormalizeIsExact(d: Decimal)
    ensures IsNormal(Normalize(d)) && Real(Normalize(d)) == Real(d)
    decreases d.scale
  {
    if d.scale > 0 && d.coefficient % 10 == 0 {
      var shorter := Decimal(d.coefficient / 10, d.scale - 1);
      assert d.coefficient as real / 10.0 == shorter.coefficient as real;
      NormalizeIsExact(shorter);
    }
  }

  lemma {:induction false} SameNumberSameCoefficient(a: Decimal, b: Decimal)
    requires Real(a) == Real(b) && a.scale <= b.scale
    ensures ScaleCoefficient(a, b.scale) == b.coefficient
  {
    ScalingIsExact(a, b.scale);
    ScalingIsExact(b, b.scale);
    SameScale(b);
  }

  lemma {:induction false} NormalFormsAgree(a: Decimal, b: Decimal)
    requires IsNormal(a) && IsNormal(b) && Real(a) == Real(b) && a.scale <= b.scale
    ensures a == b
  {
    SameNumberSameCoefficient(a, b);
    if a.scale < b.scale {
      ScaledUpIsMultiple(a, b.scale);
    } else {
      SameScale(a);
    }
  }

  lemma {:induction false} ScaledUpIsMultiple(d: Decimal, scale: nat)
    requires d.scale < scale
    ensures ScaleCoefficient(d, scale) % 10 == 0
  {
    assert ScaleCoefficient(d, scale) == 10 * TimesPow10(d.coefficient, scale - d.scale - 1);
  }

  lemma {:induction false} SameScale(d: Decimal)
    ensures ScaleCoefficient(d, d.scale) == d.coefficient
  {
    assert TimesPow10(d.coefficient, 0) == d.coefficient;
  }

  /** A number has one normal form. */
  lemma {:induction false} NormalFormIsUnique(a: Decimal, b: Decimal)
    ensures Real(a) == Real(b) <==> Normalize(a) == Normalize(b)
  {
    NormalizeIsExact(a);
    NormalizeIsExact(b);
    if Real(a) == Real(b) {
      if Normalize(a).scale <= Normalize(b).scale {
        NormalFormsAgree(Normalize(a), Normalize(b));
      } else {
        NormalFormsAgree(Normalize(b), Normalize(a));
      }
    }
  }

  method NormalizeDecimal(d: Decimal) returns (r: Decimal)
    ensures r == Normalize(d)
  {
    var coefficient, scale := d.coefficient, d.scale;
    while scale > 0 && coefficient % 10 == 0
      invariant scale >= 0
      invariant Normalize(Decimal(coefficient, scale)) == Normalize(d)
    {
      coefficient := coefficient / 10;
      scale := scale - 1;
    }
    r := Decimal(coefficient, scale);
  }

  // ----- digits

  predicate IsDigit(c: char) {
    '0' <= c <= '9'
  }

  ghost predicate AllDigits(s: string) {
    forall i :: 0 <= i < |s| ==> IsDigit(s[i])
  }

  function DigitValue(c: char): int {
    c as int - '0' as int
  }

  function DigitsValue(s: string): int {
    if s == [] then 0 else 10 * DigitsValue(s[..|s| - 1]) + DigitValue(s[|s| - 1])
  }

  function DigitRun(s: string): (n: nat)
    ensures n <= |s|
    ensures forall i :: 0 <= i < n ==> IsDigit(s[i])
    ensures n < |s| ==> !IsDigit(s[n])
  {
    if s != [] && IsDigit(s[0]) then 1 + DigitRun(s[1..]) else 0
  }

  lemma {:induction false} DigitRunStops(digits: string, tail: string)
    requires AllDigits(digits) && (tail == [] || !IsDigit(tail[0]))
    ensures DigitRun(digits + tail) == |digits|
  {
    if digits == [] {
      assert digits + tail == tail;
    } else {
      assert (digits + tail)[1..] == digits[1..] + tail;
      DigitRunStops(digits[1..], tail);
    }
  }

  function ToDigits(n: nat): (s: string)
    ensures s != []
  {
    var digit := ('0' as int + n % 10) as char;
    if n < 10 then [digit] else ToDigits(n / 10) + [digit]
  }

  lemma {:induction false} ToDigitsReadBack(n: nat)
    ensures AllDigits(ToDigits(n)) && DigitsValue(ToDigits(n)) == n
  {
    var digit := ('0' as int + n % 10) as char;
    assert DigitValue(digit) == n % 10;
    if n < 10 {
      assert [digit][..0] == [];
      assert DigitsValue([]) == 0;
    } else {
      ToDigitsReadBack(n / 10);
      assert (ToDigits(n / 10) + [digit])[..|ToDigits(n / 10)|] == ToDigits(n / 10);
    }
  }

  function Zeros(n: nat): (s: string)
    ensures |s| == n
  {
    if n == 0 then [] else Zeros(n - 1) + "0"
  }

  /** Digits with zeros before them until they have the width. */
  function PadStart(digits: string, width: nat): (s: string)
    ensures |s| >= width
  {
    if |digits| >= width then digits else Zeros(width - |digits|) + digits
  }

  lemma {:induction false} ZerosAreZero(n: nat)
    ensures AllDigits(Zeros(n)) && DigitsValue(Zeros(n)) == 0
  {
    if n > 0 {
      ZerosAreZero(n - 1);
      assert (Zeros(n - 1) + "0")[..n - 1] == Zeros(n - 1);
    }
  }

  lemma {:induction false} LeadingZerosAddNothing(zeros: string, digits: string)
    requires DigitsValue(zeros) == 0
    ensures DigitsValue(zeros + digits) == DigitsValue(digits)
    decreases |digits|
  {
    if digits == [] {
      assert zeros + digits == zeros;
    } else {
      assert (zeros + digits)[..|zeros + digits| - 1] == zeros + digits[..|digits| - 1];
      LeadingZerosAddNothing(zeros, digits[..|digits| - 1]);
    }
  }

  lemma {:induction false} PaddingAddsNothing(digits: string, width: nat)
    requires AllDigits(digits)
    ensures AllDigits(PadStart(digits, width)) && DigitsValue(PadStart(digits, width)) == DigitsValue(digits)
  {
    if |digits| < width {
      ZerosAreZero(width - |digits|);
      LeadingZerosAddNothing(Zeros(width - |digits|), digits);
    }
  }
}
