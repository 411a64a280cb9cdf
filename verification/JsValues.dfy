/**
 * The JavaScript numbers and strings the compiler works with: binary64 bit patterns and
 * sequences of UTF-16 code units.
 */
module JsValues {
  import opened Lexicographic
  import opened Outcomes

  type CodeUnit = u: nat | u < 0x1_0000

  type JsString = seq<CodeUnit>

  /** The code units of an ASCII text. */
  function Text(ascii: string): JsString {
    seq(|ascii|, i requires 0 <= i < |ascii| => ascii[i] as int % 128)
  }

  /** Order of strings by code units. */
  predicate UnitsLess(left: JsString, right: JsString) {
    if left == [] then right != []
    else if right == [] then false
    else if left[0] != right[0] then left[0] < right[0]
    else UnitsLess(left[1..], right[1..])
  }

  lemma {:induction false} UnitsLessIsLexicographic(left: JsString, right: JsString)
    ensures UnitsLess(left, right) <==> LexLess(left, right)
  {
    LexLessStep(left, right);
    if left != [] && right != [] && left[0] == right[0] {
      UnitsLessIsLexicographic(left[1..], right[1..]);
    }
  }

  const SIGN := 0x8000_0000_0000_0000

  /** A binary64 number by its 64 bits: sign, 11 exponent bits, 52 fraction bits. */
  type Number = n: nat | n < 0x1_0000_0000_0000_0000

  const ZERO: Number := 0
  const NEGATIVE_ZERO: Number := SIGN
  const ONE: Number := 0x3FF0_0000_0000_0000

  function Magnitude(n: Number): nat {
    n % SIGN
  }

  predicate IsFinite(n: Number) {
    Magnitude(n) < 0x7FF0_0000_0000_0000
  }

  predicate IsNaN(n: Number) {
    Magnitude(n) > 0x7FF0_0000_0000_0000
  }

  predicate IsZero(n: Number) {
    Magnitude(n) == 0
  }

  function Negate(n: Number): Number {
    if n < SIGN then n + SIGN else n - SIGN
  }

  /** Position on the number line; both zeros share one. */
  function LineKey(n: Number): int {
    if n < SIGN then n else -(n - SIGN)
  }

  /** Strict equality of numbers: NaN equals nothing, and the zeros equal each other. */
  predicate NumberEquals(a: Number, b: Number) {
    !IsNaN(a) && !IsNaN(b) && LineKey(a) == LineKey(b)
  }

  predicate NumberLess(a: Number, b: Number) {
    !IsNaN(a) && !IsNaN(b) && LineKey(a) < LineKey(b)
  }

  // ----- what the bits stand for

  const FRACTIONS := 0x10_0000_0000_0000
  const SPECIAL_EXPONENT := 0x7FF

  /** The exponent field tells finite numbers from the others, and the fraction field infinities from NaN. */
  lemma {:induction false} KindsOfNumbers(n: Number)
    ensures var exponent, fraction := Magnitude(n) / FRACTIONS, Magnitude(n) % FRACTIONS;
            && (IsFinite(n) <==> exponent < SPECIAL_EXPONENT)
            && (IsNaN(n) <==> exponent == SPECIAL_EXPONENT && fraction != 0)
            && (IsZero(n) <==> exponent == 0 && fraction == 0)
  {
  }

  ghost function Pow2(n: nat): (r: nat)
    ensures r > 0
  {
    if n == 0 then 1 else 2 * Pow2(n - 1)
  }

  /** The absolute value of a finite number in units of its least positive one: fraction and exponent spelled out. */
  ghost function Units(magnitude: nat): nat {
    var exponent, fraction := magnitude / FRACTIONS, magnitude % FRACTIONS;
    if exponent == 0 then fraction else (FRACTIONS + fraction) * Pow2(exponent - 1)
  }

  /** The value of a finite number in those units. */
  ghost function Amount(n: Number): int {
    var units: int := Units(Magnitude(n));
    if n < SIGN then units else -units
  }

  lemma {:induction false} NextIsMoreUnits(magnitude: nat)
    ensures Units(magnitude) < Units(magnitude + 1)
  {
    var exponent, fraction := magnitude / FRACTIONS, magnitude % FRACTIONS;
    if fraction + 1 < FRACTIONS {
      assert (magnitude + 1) / FRACTIONS == exponent && (magnitude + 1) % FRACTIONS == fraction + 1;
      if exponent > 0 {
        var scale := Pow2(exponent - 1);
        assert (FRACTIONS + (fraction + 1)) * scale == (FRACTIONS + fraction) * scale + scale;
      }
    } else {
      assert (magnitude + 1) / FRACTIONS == exponent + 1 && (magnitude + 1) % FRACTIONS == 0;
      if exponent > 0 {
        var scale := Pow2(exponent - 1);
        assert Pow2(exponent) == 2 * scale;
        assert (FRACTIONS + fraction) * scale == (2 * FRACTIONS) * scale - scale;
        assert FRACTIONS * (2 * scale) == (2 * FRACTIONS) * scale;
      }
    }
  }

  lemma {:induction false} MoreBitsMoreUnits(a: nat, b: nat)
    requires a < b
    ensures Units(a) < Units(b)
    decreases b
  {
    NextIsMoreUnits(b - 1);
    if a < b - 1 {
      MoreBitsMoreUnits(a, b - 1);
    }
  }

  /** Comparing finite numbers by their bits is comparing their values. */
  lemma {:induction false} ComparisonIsNumeric(a: Number, b: Number)
    requires IsFinite(a) && IsFinite(b)
    ensures NumberLess(a, b) <==> Amount(a) < Amount(b)
    ensures NumberEquals(a, b) <==> Amount(a) == Amount(b)
  {
    var x, y := Magnitude(a), Magnitude(b);
    MagnitudesCompare(x, y);
    SignedCompare(a, b, Units(x), Units(y));
  }

  lemma {:induction false} SignedCompare(a: Number, b: Number, x: int, y: int)
    requires x >= 0 && y >= 0 && (x == 0 <==> Magnitude(a) == 0) && (y == 0 <==> Magnitude(b) == 0)
    requires (x < y <==> Magnitude(a) < Magnitude(b)) && (x == y <==> Magnitude(a) == Magnitude(b))
    ensures LineKey(a) < LineKey(b) <==> (if a < SIGN then x else -x) < (if b < SIGN then y else -y)
    ensures LineKey(a) == LineKey(b) <==> (if a < SIGN then x else -x) == (if b < SIGN then y else -y)
  {
  }

  lemma {:induction false} MagnitudesCompare(x: nat, y: nat)
    ensures Units(x) < Units(y) <==> x < y
    ensures Units(x) == Units(y) <==> x == y
    ensures (Units(x) == 0 <==> x == 0) && (Units(y) == 0 <==> y == 0)
  {
    if x < y {
      MoreBitsMoreUnits(x, y);
    } else if y < x {
      MoreBitsMoreUnits(y, x);
    }
    ZeroHasNoUnits(x);
    ZeroHasNoUnits(y);
  }

  /** Negating changes the sign of the value and nothing else. */
  lemma {:induction false} NegationIsNumeric(n: Number)
    ensures Amount(Negate(n)) == -Amount(n) && Magnitude(Negate(n)) == Magnitude(n)
  {
  }

  lemma {:induction false} ZeroHasNoUnits(magnitude: nat)
    ensures Units(magnitude) == 0 <==> magnitude == 0
  {
    if magnitude > 0 {
      MoreBitsMoreUnits(0, magnitude);
    }
  }

  /** Only the two zeros are equal without having the same bits. */
  lemma {:induction false} EqualNumbersShareBits(a: Number, b: Number)
    requires NumberEquals(a, b)
    ensures a == b || (IsZero(a) && IsZero(b))
  {
  }

  /** Rounded arithmetic and number conversions, left open. */
  datatype Arithmetic = Arithmetic(
    add: (Number, Number) -> Number,
    subtract: (Number, Number) -> Number,
    multiply: (Number, Number) -> Number,
    divide: (Number, Number) -> Number,
    remainder: (Number, Number) -> Number,
    power: (Number, Number) -> Number,
    ofLength: nat -> Number,
    toIndex: Number -> Option<nat>,
    toKey: Number -> JsString)

  /** Lengths are finite numbers, and equal numbers read the same element. */
  ghost predicate Lawful(ops: Arithmetic) {
    && (forall length :: IsFinite(ops.ofLength(length)))
    && (forall a, b :: NumberEquals(a, b) ==> ops.toIndex(a) == ops.toIndex(b) && ops.toKey(a) == ops.toKey(b))
  }
}
