/**
 * Bounded numeric supports: the arithmetic progression from a minimum to a maximum by a step, as
 * exact decimals that also stay apart as numbers.
 */
module DecimalGrids {
  import opened Decimals
  import opened DecimalText
  import opened JsValues
  import opened Outcomes

  const MAX_BOUNDED_SUPPORT := 100_000

  datatype Grid = Grid(minimum: string, maximum: string, step: string, support: seq<string>)

  datatype GridError =
    | MinimumNotLess
    | StepNotPositive
    | BoundsNotIntegers
    | NotDivisible
    | TooManyValues
    | NotFinite(value: string)
    | Collides(value: string)

  function Max(a: nat, b: nat): nat {
    if a < b then b else a
  }

  function CommonScale(minimum: Decimal, maximum: Decimal, step: Decimal): nat {
    Max(Max(minimum.scale, maximum.scale), step.scale)
  }

  /** Sign of the difference, found at a scale both fit. */
  function CompareDecimals(left: Decimal, right: Decimal): (order: int) {
    var scale := Max(left.scale, right.scale);
    var l, r := ScaleCoefficient(left, scale), ScaleCoefficient(right, scale);
    if l < r then -1 else if l > r then 1 else 0
  }

  lemma {:induction false} ScaledOrder(a: Decimal, b: Decimal, scale: nat)
    requires a.scale <= scale && b.scale <= scale
    ensures ScaleCoefficient(a, scale) < ScaleCoefficient(b, scale) <==> Real(a) < Real(b)
  {
    ScalingIsExact(a, scale);
    ScalingIsExact(b, scale);
    ShiftKeepsOrder(Real(a), Real(b), scale);
  }

  /** Comparison agrees with the order of the numbers. */
  lemma {:induction false} ComparisonIsExact(a: Decimal, b: Decimal)
    ensures CompareDecimals(a, b) < 0 <==> Real(a) < Real(b)
    ensures CompareDecimals(a, b) == 0 <==> Real(a) == Real(b)
    ensures CompareDecimals(a, b) > 0 <==> Real(a) > Real(b)
  {
    var scale := Max(a.scale, b.scale);
    ScaledOrder(a, b, scale);
    ScaledOrder(b, a, scale);
  }

  lemma {:induction false} StepSign(step: Decimal)
    ensures step.coefficient > 0 <==> Real(step) > 0.0
  {
    ShiftKeepsOrder(0.0, step.coefficient as real, -(step.scale as int));
    ShiftOfZero(-(step.scale as int));
  }

  // ----- the progression

  /** The number after i steps from the minimum. */
  function At(minimum: real, step: real, i: nat): real {
    if i == 0 then minimum else At(minimum, step, i - 1) + step
  }

  lemma {:induction false} ProgressionGrows(minimum: real, step: real, i: nat, j: nat)
    requires step > 0.0 && i < j
    ensures At(minimum, step, i) < At(minimum, step, j)
  {
    if i < j - 1 { ProgressionGrows(minimum, step, i, j - 1); }
  }

  /** An integer plus i times a step, one step at a time. */
  function Stepped(start: int, step: int, i: nat): int {
    if i == 0 then start else Stepped(start, step, i - 1) + step
  }

  /** That is the sum with the product. */
  lemma {:induction false} SteppedIsProduct(start: int, step: int, i: nat)
    ensures Stepped(start, step, i) == start + i * step
  {
    if i > 0 {
      SteppedIsProduct(start, step, i - 1);
      OneMoreStep(start, i, step);
    }
  }

  lemma {:induction false} OneMoreStep(a: int, i: nat, s: int)
    requires i > 0
    ensures a + i * s == a + (i - 1) * s + s
  {
  }

  /** The i-th support value, as computed at a common scale. */
  function Nth(minimum: Decimal, step: Decimal, scale: nat, i: nat): Decimal
    requires minimum.scale <= scale && step.scale <= scale
  {
    Decimal(Stepped(ScaleCoefficient(minimum, scale), ScaleCoefficient(step, scale), i), scale)
  }

  lemma {:induction false} NthScaled(minimum: Decimal, step: Decimal, scale: nat, i: nat)
    requires minimum.scale <= scale && step.scale <= scale
    ensures Nth(minimum, step, scale, i).coefficient as real == Shift(At(Real(minimum), Real(step), i), scale)
  {
    if i == 0 {
      ScalingIsExact(minimum, scale);
    } else {
      NthScaled(minimum, step, scale, i - 1);
      ScalingIsExact(step, scale);
      ShiftOfSum(At(Real(minimum), Real(step), i - 1), Real(step), scale);
    }
  }

  /** It is exactly that number of the progression. */
  lemma {:induction false} NthIsExact(minimum: Decimal, step: Decimal, scale: nat, i: nat)
    requires minimum.scale <= scale && step.scale <= scale
    ensures Real(Nth(minimum, step, scale, i)) == At(Real(minimum), Real(step), i)
  {
    NthScaled(minimum, step, scale, i);
    ShiftsBack(At(Real(minimum), Real(step), i), scale);
  }

  // ----- building

  /** n steps lead from the minimum to the maximum. */
  ghost predicate LandsOn(minimum: Decimal, maximum: Decimal, step: Decimal, n: nat) {
    At(Real(minimum), Real(step), n) == Real(maximum)
  }

  /** The bounds and the step make a progression of n + 1 numbers, within the limit. */
  ghost predicate Fits(minimum: Decimal, maximum: Decimal, step: Decimal, requireIntegers: bool, n: nat) {
    && Real(minimum) < Real(maximum) && Real(step) > 0.0
    && (requireIntegers ==> minimum.scale == 0 && maximum.scale == 0)
    && LandsOn(minimum, maximum, step, n)
    && n + 1 <= MAX_BOUNDED_SUPPORT
  }

  /** The canonical texts of the first n values. */
  function Entries(minimum: Decimal, step: Decimal, scale: nat, n: nat): seq<string>
    requires minimum.scale <= scale && step.scale <= scale
  {
    seq(n, i requires 0 <= i < n => FormatDecimal(Nth(minimum, step, scale, i)))
  }

  /** The texts convert to finite numbers that differ from each other. */
  ghost predicate Apart(texts: seq<string>, number: string -> Number) {
    && (forall i :: 0 <= i < |texts| ==> IsFinite(number(texts[i])))
    && (forall i, j :: 0 <= i < j < |texts| ==> !NumberEquals(number(texts[i]), number(texts[j])))
  }

  lemma {:induction false} MultiplesAreFar(b: int, k: int)
    requires b > 0
    ensures k >= 1 ==> b * k >= b
    ensures k <= -1 ==> b * k <= -b
  {
  }

  lemma {:induction false} SmallMultiple(b: int, k: int, r: int)
    requires 0 <= r < b && b * k == r
    ensures k == 0
  {
    MultiplesAreFar(b, k);
  }

  lemma {:induction false} Quotient(b: int, d: int, n: int)
    requires b > 0 && d == n * b
    ensures d % b == 0 && d / b == n
  {
    var q, r := d / b, d % b;
    assert d == b * q + r;
    assert b * (n - q) == r;
    SmallMultiple(b, n - q, r);
  }

  lemma {:induction false} WholeQuotient(b: int, d: int)
    requires b > 0 && d >= 0 && d % b == 0
    ensures d == (d / b) * b && d / b >= 0
  {
  }

  /** The integer test for a whole number of steps is the test on the exact numbers. */
  lemma {:induction false} DivisionIsExact(minimum: Decimal, maximum: Decimal, step: Decimal, n: nat)
    requires step.coefficient > 0
    ensures var scale := CommonScale(minimum, maximum, step);
            ScaleCoefficient(maximum, scale) - ScaleCoefficient(minimum, scale) ==
              n * ScaleCoefficient(step, scale) <==>
            At(Real(minimum), Real(step), n) == Real(maximum)
  {
    var scale := CommonScale(minimum, maximum, step);
    NthScaled(minimum, step, scale, n);
    SteppedIsProduct(ScaleCoefficient(minimum, scale), ScaleCoefficient(step, scale), n);
    ScalingIsExact(maximum, scale);
    if Shift(At(Real(minimum), Real(step), n), scale) == Shift(Real(maximum), scale) {
      ShiftsBack(At(Real(minimum), Real(step), n), scale);
      ShiftsBack(Real(maximum), scale);
    }
  }

  lemma {:induction false} PositiveScaledStep(step: Decimal, scale: nat)
    requires step.scale <= scale && step.coefficient > 0
    ensures ScaleCoefficient(step, scale) > 0
  {
    PositiveTimesPow10(step.coefficient, scale - step.scale);
  }

  lemma {:induction false} PositiveTimesPow10(n: int, k: nat)
    requires n > 0
    ensures TimesPow10(n, k) > 0
  {
    if k > 0 { PositiveTimesPow10(n, k - 1); }
  }

  /** The interval count by division, if the difference is a whole number of steps. */
  function WholeSteps(minimum: Decimal, maximum: Decimal, step: Decimal): Option<int>
    requires step.coefficient > 0
  {
    var scale := CommonScale(minimum, maximum, step);
    PositiveScaledStep(step, scale);
    var difference := ScaleCoefficient(maximum, scale) - ScaleCoefficient(minimum, scale);
    if difference % ScaleCoefficient(step, scale) != 0 then None else Some(difference / ScaleCoefficient(step, scale))
  }

  lemma {:induction false} WholeStepsAreExact(minimum: Decimal, maximum: Decimal, step: Decimal)
    requires step.coefficient > 0 && Real(minimum) < Real(maximum)
    ensures var steps := WholeSteps(minimum, maximum, step);
            && (steps.Some? ==> steps.value >= 0 && LandsOn(minimum, maximum, step, steps.value))
            && forall n: nat :: LandsOn(minimum, maximum, step, n) ==> steps == Some(n)
  {
    var scale := CommonScale(minimum, maximum, step);
    var stepInteger := ScaleCoefficient(step, scale);
    var difference := ScaleCoefficient(maximum, scale) - ScaleCoefficient(minimum, scale);
    PositiveScaledStep(step, scale);
    ScaledOrder(minimum, maximum, scale);
    if difference % stepInteger == 0 {
      WholeQuotient(stepInteger, difference);
      DivisionIsExact(minimum, maximum, step, difference / stepInteger);
    }
    forall n: nat | LandsOn(minimum, maximum, step, n)
      ensures WholeSteps(minimum, maximum, step) == Some(n)
    {
      DivisionIsExact(minimum, maximum, step, n);
      Quotient(stepInteger, difference, n);
    }
  }

  ghost predicate BoundsAreFine(minimum: Decimal, maximum: Decimal, step: Decimal, requireIntegers: bool) {
    Real(minimum) < Real(maximum) && Real(step) > 0.0 && (requireIntegers ==> minimum.scale == 0 && maximum.scale == 0)
  }

  /** The first text that spoils the list, after texts that are apart. */
  ghost predicate FirstBad(texts: seq<string>, i: nat, value: string, number: string -> Number) {
    i < |texts| && texts[i] == value && Apart(texts[..i], number) && !Apart(texts[..i + 1], number)
  }

  ghost predicate Reports(error: GridError, texts: seq<string>, number: string -> Number) {
    && (error.NotFinite? || error.Collides?)
    && (error.NotFinite? <==> !IsFinite(number(error.value)))
    && exists i: nat :: FirstBad(texts, i, error.value, number)
  }

  /** Each error names the first condition that fails; no two of these hold at once. */
  ghost predicate Explains(error: GridError, minimum: Decimal, maximum: Decimal, step: Decimal, requireIntegers: bool,
      number: string -> Number)
  {
    match error
    case MinimumNotLess => Real(minimum) >= Real(maximum)
    case StepNotPositive => Real(minimum) < Real(maximum) && Real(step) <= 0.0
    case BoundsNotIntegers =>
      Real(minimum) < Real(maximum) && Real(step) > 0.0 && !BoundsAreFine(minimum, maximum, step, requireIntegers)
    case NotDivisible =>
      BoundsAreFine(minimum, maximum, step, requireIntegers) && forall n: nat :: !LandsOn(minimum, maximum, step, n)
    case TooManyValues =>
      && BoundsAreFine(minimum, maximum, step, requireIntegers)
      && exists n: nat :: n + 1 > MAX_BOUNDED_SUPPORT && LandsOn(minimum, maximum, step, n)
    case _ =>
      exists n: nat ::
        Fits(minimum, maximum, step, requireIntegers, n)
        && Reports(error, Entries(minimum, step, CommonScale(minimum, maximum, step), n + 1), number)
  }

  /** Checks the bounds; gives the number of intervals. */
  method CountIntervals(minimum: Decimal, maximum: Decimal, step: Decimal, requireIntegers: bool)
    returns (r: Result<nat, GridError>)
    ensures r.Ok? ==> Fits(minimum, maximum, step, requireIntegers, r.value)
    ensures r.Err? ==> forall n: nat :: !Fits(minimum, maximum, step, requireIntegers, n)
    ensures r.Err? ==>
            !r.error.NotFinite? && !r.error.Collides?
            && forall number :: Explains(r.error, minimum, maximum, step, requireIntegers, number)
  {
    ComparisonIsExact(minimum, maximum);
    StepSign(step);
    if CompareDecimals(minimum, maximum) >= 0 {
      return Err(MinimumNotLess);
    }
    if step.coefficient <= 0 {
      return Err(StepNotPositive);
    }
    if requireIntegers && (minimum.scale != 0 || maximum.scale != 0) {
      return Err(BoundsNotIntegers);
    }
    WholeStepsAreExact(minimum, maximum, step);
    var intervalCount := WholeSteps(minimum, maximum, step);
    if intervalCount.None? {
      return Err(NotDivisible);
    }
    if intervalCount.value + 1 > MAX_BOUNDED_SUPPORT {
      return Err(TooManyValues);
    }
    r := Ok(intervalCount.value);
  }

  /** The numbers of the texts so far, where the two zeros count as one. */
  ghost predicate SeenAre(seen: set<int>, texts: seq<string>, number: string -> Number) {
    forall key :: key in seen <==> exists i :: 0 <= i < |texts| && LineKey(number(texts[i])) == key
  }

  lemma {:induction false} OneMoreApart(texts: seq<string>, text: string, number: string -> Number, seen: set<int>)
    requires Apart(texts, number) && SeenAre(seen, texts, number) && IsFinite(number(text))
    ensures LineKey(number(text)) !in seen <==> Apart(texts + [text], number)
    ensures SeenAre(seen + {LineKey(number(text))}, texts + [text], number)
  {
    var more := texts + [text];
    assert more[|texts|] == text && forall i :: 0 <= i < |texts| ==> more[i] == texts[i];
    if LineKey(number(text)) in seen {
      var i :| 0 <= i < |texts| && LineKey(number(texts[i])) == LineKey(number(text));
      assert NumberEquals(number(more[i]), number(more[|texts|]));
    }
  }

  /** A list with a bad text in it is not apart. */
  lemma {:induction false} BadTextSpoils(texts: seq<string>, i: nat, number: string -> Number)
    requires i < |texts| && !Apart(texts[..i + 1], number)
    ensures !Apart(texts, number)
  {
  }

  /** Writes the values out in order, stopping at the first that is not finite or was seen before. */
  method ListSupport(minimum: Decimal, step: Decimal, scale: nat, count: nat, number: string -> Number)
    returns (r: Result<seq<string>, GridError>)
    requires minimum.scale <= scale && step.scale <= scale
    ensures r.Ok? <==> Apart(Entries(minimum, step, scale, count), number)
    ensures r.Ok? ==> r.value == Entries(minimum, step, scale, count)
    ensures r.Err? ==> Reports(r.error, Entries(minimum, step, scale, count), number)
  {
    ghost var entries := Entries(minimum, step, scale, count);
    var support: seq<string> := [];
    var seenNumbers: set<int> := {};
    for index := 0 to count
      invariant support == entries[..index]
      invariant Apart(support, number) && SeenAre(seenNumbers, support, number)
    {
      var canonical := FormatDecimal(Nth(minimum, step, scale, index));
      var numeric := number(canonical);
      assert entries[index] == canonical && entries[..index + 1] == support + [canonical];
      if !IsFinite(numeric) {
        assert (support + [canonical])[index] == canonical;
        BadTextSpoils(entries, index, number);
        assert FirstBad(entries, index, canonical, number);
        return Err(NotFinite(canonical));
      }
      OneMoreApart(support, canonical, number, seenNumbers);
      if LineKey(numeric) in seenNumbers {
        BadTextSpoils(entries, index, number);
        assert FirstBad(entries, index, canonical, number);
        return Err(Collides(canonical));
      }
      seenNumbers := seenNumbers + {LineKey(numeric)};
      support := support + [canonical];
    }
    assert entries[..count] == entries;
    r := Ok(support);
  }

  ghost predicate Possible(minimum: Decimal, maximum: Decimal, step: Decimal, requireIntegers: bool, n: nat,
      number: string -> Number)
  {
    Fits(minimum, maximum, step, requireIntegers, n)
      && Apart(Entries(minimum, step, CommonScale(minimum, maximum, step), n + 1), number)
  }

  lemma {:induction false} OnlyPossibility(minimum: Decimal, maximum: Decimal, step: Decimal, requireIntegers: bool,
      n: nat, number: string -> Number)
    requires Fits(minimum, maximum, step, requireIntegers, n)
    ensures (exists m: nat :: Possible(minimum, maximum, step, requireIntegers, m, number)) <==>
            Apart(Entries(minimum, step, CommonScale(minimum, maximum, step), n + 1), number)
  {
    FitsOnce(minimum, maximum, step, requireIntegers, n);
    assert Apart(Entries(minimum, step, CommonScale(minimum, maximum, step), n + 1), number) ==>
      Possible(minimum, maximum, step, requireIntegers, n, number);
  }

  /**
   * A grid exists exactly when the step leads from the minimum to the maximum within the limit and
   * all values stay finite and apart as numbers; it lists the whole progression in order.
   */
  method BuildDecimalGrid(minimum: Decimal, maximum: Decimal, step: Decimal, requireIntegers: bool,
      number: string -> Number)
    returns (r: Result<Grid, GridError>)
    ensures r.Ok? <==> exists n: nat :: Possible(minimum, maximum, step, requireIntegers, n, number)
    ensures r.Ok? ==> IsGrid(r.value, minimum, maximum, step, number)
    ensures r.Err? ==> Explains(r.error, minimum, maximum, step, requireIntegers, number)
  {
    var intervals := CountIntervals(minimum, maximum, step, requireIntegers);
    if intervals.Err? {
      NothingPossible(minimum, maximum, step, requireIntegers, number);
      return Err(intervals.error);
    }
    var n := intervals.value;
    r := FillGrid(minimum, maximum, step, n, number);
    OnlyPossibility(minimum, maximum, step, requireIntegers, n, number);
    if r.Ok? {
      ListedIsGrid(minimum, maximum, step, requireIntegers, n, number);
    } else {
      ReportExplains(r.error, minimum, maximum, step, requireIntegers, n, number);
    }
  }

  lemma {:induction false} NothingPossible(minimum: Decimal, maximum: Decimal, step: Decimal, requireIntegers: bool,
      number: string -> Number)
    requires forall n: nat :: !Fits(minimum, maximum, step, requireIntegers, n)
    ensures !exists n: nat :: Possible(minimum, maximum, step, requireIntegers, n, number)
  {
  }

  lemma {:induction false} ReportExplains(error: GridError, minimum: Decimal, maximum: Decimal, step: Decimal,
      requireIntegers: bool, n: nat, number: string -> Number)
    requires Fits(minimum, maximum, step, requireIntegers, n)
    requires Reports(error, Entries(minimum, step, CommonScale(minimum, maximum, step), n + 1), number)
    ensures Explains(error, minimum, maximum, step, requireIntegers, number)
  {
  }

  /** The grid of a given number of intervals, unless some value is not finite or collides. */
  method FillGrid(minimum: Decimal, maximum: Decimal, step: Decimal, intervalCount: nat, number: string -> Number)
    returns (r: Result<Grid, GridError>)
    ensures var texts := Entries(minimum, step, CommonScale(minimum, maximum, step), intervalCount + 1);
            && (r.Ok? <==> Apart(texts, number))
            && (r.Ok? ==> r.value == Grid(FormatDecimal(minimum), FormatDecimal(maximum), FormatDecimal(step), texts))
            && (r.Err? ==> Reports(r.error, texts, number))
  {
    var listed := ListSupport(minimum, step, CommonScale(minimum, maximum, step), intervalCount + 1, number);
    if listed.Err? {
      return Err(listed.error);
    }
    r := Ok(Grid(FormatDecimal(minimum), FormatDecimal(maximum), FormatDecimal(step), listed.value));
  }

  lemma {:induction false} FitsOnce(minimum: Decimal, maximum: Decimal, step: Decimal, requireIntegers: bool, n: nat)
    requires Fits(minimum, maximum, step, requireIntegers, n)
    ensures forall m: nat :: Fits(minimum, maximum, step, requireIntegers, m) ==> m == n
  {
    forall m: nat | Fits(minimum, maximum, step, requireIntegers, m)
      ensures m == n
    {
      if m < n { ProgressionGrows(Real(minimum), Real(step), m, n); }
      if n < m { ProgressionGrows(Real(minimum), Real(step), n, m); }
    }
  }

  ghost predicate AreSteps(texts: seq<string>, minimum: Decimal, step: Decimal) {
    forall i: nat :: i < |texts| ==> IsStep(texts, minimum, step, i)
  }

  ghost predicate AllDiffer(texts: seq<string>) {
    forall i, j :: 0 <= i < j < |texts| ==> texts[i] != texts[j]
  }

  /** What a grid is: the canonical texts of the progression's numbers, from the minimum to the maximum. */
  ghost predicate IsGrid(grid: Grid, minimum: Decimal, maximum: Decimal, step: Decimal, number: string -> Number) {
    && 2 <= |grid.support| <= MAX_BOUNDED_SUPPORT
    && AreSteps(grid.support, minimum, step)
    && grid.support[0] == grid.minimum && grid.support[|grid.support| - 1] == grid.maximum
    && grid.minimum == FormatDecimal(minimum) && grid.maximum == FormatDecimal(maximum)
       && grid.step == FormatDecimal(step)
    && AllDiffer(grid.support)
    && Apart(grid.support, number)
  }

  /** The canonical text of a number. */
  ghost predicate IsTextOf(text: string, value: real) {
    exists d :: Real(d) == value && text == FormatDecimal(d)
  }

  /** The i-th text is that of the number i steps from the minimum. */
  ghost predicate IsStep(texts: seq<string>, minimum: Decimal, step: Decimal, i: nat) {
    i < |texts| && IsTextOf(texts[i], At(Real(minimum), Real(step), i))
  }

  lemma {:induction false} EntryIsText(minimum: Decimal, step: Decimal, scale: nat, n: nat, i: nat, d: Decimal)
    requires minimum.scale <= scale && step.scale <= scale && i < n && Real(d) == At(Real(minimum), Real(step), i)
    ensures Entries(minimum, step, scale, n)[i] == FormatDecimal(d)
  {
    NthIsExact(minimum, step, scale, i);
    CanonicalTextIsCanonical(Nth(minimum, step, scale, i), d);
  }

  lemma {:induction false} EntryHasText(minimum: Decimal, step: Decimal, scale: nat, n: nat, i: nat)
    requires minimum.scale <= scale && step.scale <= scale && i < n
    ensures IsStep(Entries(minimum, step, scale, n), minimum, step, i)
  {
    NthIsExact(minimum, step, scale, i);
    assert Entries(minimum, step, scale, n)[i] == FormatDecimal(Nth(minimum, step, scale, i));
  }

  lemma {:induction false} EntriesDiffer(minimum: Decimal, step: Decimal, scale: nat, n: nat, i: nat, j: nat)
    requires minimum.scale <= scale && step.scale <= scale && i < j < n && Real(step) > 0.0
    ensures Entries(minimum, step, scale, n)[i] != Entries(minimum, step, scale, n)[j]
  {
    ProgressionGrows(Real(minimum), Real(step), i, j);
    NthIsExact(minimum, step, scale, i);
    NthIsExact(minimum, step, scale, j);
    CanonicalTextIsCanonical(Nth(minimum, step, scale, i), Nth(minimum, step, scale, j));
  }

  lemma {:induction false} EntriesAreSteps(minimum: Decimal, step: Decimal, scale: nat, n: nat)
    requires minimum.scale <= scale && step.scale <= scale
    ensures AreSteps(Entries(minimum, step, scale, n), minimum, step)
  {
    forall i: nat | i < n
      ensures IsStep(Entries(minimum, step, scale, n), minimum, step, i)
    {
      EntryHasText(minimum, step, scale, n, i);
    }
  }

  lemma {:induction false} EntriesAllDiffer(minimum: Decimal, step: Decimal, scale: nat, n: nat)
    requires minimum.scale <= scale && step.scale <= scale && Real(step) > 0.0
    ensures AllDiffer(Entries(minimum, step, scale, n))
  {
    forall i, j | 0 <= i < j < n
      ensures Entries(minimum, step, scale, n)[i] != Entries(minimum, step, scale, n)[j]
    {
      EntriesDiffer(minimum, step, scale, n, i, j);
    }
  }

  lemma {:induction false} EndsOfEntries(minimum: Decimal, maximum: Decimal, step: Decimal, requireIntegers: bool,
      n: nat)
    requires Fits(minimum, maximum, step, requireIntegers, n)
    ensures var texts := Entries(minimum, step, CommonScale(minimum, maximum, step), n + 1);
            texts[0] == FormatDecimal(minimum) && texts[n] == FormatDecimal(maximum) && 1 <= n < MAX_BOUNDED_SUPPORT
  {
    var scale := CommonScale(minimum, maximum, step);
    EntryIsText(minimum, step, scale, n + 1, 0, minimum);
    EntryIsText(minimum, step, scale, n + 1, n, maximum);
  }

  lemma {:induction false} ListedIsGrid(minimum: Decimal, maximum: Decimal, step: Decimal, requireIntegers: bool,
      n: nat, number: string -> Number)
    requires Fits(minimum, maximum, step, requireIntegers, n)
    requires Apart(Entries(minimum, step, CommonScale(minimum, maximum, step), n + 1), number)
    ensures IsGrid(Grid(FormatDecimal(minimum), FormatDecimal(maximum), FormatDecimal(step),
            Entries(minimum, step, CommonScale(minimum, maximum, step), n + 1)),
                   minimum, maximum, step, number)
  {
    EndsOfEntries(minimum, maximum, step, requireIntegers, n);
    EntriesAreSteps(minimum, step, CommonScale(minimum, maximum, step), n + 1);
    EntriesAllDiffer(minimum, step, CommonScale(minimum, maximum, step), n + 1);
  }

  /**
   * The entries of a grid that are short enough read back as strictly increasing exact numbers, each
   * one step further.
   */
  lemma {:induction false} GridReadsBack(grid: Grid, minimum: Decimal, maximum: Decimal, step: Decimal,
      number: string -> Number, i: nat)
    requires IsGrid(grid, minimum, maximum, step, number) && i < |grid.support|
    requires |grid.support[i]| <= MAX_DECIMAL_DIGITS
    ensures ParseDecimalLexeme(grid.support[i]).Some?
    ensures Real(ParseDecimalLexeme(grid.support[i]).value) == At(Real(minimum), Real(step), i)
  {
    assert IsStep(grid.support, minimum, step, i);
    var d :| Real(d) == At(Real(minimum), Real(step), i) && grid.support[i] == FormatDecimal(d);
    CanonicalTextReadsBack(d);
    NormalizeIsExact(d);
  }
}
