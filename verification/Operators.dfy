/**
 * What each operator and each access of the predicate language means, for the evaluator and for the
 * constant folder, in terms of truth tables, lexicographic order and numeric values.
 */
module Operators {
  import opened JsValues
  import opened Lexicographic
  import opened Outcomes
  import opened Predicates

  // ----- the evaluator

  /** Two values are the same: numbers by value, strings by their units, arrays and objects by identity. */
  ghost predicate Same(x: Value, y: Value) {
    || (x.Undefined? && y.Undefined?)
    || (x.Null? && y.Null?)
    || (x.Bool? && y.Bool? && x.b == y.b)
    || (x.Str? && y.Str? && x.s == y.s)
    || (x.Num? && y.Num? && Amount(x.n) == Amount(y.n))
    || (x.Arr? && y.Arr? && x.identity == y.identity)
    || (x.Obj? && y.Obj? && x.identity == y.identity)
  }

  ghost predicate HasValues(ops: Arithmetic, left: Predicate, right: Predicate, inputs: map<JsString, Value>,
      depth: nat, x: Value, y: Value)
  {
    depth <= MAXIMUM_DEPTH && Evaluate(ops, left, inputs, depth + 1) == Ok(x)
      && Evaluate(ops, right, inputs, depth + 1) == Ok(y)
  }

  predicate BothFinite(x: Value, y: Value) {
    x.Num? && y.Num? && IsFinite(x.n) && IsFinite(y.n)
  }

  /** `===` is sameness and `!==` its negation; only two numbers that are not both finite are an error. */
  lemma {:induction false} EqualityMeans(ops: Arithmetic, left: Predicate, right: Predicate,
      inputs: map<JsString, Value>, depth: nat, x: Value, y: Value)
    requires HasValues(ops, left, right, inputs, depth, x, y)
    ensures var equal := Evaluate(ops, Binary(Equal, left, right), inputs, depth);
            var different := Evaluate(ops, Binary(NotEqual, left, right), inputs, depth);
            if x.Num? && y.Num? && !BothFinite(x, y) then equal == Err(NotANumber) && different == Err(NotANumber)
            else equal == Ok(Bool(Same(x, y))) && different == Ok(Bool(!Same(x, y)))
  {
    if BothFinite(x, y) {
      ComparisonIsNumeric(x.n, y.n);
    }
  }

  /** The first value comes before the second: strings by code units, numbers by value. */
  ghost predicate Precedes(x: Value, y: Value) {
    (x.Str? && y.Str? && LexLess(x.s, y.s)) || (x.Num? && y.Num? && Amount(x.n) < Amount(y.n))
  }

  predicate Comparable(x: Value, y: Value) {
    (x.Str? && y.Str?) || BothFinite(x, y)
  }

  /** What an ordering operator says of two comparable values. */
  ghost predicate Holds(op: BinaryOperator, x: Value, y: Value) {
    match op
    case Less => Precedes(x, y)
    case LessEqual => !Precedes(y, x)
    case Greater => Precedes(y, x)
    case _ => !Precedes(x, y)
  }

  lemma {:induction false} ComparisonMeans(op: BinaryOperator, x: Value, y: Value)
    requires IsOrdering(op)
    ensures Comparable(x, y) ==> OrderedCompare(op, x, y) == Ok(Bool(Holds(op, x, y)))
    ensures !Comparable(x, y) ==>
            OrderedCompare(op, x, y) == Err(if x.Num? && y.Num? then NotANumber else NotComparable)
  {
    if x.Str? && y.Str? {
      UnitsLessIsLexicographic(x.s, y.s);
      UnitsLessIsLexicographic(y.s, x.s);
      UnitsLessIsAntisymmetric(x.s, y.s);
    } else if BothFinite(x, y) {
      ComparisonIsNumeric(x.n, y.n);
      ComparisonIsNumeric(y.n, x.n);
    }
  }

  /** An ordering operator compares two strings or two finite numbers, and nothing else. */
  lemma {:induction false} OrderMeans(ops: Arithmetic, op: BinaryOperator, left: Predicate, right: Predicate,
      inputs: map<JsString, Value>, depth: nat, x: Value, y: Value)
    requires IsOrdering(op) && HasValues(ops, left, right, inputs, depth, x, y)
    ensures var result := Evaluate(ops, Binary(op, left, right), inputs, depth);
            if Comparable(x, y) then result == Ok(Bool(Holds(op, x, y)))
            else result == Err(if x.Num? && y.Num? then NotANumber else NotComparable)
  {
    ComparisonMeans(op, x, y);
  }

  /** Strings are totally ordered, numbers too. */
  lemma {:induction false} PrecedenceIsTotal(x: Value, y: Value)
    requires Comparable(x, y)
    ensures !(Precedes(x, y) && Precedes(y, x)) && (Precedes(x, y) || Precedes(y, x) || Same(x, y))
    ensures Same(x, y) ==> !Precedes(x, y)
  {
    if x.Str? {
      UnitsLessIsLexicographic(x.s, y.s);
      UnitsLessIsLexicographic(y.s, x.s);
      UnitsLessIsAntisymmetric(x.s, y.s);
    }
  }

  /** `&&` and `||` by their truth tables, with the left operand alone where it settles the result. */
  lemma {:induction false} LogicMeans(ops: Arithmetic, left: Predicate, right: Predicate, inputs: map<JsString, Value>,
      depth: nat, a: bool)
    requires depth <= MAXIMUM_DEPTH && Evaluate(ops, left, inputs, depth + 1) == Ok(Bool(a))
    ensures var second := Evaluate(ops, right, inputs, depth + 1);
            var both := Evaluate(ops, Binary(And, left, right), inputs, depth);
            var either := Evaluate(ops, Binary(Or, left, right), inputs, depth);
            && (!a ==> both == Ok(Bool(false)))
            && (a ==> either == Ok(Bool(true)))
            && (second.Ok? && second.value.Bool? ==>
                 both == Ok(Bool(a && second.value.b)) && either == Ok(Bool(a || second.value.b)))
            && (second.Ok? && !second.value.Bool? ==>
                 (a ==> both == Err(NotABoolean)) && (!a ==> either == Err(NotABoolean)))
            && (second.Err? ==> (a ==> both == second) && (!a ==> either == second))
  {
  }

  /** `!` negates a boolean; `+` and `-` keep and negate the value of a finite number; all else is an error. */
  lemma {:induction false} UnaryMeans(ops: Arithmetic, operand: Predicate, inputs: map<JsString, Value>, depth: nat,
      x: Value)
    requires depth <= MAXIMUM_DEPTH && Evaluate(ops, operand, inputs, depth + 1) == Ok(x)
    ensures var negation := Evaluate(ops, Unary(Not, operand), inputs, depth);
            negation == if x.Bool? then Ok(Bool(!x.b)) else Err(NotABoolean)
    ensures var plus := Evaluate(ops, Unary(Plus, operand), inputs, depth);
            plus == if x.Num? && IsFinite(x.n) then Ok(x) else Err(NotANumber)
    ensures var minus := Evaluate(ops, Unary(Minus, operand), inputs, depth);
            if x.Num? && IsFinite(x.n) then minus.Ok? && minus.value.Num? && Amount(minus.value.n) == -Amount(x.n)
            else minus == Err(NotANumber)
  {
    if x.Num? {
      NegationIsNumeric(x.n);
    }
  }

  /** The result of an operation on two finite numbers. */
  function Finite(n: Number): Evaluation {
    if IsFinite(n) then Ok(Num(n)) else Err(NonFinite)
  }

  /** Each arithmetic operator is its operation on finite numbers; dividing by a zero is an error before that. */
  lemma {:induction false} ArithmeticMeans(ops: Arithmetic, left: Predicate, right: Predicate,
      inputs: map<JsString, Value>, depth: nat, x: Value, y: Value)
    requires HasValues(ops, left, right, inputs, depth, x, y)
    ensures BothFinite(x, y) ==>
              && Evaluate(ops, Binary(Add, left, right), inputs, depth) == Finite(ops.add(x.n, y.n))
              && Evaluate(ops, Binary(Subtract, left, right), inputs, depth) == Finite(ops.subtract(x.n, y.n))
              && Evaluate(ops, Binary(Multiply, left, right), inputs, depth) == Finite(ops.multiply(x.n, y.n))
              && Evaluate(ops, Binary(Power, left, right), inputs, depth) == Finite(ops.power(x.n, y.n))
    ensures BothFinite(x, y) ==>
              && Evaluate(ops, Binary(Divide, left, right), inputs, depth) ==
                 (if Amount(y.n) == 0 then Err(NonFinite) else Finite(ops.divide(x.n, y.n)))
              && Evaluate(ops, Binary(Remainder, left, right), inputs, depth) ==
                 (if Amount(y.n) == 0 then Err(NonFinite) else Finite(ops.remainder(x.n, y.n)))
    ensures !BothFinite(x, y) ==>
              forall op :: IsArithmetic(op) ==> Evaluate(ops, Binary(op, left, right), inputs, depth) == Err(NotANumber)
  {
    if BothFinite(x, y) {
      ZeroHasNoUnits(Magnitude(y.n));
    }
  }

  /** Literals and inputs, and when a predicate is active, inactive, or an error, for a call. */
  lemma {:induction false} LeavesMean(ops: Arithmetic, v: Scalar, name: JsString, inputs: map<JsString, Value>,
      depth: nat)
    requires depth <= MAXIMUM_DEPTH
    ensures var literal := Evaluate(ops, Literal(v), inputs, depth);
            literal.Ok? && match v
                           case NullScalar => literal.value == Null
                           case BoolScalar(b) => literal.value == Bool(b)
                           case NumberScalar(n) => literal.value == Num(n)
                           case StringScalar(s) => literal.value == Str(s)
    ensures Evaluate(ops, Input(name), inputs, depth) == if name in inputs then Ok(inputs[name]) else Err(MissingInput)
    ensures Fold(ops, Literal(v)) == Known(v) && Fold(ops, Input(name)).Unknown?
  {
  }

  lemma {:induction false} ActivityMeans(ops: Arithmetic, p: Predicate, inputs: map<JsString, Value>, b: bool)
    ensures EvaluatePredicate(ops, p, inputs) == Ok(b) <==> Evaluate(ops, p, inputs, 1) == Ok(Bool(b))
    ensures forall error :: error != NotABoolean ==>
              (EvaluatePredicate(ops, p, inputs) == Err(error) <==> Evaluate(ops, p, inputs, 1) == Err(error))
  {
  }

  // ----- property and element access

  ghost function Digits(n: nat): JsString {
    if n < 10 then [48 + n] else Digits(n / 10) + [48 + n % 10]
  }

  lemma {:induction false} DigitsAreCanonical(n: nat)
    ensures var text := Digits(n);
            && text != [] && (forall i :: 0 <= i < |text| ==> IsDigit(text[i]))
            && DecimalValue(text) == n && (text[0] == 48 <==> n == 0)
  {
    if n >= 10 {
      DigitsAreCanonical(n / 10);
      var text := Digits(n);
      assert text[..|text| - 1] == Digits(n / 10);
    } else {
      assert [48 + n][..0] == [];
    }
  }

  /** A text of digits without a leading zero spells its value. */
  lemma {:induction false} CanonicalDigits(text: JsString)
    requires text != [] && text[0] != 48 && forall i :: 0 <= i < |text| ==> IsDigit(text[i])
    ensures DecimalValue(text) > 0 && Digits(DecimalValue(text)) == text
  {
    var init, last := text[..|text| - 1], text[|text| - 1];
    assert text == init + [last];
    if init == [] {
      assert DecimalValue(init) == 0;
    } else {
      CanonicalDigits(init);
      var n := DecimalValue(init);
      assert DecimalValue(text) == n * 10 + (last - 48);
      assert (n * 10 + (last - 48)) / 10 == n && (n * 10 + (last - 48)) % 10 == last - 48;
    }
  }

  /**
   * A string names a position exactly when it is the position's decimal digits, and the position is
   * below the limit.
   */
  lemma {:induction false} PositionTextIs(text: JsString, n: nat)
    ensures IndexOfText(text) == Some(n) <==> n < MAXIMUM_ARRAY_INDEX && text == Digits(n)
  {
    DigitsAreCanonical(n);
    if text == [48] {
      assert Digits(0) == [48];
    } else if text != [] && text[0] != 48 && forall i :: 0 <= i < |text| ==> IsDigit(text[i]) {
      CanonicalDigits(text);
    }
  }

  /** The value under a property: a member of an object, or the length of an array or a string. */
  lemma {:induction false} PropertyMeans(ops: Arithmetic, base: Predicate, name: JsString, inputs: map<JsString, Value>,
      depth: nat, x: Value)
    requires depth <= MAXIMUM_DEPTH && Evaluate(ops, base, inputs, depth + 1) == Ok(x)
    ensures var result := Evaluate(ops, Property(base, name), inputs, depth);
            match x
            case Obj(_, fields) => result == Ok(if name in fields then fields[name] else Undefined)
            case Arr(_, items) =>
              result == if name == Text("length") then Ok(Num(ops.ofLength(|items|))) else Err(UnreadableProperty)
            case Str(s) =>
              result == if name == Text("length") then Ok(Num(ops.ofLength(|s|))) else Err(UnreadableProperty)
            case _ => result == Err(UnreadableProperty)
  {
    LengthIs();
  }

  lemma {:induction false} LengthIs()
    ensures LENGTH == Text("length")
  {
    var length := "length";
    assert length[0] == 'l' && length[1] == 'e' && length[2] == 'n' && length[3] == 'g' && length[4] == 't'
      && length[5] == 'h';
    assert 'l' as int == 108 && 'e' as int == 101 && 'n' as int == 110 && 'g' as int == 103 && 't' as int == 116
      && 'h' as int == 104;
  }

  /** The element at a position, which is absent beyond the end; a string's elements are its single units. */
  ghost predicate IsElement(x: Value, n: nat, result: Value) {
    match x
    case Arr(_, items) => result == if n < |items| then items[n] else Undefined
    case Str(s) => result == if n < |s| then Str([s[n]]) else Undefined
    case _ => false
  }

  ghost predicate IsList(x: Value) {
    x.Arr? || x.Str?
  }

  function LengthOf(x: Value): nat {
    match x
    case Arr(_, items) => |items|
    case Str(s) => |s|
    case _ => 0
  }

  /** The string is the decimal digits of a position. */
  ghost predicate IsPosition(text: JsString) {
    exists n: nat :: n < MAXIMUM_ARRAY_INDEX && text == Digits(n)
  }

  /** An access under a string: a member of an object; of a list its length, or the element at the position spelled. */
  lemma {:induction false} TextIndexMeans(ops: Arithmetic, base: Predicate, index: Predicate,
      inputs: map<JsString, Value>, depth: nat, x: Value, text: JsString)
    requires HasValues(ops, base, index, inputs, depth, x, Str(text))
    ensures var result := Evaluate(ops, Index(base, index), inputs, depth);
            && (x.Obj? ==> result == Ok(if text in x.fields then x.fields[text] else Undefined))
            && (IsList(x) && text == Text("length") ==> result == Ok(Num(ops.ofLength(LengthOf(x)))))
            && (IsList(x) ==>
                 forall n: nat ::
                   n < MAXIMUM_ARRAY_INDEX && text == Digits(n) ==> result.Ok? && IsElement(x, n, result.value))
            && (IsList(x) && text != Text("length") && !IsPosition(text) ==> result == Ok(Undefined))
            && (!x.Obj? && !IsList(x) ==> result == Err(UnreadableIndex))
  {
    LengthIs();
    forall n: nat
      ensures IndexOfText(text) == Some(n) <==> n < MAXIMUM_ARRAY_INDEX && text == Digits(n)
      ensures text == Digits(n) ==> text != LENGTH
    {
      PositionTextIs(text, n);
      DigitsAreCanonical(n);
    }
  }

  /** An access under a number: of an object the member its text names, of a list the element at the position it is. */
  lemma {:induction false} NumberIndexMeans(ops: Arithmetic, base: Predicate, index: Predicate,
      inputs: map<JsString, Value>, depth: nat, x: Value, n: Number)
    requires HasValues(ops, base, index, inputs, depth, x, Num(n))
    ensures var result := Evaluate(ops, Index(base, index), inputs, depth);
            && (x.Obj? && !IsFinite(n) ==> result == Err(NotANumber))
            && (x.Obj? && IsFinite(n) ==>
               result == Ok(if ops.toKey(n) in x.fields then x.fields[ops.toKey(n)] else Undefined))
            && (IsList(x) && IsFinite(n) && ops.toIndex(n).Some? ==>
               result.Ok? && IsElement(x, ops.toIndex(n).value, result.value))
            && (IsList(x) && (!IsFinite(n) || ops.toIndex(n).None?) ==> result == Ok(Undefined))
            && (!x.Obj? && !IsList(x) ==> result == Err(UnreadableIndex))
  {
  }

  // ----- the folder

  ghost predicate HasConstants(ops: Arithmetic, left: Predicate, right: Predicate, x: Scalar, y: Scalar) {
    Fold(ops, left) == Known(x) && Fold(ops, right) == Known(y)
  }

  function Truth(b: bool): Constant {
    Known(BoolScalar(b))
  }

  /** On finite constants the comparing operators fold to what they mean for values. */
  lemma {:induction false} FoldedComparisonMeans(ops: Arithmetic, op: BinaryOperator, left: Predicate, right: Predicate,
      x: Scalar, y: Scalar)
    requires HasConstants(ops, left, right, x, y)
    requires (x.NumberScalar? ==> IsFinite(x.n)) && (y.NumberScalar? ==> IsFinite(y.n))
    ensures Fold(ops, Binary(Equal, left, right)) == Truth(Same(ScalarValue(x), ScalarValue(y)))
    ensures Fold(ops, Binary(NotEqual, left, right)) == Truth(!Same(ScalarValue(x), ScalarValue(y)))
    ensures IsOrdering(op) ==>
              Fold(ops, Binary(op, left, right)) ==
              if Comparable(ScalarValue(x), ScalarValue(y)) then Truth(Holds(op, ScalarValue(x), ScalarValue(y)))
              else Unknown
  {
    if x.NumberScalar? && y.NumberScalar? {
      ComparisonIsNumeric(x.n, y.n);
      ComparisonIsNumeric(y.n, x.n);
    }
    if x.StringScalar? && y.StringScalar? {
      UnitsLessIsLexicographic(x.s, y.s);
      UnitsLessIsLexicographic(y.s, x.s);
    }
  }

  /** Arithmetic on constants folds to the finite result of the operation, and is rejected where that is not finite. */
  lemma {:induction false} FoldedArithmeticMeans(ops: Arithmetic, left: Predicate, right: Predicate, a: Number,
      b: Number)
    requires HasConstants(ops, left, right, NumberScalar(a), NumberScalar(b))
    ensures Fold(ops, Binary(Add, left, right)) == Folded(ops.add(a, b))
    ensures Fold(ops, Binary(Subtract, left, right)) == Folded(ops.subtract(a, b))
    ensures Fold(ops, Binary(Multiply, left, right)) == Folded(ops.multiply(a, b))
    ensures Fold(ops, Binary(Divide, left, right)) == Folded(ops.divide(a, b))
    ensures Fold(ops, Binary(Remainder, left, right)) == Folded(ops.remainder(a, b))
    ensures Fold(ops, Binary(Power, left, right)) == Folded(ops.power(a, b))
  {
  }

  function Folded(n: Number): Constant {
    if IsFinite(n) then Known(NumberScalar(n)) else Rejected
  }

  /** Logic on constants: the truth tables, and a false or true on either side that settles the result alone. */
  lemma {:induction false} FoldedLogicMeans(ops: Arithmetic, left: Predicate, right: Predicate)
    requires !Fold(ops, left).Rejected? && !Fold(ops, right).Rejected?
    ensures var x, y := Fold(ops, left), Fold(ops, right);
            var both, either := Fold(ops, Binary(And, left, right)), Fold(ops, Binary(Or, left, right));
            && (x == Truth(false) || y == Truth(false) ==> both == Truth(false))
            && (x == Truth(true) || y == Truth(true) ==> either == Truth(true))
            && (x == Truth(true) && y == Truth(true) ==> both == Truth(true))
            && (x == Truth(false) && y == Truth(false) ==> either == Truth(false))
            && (both == Truth(true) ==> x == Truth(true) && y == Truth(true))
            && (either == Truth(false) ==> x == Truth(false) && y == Truth(false))
            && (both == Truth(false) ==> x == Truth(false) || y == Truth(false))
            && (either == Truth(true) ==> x == Truth(true) || y == Truth(true))
            && (both.Unknown? || both == Truth(true) || both == Truth(false))
            && (either.Unknown? || either == Truth(true) || either == Truth(false))
  {
  }

  lemma {:induction false} FoldedUnaryMeans(ops: Arithmetic, operand: Predicate, x: Scalar)
    requires Fold(ops, operand) == Known(x)
    ensures Fold(ops, Unary(Not, operand)) == if x.BoolScalar? then Truth(!x.b) else Unknown
    ensures Fold(ops, Unary(Plus, operand)) == if x.NumberScalar? then Folded(x.n) else Unknown
    ensures x.NumberScalar? && IsFinite(x.n) ==>
              && Fold(ops, Unary(Minus, operand)).Known? && Fold(ops, Unary(Minus, operand)).value.NumberScalar?
              && Amount(Fold(ops, Unary(Minus, operand)).value.n) == -Amount(x.n)
    ensures !x.NumberScalar? ==> Fold(ops, Unary(Minus, operand)).Unknown?
  {
    if x.NumberScalar? {
      NegationIsNumeric(x.n);
    }
  }
}
