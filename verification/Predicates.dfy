/**
 * Constraint predicates: their syntax, the evaluator, and the constant folder.
 */
module Predicates {
  import opened JsValues
  import opened Outcomes

  datatype Scalar = NullScalar | BoolScalar(b: bool) | NumberScalar(n: Number) | StringScalar(s: JsString)

  datatype UnaryOperator = Not | Plus | Minus

  datatype BinaryOperator =
    | Equal | NotEqual | Less | LessEqual | Greater | GreaterEqual | And | Or
    | Add | Subtract | Multiply | Divide | Remainder | Power

  datatype Predicate =
    | Literal(value: Scalar)
    | Input(name: JsString)
    | Property(base: Predicate, property: JsString)
    | Index(base: Predicate, index: Predicate)
    | Unary(unary: UnaryOperator, operand: Predicate)
    | Binary(binary: BinaryOperator, left: Predicate, right: Predicate)

  /** Arrays and objects carry an identity, because strict equality compares them by it. */
  datatype Value =
    | Undefined
    | Null
    | Bool(b: bool)
    | Num(n: Number)
    | Str(s: JsString)
    | Arr(identity: nat, items: seq<Value>)
    | Obj(identity: nat, fields: map<JsString, Value>)

  datatype EvaluationError =
    | TooDeep | MissingInput | UnreadableProperty | UnreadableIndex | NotABoolean | NotANumber | NotComparable
      | NonFinite

  type Evaluation = Result<Value, EvaluationError>

  const MAXIMUM_DEPTH := 100
  const MAXIMUM_ARRAY_INDEX := 0xFFFF_FFFF
  const LENGTH: JsString := [108, 101, 110, 103, 116, 104]

  function ScalarValue(scalar: Scalar): Value {
    match scalar
    case NullScalar => Null
    case BoolScalar(b) => Bool(b)
    case NumberScalar(n) => Num(n)
    case StringScalar(s) => Str(s)
  }

  // ----- evaluation

  predicate IsDigit(u: CodeUnit) {
    48 <= u <= 57
  }

  function DecimalValue(digits: JsString): (n: int)
  {
    if digits == [] then 0 else DecimalValue(digits[..|digits| - 1]) * 10 + (digits[|digits| - 1] as int - 48)
  }

  /** An array position spelled in canonical decimal digits and below the array limit. */
  function IndexOfText(text: JsString): Option<nat> {
    if text == [48] then Some(0)
    else if text == [] || text[0] == 48 || exists i :: 0 <= i < |text| && !IsDigit(text[i]) then None
    else
      var n := DecimalValue(text);
      if 0 <= n < MAXIMUM_ARRAY_INDEX then Some(n) else None
  }

  function ArrayPosition(ops: Arithmetic, index: Value): Option<nat> {
    match index
    case Str(s) => IndexOfText(s)
    case Num(n) => if IsFinite(n) then ops.toIndex(n) else None
    case _ => None
  }

  function ReadProperty(ops: Arithmetic, value: Value, property: JsString): Evaluation {
    match value
    case Obj(_, fields) => if property in fields then Ok(fields[property]) else Ok(Undefined)
    case Arr(_, items) => if property == LENGTH then Ok(Num(ops.ofLength(|items|))) else Err(UnreadableProperty)
    case Str(s) => if property == LENGTH then Ok(Num(ops.ofLength(|s|))) else Err(UnreadableProperty)
    case _ => Err(UnreadableProperty)
  }

  function ReadIndex(ops: Arithmetic, value: Value, index: Value): Evaluation {
    match value
    case Obj(_, fields) =>
      (match index
       case Str(s) => if s in fields then Ok(fields[s]) else Ok(Undefined)
       case Num(n) =>
         if !IsFinite(n) then Err(NotANumber)
         else if ops.toKey(n) in fields then Ok(fields[ops.toKey(n)]) else Ok(Undefined)
       case _ => Err(UnreadableIndex))
    case Arr(_, items) =>
      if index == Str(LENGTH) then Ok(Num(ops.ofLength(|items|)))
      else (match ArrayPosition(ops, index)
            case None => Ok(Undefined)
            case Some(at) => if at < |items| then Ok(items[at]) else Ok(Undefined))
    case Str(s) =>
      if index == Str(LENGTH) then Ok(Num(ops.ofLength(|s|)))
      else (match ArrayPosition(ops, index)
            case None => Ok(Undefined)
            case Some(at) => if at < |s| then Ok(Str([s[at]])) else Ok(Undefined))
    case _ => Err(UnreadableIndex)
  }

  function FiniteOrError(n: Number): Evaluation {
    if IsFinite(n) then Ok(Num(n)) else Err(NonFinite)
  }

  function StrictEqual(left: Value, right: Value): Evaluation {
    match (left, right)
    case (Num(a), Num(b)) => if IsFinite(a) && IsFinite(b) then Ok(Bool(NumberEquals(a, b))) else Err(NotANumber)
    case (Arr(a, _), Arr(b, _)) => Ok(Bool(a == b))
    case (Obj(a, _), Obj(b, _)) => Ok(Bool(a == b))
    case _ => Ok(Bool(left == right))
  }

  function ByComparison(op: BinaryOperator, comparison: int): bool {
    match op
    case Less => comparison < 0
    case LessEqual => comparison <= 0
    case Greater => comparison > 0
    case _ => comparison >= 0
  }

  function OrderedCompare(op: BinaryOperator, left: Value, right: Value): Evaluation {
    match (left, right)
    case (Str(a), Str(b)) =>
      Ok(Bool(ByComparison(op, if UnitsLess(a, b) then -1 else if UnitsLess(b, a) then 1 else 0)))
    case (Num(a), Num(b)) =>
      if IsFinite(a) && IsFinite(b)
      then Ok(Bool(ByComparison(op, if NumberLess(a, b) then -1 else if NumberLess(b, a) then 1 else 0)))
      else Err(NotANumber)
    case _ => Err(NotComparable)
  }

  predicate IsArithmetic(op: BinaryOperator) {
    op.Add? || op.Subtract? || op.Multiply? || op.Divide? || op.Remainder? || op.Power?
  }

  predicate IsOrdering(op: BinaryOperator) {
    op.Less? || op.LessEqual? || op.Greater? || op.GreaterEqual?
  }

  function Compute(ops: Arithmetic, op: BinaryOperator, a: Number, b: Number): Number
    requires IsArithmetic(op)
  {
    match op
    case Add => ops.add(a, b)
    case Subtract => ops.subtract(a, b)
    case Multiply => ops.multiply(a, b)
    case Divide => ops.divide(a, b)
    case Remainder => ops.remainder(a, b)
    case Power => ops.power(a, b)
  }

  function Calculate(ops: Arithmetic, op: BinaryOperator, left: Value, right: Value): Evaluation
    requires IsArithmetic(op)
  {
    if !left.Num? || !IsFinite(left.n) || !right.Num? || !IsFinite(right.n) then Err(NotANumber)
    else if (op.Divide? || op.Remainder?) && IsZero(right.n) then Err(NonFinite)
    else FiniteOrError(Compute(ops, op, left.n, right.n))
  }

  function Evaluate(ops: Arithmetic, p: Predicate, inputs: map<JsString, Value>, depth: nat): Evaluation {
    if depth > MAXIMUM_DEPTH then Err(TooDeep)
    else match p
      case Literal(value) => Ok(ScalarValue(value))
      case Input(name) => if name in inputs then Ok(inputs[name]) else Err(MissingInput)
      case Property(base, property) =>
        (match Evaluate(ops, base, inputs, depth + 1)
         case Err(error) => Err(error)
         case Ok(value) => ReadProperty(ops, value, property))
      case Index(base, index) =>
        (match Evaluate(ops, base, inputs, depth + 1)
         case Err(error) => Err(error)
         case Ok(value) =>
           match Evaluate(ops, index, inputs, depth + 1)
           case Err(error) => Err(error)
           case Ok(at) => ReadIndex(ops, value, at))
      case Unary(op, operand) =>
        (match Evaluate(ops, operand, inputs, depth + 1)
         case Err(error) => Err(error)
         case Ok(value) =>
           if op.Not? then (if value.Bool? then Ok(Bool(!value.b)) else Err(NotABoolean))
           else if !value.Num? || !IsFinite(value.n) then Err(NotANumber)
           else FiniteOrError(if op.Plus? then value.n else Negate(value.n)))
      case Binary(op, left, right) =>
        match Evaluate(ops, left, inputs, depth + 1)
        case Err(error) => Err(error)
        case Ok(a) =>
          if IsLogical(op) && (!a.Bool? || a.b == op.Or?) then LeftDecides(a)
          else Combine(ops, op, a, Evaluate(ops, right, inputs, depth + 1))
  }

  predicate IsLogical(op: BinaryOperator) {
    op.And? || op.Or?
  }

  /** A left operand that is no boolean is an error; one that settles the result is the result. */
  function LeftDecides(left: Value): Evaluation {
    if left.Bool? then Ok(left) else Err(NotABoolean)
  }

  /** The result of a binary operator once its right operand has been evaluated as well. */
  function Combine(ops: Arithmetic, op: BinaryOperator, left: Value, right: Evaluation): Evaluation {
    match right
    case Err(error) => Err(error)
    case Ok(b) =>
      if IsLogical(op) then LeftDecides(b)
      else if op.Equal? then StrictEqual(left, b)
      else if op.NotEqual? then Negated(StrictEqual(left, b))
      else if IsOrdering(op) then OrderedCompare(op, left, b)
      else Calculate(ops, op, left, b)
  }

  function Negated(evaluation: Evaluation): Evaluation {
    if evaluation.Ok? && evaluation.value.Bool? then Ok(Bool(!evaluation.value.b)) else evaluation
  }

  /** Whether a constraint is active for a call. */
  function EvaluatePredicate(ops: Arithmetic, p: Predicate, inputs: map<JsString, Value>): Result<bool, EvaluationError>
  {
    match Evaluate(ops, p, inputs, 1)
    case Err(error) => Err(error)
    case Ok(value) => if value.Bool? then Ok(value.b) else Err(NotABoolean)
  }

  // ----- constant folding

  datatype Constant = Rejected | Unknown | Known(value: Scalar)

  function ScalarsEqual(a: Scalar, b: Scalar): bool {
    if a.NumberScalar? && b.NumberScalar? then NumberEquals(a.n, b.n) else a == b
  }

  function FiniteConstant(n: Number): Constant {
    if IsFinite(n) then Known(NumberScalar(n)) else Rejected
  }

  predicate NumberLessOrEqual(a: Number, b: Number) {
    !IsNaN(a) && !IsNaN(b) && LineKey(a) <= LineKey(b)
  }

  function FoldComparison(op: BinaryOperator, left: Scalar, right: Scalar): Constant
    requires IsOrdering(op)
  {
    match (left, right)
    case (StringScalar(a), StringScalar(b)) =>
      Known(BoolScalar(match op
                       case Less => UnitsLess(a, b)
                       case LessEqual => !UnitsLess(b, a)
                       case Greater => UnitsLess(b, a)
                       case GreaterEqual => !UnitsLess(a, b)))
    case (NumberScalar(a), NumberScalar(b)) =>
      Known(BoolScalar(match op
                       case Less => NumberLess(a, b)
                       case LessEqual => NumberLessOrEqual(a, b)
                       case Greater => NumberLess(b, a)
                       case GreaterEqual => NumberLessOrEqual(b, a)))
    case _ => Unknown
  }

  predicate IsTrue(constant: Constant) {
    constant == Known(BoolScalar(true))
  }

  predicate IsFalse(constant: Constant) {
    constant == Known(BoolScalar(false))
  }

  predicate IsBoolean(constant: Constant) {
    constant.Known? && constant.value.BoolScalar?
  }

  function FoldAnd(left: Constant, right: Constant): Constant {
    if IsFalse(left) || IsFalse(right) then Known(BoolScalar(false))
    else if IsTrue(left) && IsBoolean(right) then right
    else if IsTrue(right) && IsBoolean(left) then left
    else Unknown
  }

  function FoldOr(left: Constant, right: Constant): Constant {
    if IsTrue(left) || IsTrue(right) then Known(BoolScalar(true))
    else if IsFalse(left) && IsBoolean(right) then right
    else if IsFalse(right) && IsBoolean(left) then left
    else Unknown
  }

  /** The constant of a predicate, unknown when it depends on inputs, rejected on non-finite arithmetic. */
  function Fold(ops: Arithmetic, p: Predicate): Constant {
    match p
    case Literal(value) => Known(value)
    case Input(_) => Unknown
    case Property(base, _) => if Fold(ops, base).Rejected? then Rejected else Unknown
    case Index(base, index) => if Fold(ops, base).Rejected? || Fold(ops, index).Rejected? then Rejected else Unknown
    case Unary(op, operand) =>
      var constant := Fold(ops, operand);
      if !constant.Known? then constant
      else if op.Not? then (if IsBoolean(constant) then Known(BoolScalar(!constant.value.b)) else Unknown)
      else if !constant.value.NumberScalar? then Unknown
      else FiniteConstant(if op.Minus? then Negate(constant.value.n) else constant.value.n)
    case Binary(op, l, r) =>
      var left, right := Fold(ops, l), Fold(ops, r);
      if left.Rejected? || right.Rejected? then Rejected
      else if op.And? then FoldAnd(left, right)
      else if op.Or? then FoldOr(left, right)
      else if left.Unknown? || right.Unknown? then Unknown
      else FoldStrict(ops, op, left.value, right.value)
  }

  function FoldStrict(ops: Arithmetic, op: BinaryOperator, left: Scalar, right: Scalar): Constant
    requires !IsLogical(op)
  {
    if op.Equal? then Known(BoolScalar(ScalarsEqual(left, right)))
    else if op.NotEqual? then Known(BoolScalar(!ScalarsEqual(left, right)))
    else if IsOrdering(op) then FoldComparison(op, left, right)
    else if left.NumberScalar? && right.NumberScalar? then FiniteConstant(Compute(ops, op, left.n, right.n))
    else Unknown
  }

  /** The evaluator fails or agrees with the constant. */
  ghost predicate Agrees(evaluation: Evaluation, constant: Constant) {
    constant.Known? && evaluation.Ok? ==> evaluation.value == ScalarValue(constant.value)
  }

  lemma {:induction false} UnitsLessIsAntisymmetric(a: JsString, b: JsString)
    ensures !(UnitsLess(a, b) && UnitsLess(b, a))
    ensures !UnitsLess(a, b) && !UnitsLess(b, a) ==> a == b
  {
    if a != [] && b != [] {
      UnitsLessIsAntisymmetric(a[1..], b[1..]);
      assert a == [a[0]] + a[1..] && b == [b[0]] + b[1..];
    }
  }

  lemma {:induction false} ComparisonAgrees(op: BinaryOperator, left: Scalar, right: Scalar)
    requires IsOrdering(op)
    ensures Agrees(OrderedCompare(op, ScalarValue(left), ScalarValue(right)), FoldComparison(op, left, right))
  {
    if left.StringScalar? && right.StringScalar? {
      UnitsLessIsAntisymmetric(left.s, right.s);
    }
  }

  lemma {:induction false} StrictAgrees(ops: Arithmetic, op: BinaryOperator, left: Scalar, right: Scalar)
    requires !IsLogical(op)
    ensures Agrees(Combine(ops, op, ScalarValue(left), Ok(ScalarValue(right))), FoldStrict(ops, op, left, right))
  {
    if IsOrdering(op) {
      ComparisonAgrees(op, left, right);
    }
  }

  lemma {:induction false} LogicAgrees(ops: Arithmetic, op: BinaryOperator, left: Value, right: Evaluation,
      leftConstant: Constant, rightConstant: Constant)
    requires IsLogical(op)
    requires Agrees(Ok(left), leftConstant) && Agrees(right, rightConstant)
    ensures var result := if !left.Bool? || left.b == op.Or? then LeftDecides(left) else Combine(ops, op, left, right);
            Agrees(result, if op.And? then FoldAnd(leftConstant, rightConstant)
              else FoldOr(leftConstant, rightConstant))
  {
  }

  /**
   * Folding is sound: on every input the evaluator fails or returns the folded constant, also
   * where a conjunction or disjunction was folded from its right operand alone.
   */
  lemma {:induction false} FoldingIsSound(ops: Arithmetic, p: Predicate, inputs: map<JsString, Value>, depth: nat)
    ensures Agrees(Evaluate(ops, p, inputs, depth), Fold(ops, p))
  {
    match p
    case Literal(_) =>
    case Input(_) =>
    case Property(_, _) =>
    case Index(_, _) =>
    case Unary(_, operand) =>
      FoldingIsSound(ops, operand, inputs, depth + 1);
    case Binary(op, left, right) =>
      FoldingIsSound(ops, left, inputs, depth + 1);
      FoldingIsSound(ops, right, inputs, depth + 1);
      FoldingBinary(ops, op, left, right, inputs, depth);
  }

  lemma {:induction false} FoldingBinary(ops: Arithmetic, op: BinaryOperator, left: Predicate, right: Predicate,
      inputs: map<JsString, Value>, depth: nat)
    requires Agrees(Evaluate(ops, left, inputs, depth + 1), Fold(ops, left))
    requires Agrees(Evaluate(ops, right, inputs, depth + 1), Fold(ops, right))
    ensures Agrees(Evaluate(ops, Binary(op, left, right), inputs, depth), Fold(ops, Binary(op, left, right)))
  {
    var a, b := Evaluate(ops, left, inputs, depth + 1), Evaluate(ops, right, inputs, depth + 1);
    var x, y := Fold(ops, left), Fold(ops, right);
    if a.Ok? {
      if IsLogical(op) {
        LogicAgrees(ops, op, a.value, b, x, y);
      } else if x.Known? && y.Known? {
        StrictAgrees(ops, op, x.value, y.value);
      }
    }
  }

  /** A predicate that folds to false is active for no call. */
  lemma {:induction false} FalseIsNeverActive(ops: Arithmetic, p: Predicate, inputs: map<JsString, Value>)
    requires IsFalse(Fold(ops, p))
    ensures EvaluatePredicate(ops, p, inputs) != Ok(true)
  {
    FoldingIsSound(ops, p, inputs, 1);
  }

  /** A predicate that folds to true is inactive for no call. */
  lemma {:induction false} TrueIsNeverInactive(ops: Arithmetic, p: Predicate, inputs: map<JsString, Value>)
    requires IsTrue(Fold(ops, p))
    ensures EvaluatePredicate(ops, p, inputs) != Ok(false)
  {
    FoldingIsSound(ops, p, inputs, 1);
  }

  // ----- what a rejection says about evaluation

  /** Folding rejects the predicate itself, not one of its parts. */
  predicate RejectedHere(ops: Arithmetic, p: Predicate) {
    match p
    case Unary(_, operand) => Fold(ops, p).Rejected? && !Fold(ops, operand).Rejected?
    case Binary(_, left, right) => Fold(ops, p).Rejected? && !Fold(ops, left).Rejected? && !Fold(ops, right).Rejected?
    case _ => false
  }

  /** The rejection lies where evaluation always comes by: not inside a right operand of `&&` or `||`. */
  predicate Doomed(ops: Arithmetic, p: Predicate) {
    RejectedHere(ops, p) ||
    match p
    case Property(base, _) => Doomed(ops, base)
    case Index(base, index) => Doomed(ops, base) || Doomed(ops, index)
    case Unary(_, operand) => Doomed(ops, operand)
    case Binary(op, left, right) => Doomed(ops, left) || (!IsLogical(op) && Doomed(ops, right))
    case _ => false
  }

  /** Some right operand of `&&` or `||`, at whatever depth, is rejected. */
  predicate RejectsRightOperand(ops: Arithmetic, p: Predicate) {
    match p
    case Property(base, _) => RejectsRightOperand(ops, base)
    case Index(base, index) => RejectsRightOperand(ops, base) || RejectsRightOperand(ops, index)
    case Unary(_, operand) => RejectsRightOperand(ops, operand)
    case Binary(op, left, right) =>
      (IsLogical(op) && Fold(ops, right).Rejected?) || RejectsRightOperand(ops, left) || RejectsRightOperand(ops, right)
    case _ => false
  }

  /** The predicate itself, or part of an operand of it. */
  predicate IsPart(part: Predicate, p: Predicate) {
    part == p ||
    match p
    case Property(base, _) => IsPart(part, base)
    case Index(base, index) => IsPart(part, base) || IsPart(part, index)
    case Unary(_, operand) => IsPart(part, operand)
    case Binary(_, left, right) => IsPart(part, left) || IsPart(part, right)
    case _ => false
  }

  ghost predicate RejectedRight(ops: Arithmetic, p: Predicate, part: Predicate) {
    && IsPart(part, p) && part.Binary? && (part.binary == And || part.binary == Or)
    && Fold(ops, part.right).Rejected?
  }

  lemma {:induction false} FindRejectedRight(ops: Arithmetic, p: Predicate) returns (part: Predicate)
    requires RejectsRightOperand(ops, p)
    ensures RejectedRight(ops, p, part)
  {
    match p
    case Property(base, _) => part := FindRejectedRight(ops, base);
    case Unary(_, operand) => part := FindRejectedRight(ops, operand);
    case Index(base, index) => part := FindRejectedRight(ops, if RejectsRightOperand(ops, base) then base else index);
    case Binary(op, left, right) =>
      if IsLogical(op) && Fold(ops, right).Rejected? {
        part := p;
      } else {
        part := FindRejectedRight(ops, if RejectsRightOperand(ops, left) then left else right);
      }
  }

  lemma {:induction false} RejectedRightIsFound(ops: Arithmetic, p: Predicate, part: Predicate)
    requires RejectedRight(ops, p, part)
    ensures RejectsRightOperand(ops, p)
  {
    if part != p {
      match p
      case Property(base, _) => RejectedRightIsFound(ops, base, part);
      case Unary(_, operand) => RejectedRightIsFound(ops, operand, part);
      case Index(base, index) => RejectedRightIsFound(ops, if IsPart(part, base) then base else index, part);
      case Binary(_, left, right) => RejectedRightIsFound(ops, if IsPart(part, left) then left else right, part);
    }
  }

  /** The right operands meant are those of the logical operators among the parts of the predicate, and no other. */
  lemma {:induction false} RejectedRightOperandsAre(ops: Arithmetic, p: Predicate)
    ensures RejectsRightOperand(ops, p) <==> exists part :: RejectedRight(ops, p, part)
  {
    if RejectsRightOperand(ops, p) {
      var part := FindRejectedRight(ops, p);
    }
    if part :| RejectedRight(ops, p, part) {
      RejectedRightIsFound(ops, p, part);
    }
  }

  /** What is doomed is rejected, and without a rejected right operand nothing else is. */
  lemma {:induction false} RejectionIsDoom(ops: Arithmetic, p: Predicate)
    ensures Doomed(ops, p) ==> Fold(ops, p).Rejected?
    ensures !RejectsRightOperand(ops, p) && Fold(ops, p).Rejected? ==> Doomed(ops, p)
  {
    match p
    case Literal(_) =>
    case Input(_) =>
    case Property(base, _) => RejectionIsDoom(ops, base);
    case Index(base, index) =>
      RejectionIsDoom(ops, base);
      RejectionIsDoom(ops, index);
    case Unary(_, operand) => RejectionIsDoom(ops, operand);
    case Binary(_, left, right) =>
      RejectionIsDoom(ops, left);
      RejectionIsDoom(ops, right);
  }

  lemma {:induction false} RejectedHereFails(ops: Arithmetic, p: Predicate, inputs: map<JsString, Value>, depth: nat)
    requires RejectedHere(ops, p)
    ensures Evaluate(ops, p, inputs, depth).Err?
  {
    match p
    case Unary(_, operand) =>
      FoldingIsSound(ops, operand, inputs, depth + 1);
    case Binary(_, left, right) =>
      FoldingIsSound(ops, left, inputs, depth + 1);
      FoldingIsSound(ops, right, inputs, depth + 1);
  }

  /** What is doomed fails on every call, wherever it stands. */
  lemma {:induction false} DoomedFails(ops: Arithmetic, p: Predicate, inputs: map<JsString, Value>, depth: nat)
    requires Doomed(ops, p)
    ensures Evaluate(ops, p, inputs, depth).Err?
  {
    if RejectedHere(ops, p) {
      RejectedHereFails(ops, p, inputs, depth);
    } else {
      match p
      case Property(base, _) => DoomedFails(ops, base, inputs, depth + 1);
      case Index(base, index) =>
        DoomedFails(ops, if Doomed(ops, base) then base else index, inputs, depth + 1);
      case Unary(_, operand) => DoomedFails(ops, operand, inputs, depth + 1);
      case Binary(_, left, right) =>
        DoomedFails(ops, if Doomed(ops, left) then left else right, inputs, depth + 1);
    }
  }

  /** A rejected predicate none of whose right operands of `&&` and `||` is rejected fails on every call. */
  lemma {:induction false} RejectionMeansFailure(ops: Arithmetic, p: Predicate, inputs: map<JsString, Value>,
      depth: nat)
    requires Fold(ops, p).Rejected? && !RejectsRightOperand(ops, p)
    ensures Evaluate(ops, p, inputs, depth).Err?
  {
    RejectionIsDoom(ops, p);
    DoomedFails(ops, p, inputs, depth);
  }

  /** With a right operand that fails, `&&` and `||` have a result exactly when the left operand settles it. */
  lemma {:induction false} FailingRightIsSkipped(ops: Arithmetic, op: BinaryOperator, left: Predicate, right: Predicate,
                                                 inputs: map<JsString, Value>, depth: nat)
    requires IsLogical(op) && depth <= MAXIMUM_DEPTH && Evaluate(ops, right, inputs, depth + 1).Err?
    ensures Evaluate(ops, Binary(op, left, right), inputs, depth).Ok? <==>
            Evaluate(ops, left, inputs, depth + 1) == Ok(Bool(op.Or?))
  {
  }

  /**
   * Where the guard fails: with a doomed right operand, `&&` and `||` are rejected, and have a result
   * exactly on the calls on which the left operand is the boolean that settles it.
   */
  lemma {:induction false} DoomedRightIsSkipped(ops: Arithmetic, op: BinaryOperator, left: Predicate, right: Predicate,
                                                inputs: map<JsString, Value>, depth: nat)
    requires IsLogical(op) && depth <= MAXIMUM_DEPTH && Doomed(ops, right)
    ensures Fold(ops, Binary(op, left, right)).Rejected?
    ensures Evaluate(ops, Binary(op, left, right), inputs, depth).Ok? <==>
            Evaluate(ops, left, inputs, depth + 1) == Ok(Bool(op.Or?))
  {
    RejectionIsDoom(ops, right);
    DoomedFails(ops, right, inputs, depth + 1);
    FailingRightIsSkipped(ops, op, left, right, inputs, depth);
  }

  /** The part has a result: by the recursion below where it is rejected, by evaluation where it is not. */
  ghost predicate HasResult(ops: Arithmetic, p: Predicate, inputs: map<JsString, Value>, depth: nat)
    decreases p, 1
  {
    if Fold(ops, p).Rejected? then Escapes(ops, p, inputs, depth) else Evaluate(ops, p, inputs, depth).Ok?
  }

  ghost predicate HasBoolean(ops: Arithmetic, p: Predicate, inputs: map<JsString, Value>, depth: nat)
    decreases p, 1
  {
    if Fold(ops, p).Rejected? then !p.Index? && Escapes(ops, p, inputs, depth)
    else Evaluate(ops, p, inputs, depth).Ok? && Evaluate(ops, p, inputs, depth).value.Bool?
  }

  /**
   * Evaluation of a rejected predicate gets past every rejection: they lie in right operands of `&&` and
   * `||` whose left operand settles the result, and only `!`, equality, `&&`, `||` and the index of an
   * array or string stand around those.
   */
  ghost predicate Escapes(ops: Arithmetic, p: Predicate, inputs: map<JsString, Value>, depth: nat)
    decreases p, 0
  {
    && depth <= MAXIMUM_DEPTH && !RejectedHere(ops, p)
    && match p
       case Index(base, index) =>
         var value := Evaluate(ops, base, inputs, depth + 1);
         && !Fold(ops, base).Rejected? && value.Ok? && (value.value.Arr? || value.value.Str?)
         && HasResult(ops, index, inputs, depth + 1)
       case Unary(op, operand) => op.Not? && HasBoolean(ops, operand, inputs, depth + 1)
       case Binary(op, left, right) =>
         if IsLogical(op)
         then
           && HasBoolean(ops, left, inputs, depth + 1)
           && (Evaluate(ops, left, inputs, depth + 1) == Ok(Bool(op.Or?)) || HasBoolean(ops, right, inputs, depth + 1))
         else
           && (op.Equal? || op.NotEqual?)
           && HasResult(ops, left, inputs, depth + 1) && HasResult(ops, right, inputs, depth + 1)
       case _ => false
  }

  /**
   * For every rejected predicate, on every call and at every depth: evaluation has a result exactly when
   * it escapes the rejections, and then the result is a boolean, or nothing for an element access.
   */
  lemma {:induction false} RejectedEvaluatesExactly(ops: Arithmetic, p: Predicate, inputs: map<JsString, Value>,
      depth: nat)
    requires Fold(ops, p).Rejected?
    ensures Evaluate(ops, p, inputs, depth).Ok? <==> Escapes(ops, p, inputs, depth)
    ensures Evaluate(ops, p, inputs, depth).Ok? ==>
              var value := Evaluate(ops, p, inputs, depth).value; if p.Index? then value.Undefined? else value.Bool?
    decreases p, 0
  {
    if RejectedHere(ops, p) {
      RejectedHereFails(ops, p, inputs, depth);
    } else {
      match p
      case Property(base, _) => PartsEvaluateExactly(ops, base, inputs, depth + 1);
      case Index(base, index) =>
        PartsEvaluateExactly(ops, base, inputs, depth + 1);
        PartsEvaluateExactly(ops, index, inputs, depth + 1);
      case Unary(_, operand) => PartsEvaluateExactly(ops, operand, inputs, depth + 1);
      case Binary(op, left, right) =>
        PartsEvaluateExactly(ops, left, inputs, depth + 1);
        PartsEvaluateExactly(ops, right, inputs, depth + 1);
        BinaryEvaluatesExactly(ops, op, left, right, inputs, depth);
    }
  }

  lemma {:induction false} PartsEvaluateExactly(ops: Arithmetic, p: Predicate, inputs: map<JsString, Value>, depth: nat)
    ensures PartExact(ops, p, inputs, depth)
    decreases p, 1
  {
    if Fold(ops, p).Rejected? {
      RejectedEvaluatesExactly(ops, p, inputs, depth);
    }
  }

  ghost predicate PartExact(ops: Arithmetic, p: Predicate, inputs: map<JsString, Value>, depth: nat) {
    var result := Evaluate(ops, p, inputs, depth);
    && (result.Ok? <==> HasResult(ops, p, inputs, depth))
    && (result.Ok? && result.value.Bool? <==> HasBoolean(ops, p, inputs, depth))
    && (Fold(ops, p).Rejected? && result.Ok? ==> result.value.Bool? || result.value.Undefined?)
  }

  lemma {:induction false} BinaryEvaluatesExactly(ops: Arithmetic, op: BinaryOperator, left: Predicate,
      right: Predicate, inputs: map<JsString, Value>, depth: nat)
    requires Fold(ops, Binary(op, left, right)).Rejected? && !RejectedHere(ops, Binary(op, left, right))
    requires PartExact(ops, left, inputs, depth + 1) && PartExact(ops, right, inputs, depth + 1)
    ensures var p := Binary(op, left, right);
            var result := Evaluate(ops, p, inputs, depth);
            (result.Ok? <==> Escapes(ops, p, inputs, depth)) && (result.Ok? ==> result.value.Bool?)
  {
  }

  /**
   * The guard is needed: the folder looks at operands the evaluator never reaches, so it rejects
   * `false && 1 / 0 < 1`, which evaluates to false on every input.
   */
  lemma {:induction false} RejectedPredicateMayEvaluate(ops: Arithmetic, inputs: map<JsString, Value>)
    returns (p: Predicate)
    requires !IsFinite(ops.divide(ONE, ZERO))
    ensures Fold(ops, p).Rejected? && RejectsRightOperand(ops, p) && EvaluatePredicate(ops, p, inputs) == Ok(false)
  {
    var one, zero := Literal(NumberScalar(ONE)), Literal(NumberScalar(ZERO));
    var quotient := Binary(Divide, one, zero);
    p := Binary(And, Literal(BoolScalar(false)), Binary(Less, quotient, one));
    assert Fold(ops, quotient).Rejected?;
    assert Evaluate(ops, p.left, inputs, 2) == Ok(Bool(false));
  }
}
