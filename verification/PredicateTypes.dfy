/**
 * The static acceptance rules of constraint predicates over resolved input types, and the
 * theorem that accepted predicates do not go wrong.
 */
module PredicateTypes {
  import opened InputTypes
  import opened JsValues
  import opened Outcomes
  import opened Predicates

  // ----- assignability to the primitive types

  predicate AllBoolean(t: InputType) {
    match t
    case BooleanType => true
    case LiteralType(v) => v.BoolScalar?
    case UnionType(variants) => forall i :: 0 <= i < |variants| ==> AllBoolean(variants[i])
    case _ => false
  }

  predicate FiniteNumber(v: Scalar) {
    v.NumberScalar? && IsFinite(v.n)
  }

  predicate AllNumber(t: InputType) {
    match t
    case NumberType => true
    case LiteralType(v) => FiniteNumber(v)
    case EnumType(values) => forall i :: 0 <= i < |values| ==> FiniteNumber(values[i])
    case UnionType(variants) => forall i :: 0 <= i < |variants| ==> AllNumber(variants[i])
    case _ => false
  }

  predicate AllString(t: InputType) {
    IsStringLike(t) || (t.UnionType? && forall i :: 0 <= i < |t.variants| ==> AllString(t.variants[i]))
  }

  predicate IsStringLike(t: InputType) {
    match t
    case StringType => true
    case LiteralType(v) => v.StringScalar?
    case EnumType(values) => forall i :: 0 <= i < |values| ==> values[i].StringScalar?
    case _ => false
  }

  /** No array, tuple or object anywhere, and literal numbers finite. */
  predicate IsScalarType(t: InputType) {
    match t
    case StringType => true
    case BooleanType => true
    case NumberType => true
    case NullType => true
    case LiteralType(v) => v.NumberScalar? ==> IsFinite(v.n)
    case EnumType(values) => forall i :: 0 <= i < |values| ==> values[i].NumberScalar? ==> IsFinite(values[i].n)
    case UnionType(variants) => forall i :: 0 <= i < |variants| ==> IsScalarType(variants[i])
    case _ => false
  }

  // ----- property and element access

  function FieldNamed(fields: seq<Field>, name: JsString): (field: Option<Field>)
    ensures field.Some? <==> Declares(fields, name)
    ensures field.Some? ==> field.value in fields && field.value.name == name
  {
    if fields == [] then None
    else if fields[0].name == name then Some(fields[0])
    else
      var rest := FieldNamed(fields[1..], name);
      assert forall i :: 1 <= i < |fields| ==> fields[i] == fields[1..][i - 1];
      rest
  }

  function PropertyTypes(types: seq<InputType>, name: JsString): (result: Option<seq<InputType>>)
    ensures result.Some? ==> |result.value| == |types|
    ensures result.Some? ==> forall i :: 0 <= i < |types| ==> PropertyType(types[i], name) == Some(result.value[i])
    decreases types, 1
  {
    if types == [] then Some([])
    else
      match (PropertyType(types[0], name), PropertyTypes(types[1..], name))
      case (Some(first), Some(rest)) => Some([first] + rest)
      case _ => None
  }

  /** The type of a property; none where the type checker would report an error or a non-data member. */
  function PropertyType(t: InputType, name: JsString): Option<InputType>
    decreases t, 0
  {
    match t
    case ObjectType(fields) =>
      (match FieldNamed(fields, name) case Some(field) => Some(field.fieldType) case None => None)
    case UnionType(variants) =>
      (match PropertyTypes(variants, name) case Some(results) => Some(UnionType(results)) case None => None)
    case _ => if name == LENGTH && (t.ArrayType? || t.TupleType? || IsStringLike(t)) then Some(NumberType) else None
  }

  predicate PropertyMayBeMissing(t: InputType, name: JsString) {
    match t
    case ObjectType(fields) => (match FieldNamed(fields, name) case Some(field) => field.optional case None => true)
    case UnionType(variants) => exists i :: 0 <= i < |variants| && PropertyMayBeMissing(variants[i], name)
    case _ => false
  }

  function AllKeys(types: seq<InputType>): (keys: Option<seq<Scalar>>)
    ensures keys.Some? ==> forall i :: 0 <= i < |types| ==>
              KeysOf(types[i]).Some? && forall key :: key in KeysOf(types[i]).value ==> key in keys.value
    decreases types, 1
  {
    if types == [] then Some([])
    else
      match (KeysOf(types[0]), AllKeys(types[1..]))
      case (Some(first), Some(rest)) => Some(first + rest)
      case _ => None
  }

  predicate IsKey(v: Scalar) {
    v.StringScalar? || FiniteNumber(v)
  }

  /** The finitely many keys an index type stands for, if it does. */
  function KeysOf(t: InputType): Option<seq<Scalar>>
    decreases t, 0
  {
    match t
    case LiteralType(v) => if IsKey(v) then Some([v]) else None
    case EnumType(values) => if forall i :: 0 <= i < |values| ==> IsKey(values[i]) then Some(values) else None
    case UnionType(variants) => AllKeys(variants)
    case _ => None
  }

  function KeyPosition(ops: Arithmetic, key: Scalar): Option<nat> {
    match key
    case NumberScalar(n) => ops.toIndex(n)
    case StringScalar(s) => IndexOfText(s)
    case _ => None
  }

  function KeyName(ops: Arithmetic, key: Scalar): JsString {
    match key
    case NumberScalar(n) => ops.toKey(n)
    case StringScalar(s) => s
    case _ => []
  }

  /** The type of an element read under one known key. */
  function ElementType(ops: Arithmetic, t: InputType, key: Scalar): Option<InputType> {
    match t
    case ObjectType(fields) =>
      (match FieldNamed(fields, KeyName(ops, key)) case Some(field) => Some(field.fieldType) case None => None)
    case TupleType(items) =>
      if key == StringScalar(LENGTH) then Some(NumberType)
      else (match KeyPosition(ops, key) case Some(at) => if at < |items| then Some(items[at]) else None
        case None => None)
    case ArrayType(item) =>
      if key == StringScalar(LENGTH) then Some(NumberType)
      else if key.NumberScalar? || KeyPosition(ops, key).Some? then Some(item) else None
    case _ =>
      if !IsStringLike(t) then None
      else if key == StringScalar(LENGTH) then Some(NumberType)
      else if key.NumberScalar? || KeyPosition(ops, key).Some? then Some(StringType) else None
  }

  function ElementTypes(ops: Arithmetic, t: InputType, keys: seq<Scalar>): (result: Option<seq<InputType>>)
    ensures result.Some? ==> |result.value| == |keys|
    ensures result.Some? ==> forall i :: 0 <= i < |keys| ==> ElementType(ops, t, keys[i]) == Some(result.value[i])
  {
    if keys == [] then Some([])
    else
      match (ElementType(ops, t, keys[0]), ElementTypes(ops, t, keys[1..]))
      case (Some(first), Some(rest)) => Some([first] + rest)
      case _ => None
  }

  function AnyElementType(t: InputType): Option<InputType> {
    match t
    case ArrayType(item) => Some(item)
    case TupleType(items) => Some(UnionType(items))
    case _ => if IsStringLike(t) then Some(StringType) else None
  }

  function IndexTypes(ops: Arithmetic, types: seq<InputType>, index: InputType): (result: Option<seq<InputType>>)
    ensures result.Some? ==> |result.value| == |types|
    ensures result.Some? ==> forall i :: 0 <= i < |types| ==> IndexType(ops, types[i], index) == Some(result.value[i])
    decreases types, 1
  {
    if types == [] then Some([])
    else
      match (IndexType(ops, types[0], index), IndexTypes(ops, types[1..], index))
      case (Some(first), Some(rest)) => Some([first] + rest)
      case _ => None
  }

  /** The type of an element access; none where the type checker would report an error. */
  function IndexType(ops: Arithmetic, t: InputType, index: InputType): Option<InputType>
    decreases t, 0
  {
    match t
    case UnionType(variants) =>
      (match IndexTypes(ops, variants, index) case Some(results) => Some(UnionType(results)) case None => None)
    case _ =>
      match KeysOf(index)
      case Some(keys) =>
        (match ElementTypes(ops, t, keys) case Some(results) => Some(UnionType(results)) case None => None)
      case None => if AllNumber(index) then AnyElementType(t) else None
  }

  /** Whether an element read may be absent: not `length`, not a tuple position in range, not a required field. */
  predicate KeyMayBeMissing(ops: Arithmetic, t: InputType, key: Scalar) {
    match t
    case ObjectType(fields) =>
      (match FieldNamed(fields, KeyName(ops, key)) case Some(field) => field.optional case None => true)
    case TupleType(items) =>
      key != StringScalar(LENGTH) && (match KeyPosition(ops, key) case Some(at) => at >= |items| case None => true)
    case _ => key != StringScalar(LENGTH)
  }

  predicate IndexMayBeMissing(ops: Arithmetic, t: InputType, index: InputType) {
    match t
    case UnionType(variants) => exists i :: 0 <= i < |variants| && IndexMayBeMissing(ops, variants[i], index)
    case _ =>
      match KeysOf(index)
      case Some(keys) => exists i :: 0 <= i < |keys| && KeyMayBeMissing(ops, t, keys[i])
      case None => !t.ObjectType?
  }

  // ----- predicates

  type Environment = map<JsString, InputType>

  /** The declared type of a predicate, without flow narrowing. */
  function TypeOf(ops: Arithmetic, p: Predicate, types: Environment): Option<InputType> {
    match p
    case Literal(value) => Some(LiteralType(value))
    case Input(name) => if name in types then Some(types[name]) else None
    case Property(base, name) =>
      (match TypeOf(ops, base, types) case Some(t) => PropertyType(t, name) case None => None)
    case Index(base, index) =>
      (match (TypeOf(ops, base, types), TypeOf(ops, index, types))
       case (Some(t), Some(i)) => IndexType(ops, t, i)
       case _ => None)
    case Unary(op, _) => Some(if op.Not? then BooleanType else NumberType)
    case Binary(op, _, _) => Some(if IsArithmetic(op) then NumberType else BooleanType)
  }

  /** Whether reading the predicate may yield an absent value. */
  predicate MayBeMissing(ops: Arithmetic, p: Predicate, types: Environment) {
    match p
    case Property(base, name) =>
      MayBeMissing(ops, base, types) ||
      (match TypeOf(ops, base, types) case Some(t) => PropertyMayBeMissing(t, name) case None => false)
    case Index(base, index) =>
      MayBeMissing(ops, base, types) || MayBeMissing(ops, index, types) ||
      (match (TypeOf(ops, base, types), TypeOf(ops, index, types))
       case (Some(t), Some(i)) => IndexMayBeMissing(ops, t, i)
       case _ => false)
    case _ => false
  }

  predicate Present(ops: Arithmetic, p: Predicate, types: Environment) {
    TypeOf(ops, p, types).Some? && !MayBeMissing(ops, p, types)
  }

  predicate OperandsFit(ops: Arithmetic, op: BinaryOperator, left: Predicate, right: Predicate, types: Environment) {
    && TypeOf(ops, left, types).Some? && TypeOf(ops, right, types).Some?
    && var a := TypeOf(ops, left, types).value;
       var b := TypeOf(ops, right, types).value;
       if op.Equal? || op.NotEqual? then IsScalarType(a) && IsScalarType(b)
       else
         && Present(ops, left, types) && Present(ops, right, types)
         && if IsArithmetic(op) then AllNumber(a) && AllNumber(b)
            else if IsLogical(op) then AllBoolean(a) && AllBoolean(b)
            else (AllNumber(a) && AllNumber(b)) || (AllString(a) && AllString(b))
  }

  /** The static rules for a predicate and everything inside it. */
  predicate Accepted(ops: Arithmetic, p: Predicate, types: Environment) {
    match p
    case Literal(value) => value.NumberScalar? ==> IsFinite(value.n)
    case Input(name) => name in types
    case Property(base, _) => TypeOf(ops, p, types).Some? && Present(ops, base, types) && Accepted(ops, base, types)
    case Index(base, index) =>
      && TypeOf(ops, p, types).Some? && Present(ops, base, types) && Present(ops, index, types)
      && Accepted(ops, base, types) && Accepted(ops, index, types)
    case Unary(op, operand) =>
      && Present(ops, operand, types) && Accepted(ops, operand, types)
      && (if op.Not? then AllBoolean(TypeOf(ops, operand, types).value)
         else AllNumber(TypeOf(ops, operand, types).value))
    case Binary(op, left, right) =>
      OperandsFit(ops, op, left, right, types) && Accepted(ops, left, types) && Accepted(ops, right, types)
  }

  /** A predicate that may stand in a constraint. */
  predicate AcceptedPredicate(ops: Arithmetic, p: Predicate, types: Environment) {
    Accepted(ops, p, types) && Present(ops, p, types) && AllBoolean(TypeOf(ops, p, types).value)
  }

  function Levels(p: Predicate): nat {
    1 + match p
      case Property(base, _) => Levels(base)
      case Index(base, index) => if Levels(base) < Levels(index) then Levels(index) else Levels(base)
      case Unary(_, operand) => Levels(operand)
      case Binary(_, left, right) => if Levels(left) < Levels(right) then Levels(right) else Levels(left)
      case _ => 0
  }

  /** Levels that evaluation comes by whatever the operands are: right operands of `&&` and `||` do not count. */
  function AlwaysVisited(p: Predicate): nat {
    1 + match p
      case Property(base, _) => AlwaysVisited(base)
      case Index(base, index) =>
        if AlwaysVisited(base) < AlwaysVisited(index) then AlwaysVisited(index) else AlwaysVisited(base)
      case Unary(_, operand) => AlwaysVisited(operand)
      case Binary(op, left, right) =>
        if !IsLogical(op) && AlwaysVisited(left) < AlwaysVisited(right) then AlwaysVisited(right)
        else AlwaysVisited(left)
      case _ => 0
  }

  /**
   * Levels that evaluation comes by on this call: right operands of `&&` and `||` count where the left
   * operand passes evaluation on to them.
   */
  function VisitedLevels(ops: Arithmetic, p: Predicate, inputs: map<JsString, Value>, depth: nat): nat {
    1 + match p
      case Property(base, _) => VisitedLevels(ops, base, inputs, depth + 1)
      case Index(base, index) =>
        Deeper(VisitedLevels(ops, base, inputs, depth + 1), VisitedLevels(ops, index, inputs, depth + 1))
      case Unary(_, operand) => VisitedLevels(ops, operand, inputs, depth + 1)
      case Binary(op, left, right) =>
        var first := VisitedLevels(ops, left, inputs, depth + 1);
        if IsLogical(op) && Evaluate(ops, left, inputs, depth + 1) != Ok(Bool(op.And?)) then first
        else Deeper(first, VisitedLevels(ops, right, inputs, depth + 1))
      case _ => 0
  }

  function Deeper(a: nat, b: nat): nat {
    if a < b then b else a
  }

  // ----- inhabitants of the primitive types

  lemma {:induction false} BooleansAreBooleans(v: Value, t: InputType)
    requires HasType(v, t) && AllBoolean(t)
    ensures v.Bool?
    decreases t
  {
    if t.UnionType? {
      var i :| 0 <= i < |t.variants| && HasType(v, t.variants[i]);
      BooleansAreBooleans(v, t.variants[i]);
    }
  }

  lemma {:induction false} NumbersAreNumbers(v: Value, t: InputType)
    requires HasType(v, t) && AllNumber(t)
    ensures v.Num? && IsFinite(v.n)
    decreases t
  {
    if t.UnionType? {
      var i :| 0 <= i < |t.variants| && HasType(v, t.variants[i]);
      NumbersAreNumbers(v, t.variants[i]);
    }
  }

  lemma {:induction false} StringsAreStrings(v: Value, t: InputType)
    requires HasType(v, t) && AllString(t)
    ensures v.Str?
    decreases t
  {
    if t.UnionType? {
      var i :| 0 <= i < |t.variants| && HasType(v, t.variants[i]);
      StringsAreStrings(v, t.variants[i]);
    }
  }

  lemma {:induction false} ScalarsAreScalars(v: Value, t: InputType)
    requires HasType(v, t) && IsScalarType(t)
    ensures !v.Arr? && !v.Obj? && (v.Num? ==> IsFinite(v.n))
    decreases t
  {
    if t.UnionType? {
      var i :| 0 <= i < |t.variants| && HasType(v, t.variants[i]);
      ScalarsAreScalars(v, t.variants[i]);
    }
  }

  // ----- reads stay inside their types

  /** A read that succeeds with a value of the type, or with nothing where something may be missing. */
  ghost predicate ReadsAs(evaluation: Evaluation, t: InputType, missing: bool) {
    evaluation.Ok? && (HasType(evaluation.value, t) || (evaluation.value == Undefined && missing))
  }

  lemma {:induction false} IntoUnion(v: Value, results: seq<InputType>, i: nat)
    requires i < |results| && HasType(v, results[i])
    ensures HasType(v, UnionType(results))
  {
  }

  lemma {:induction false} PropertyReads(ops: Arithmetic, v: Value, t: InputType, name: JsString)
    requires Lawful(ops) && HasType(v, t) && PropertyType(t, name).Some?
    ensures ReadsAs(ReadProperty(ops, v, name), PropertyType(t, name).value, PropertyMayBeMissing(t, name))
    decreases t
  {
    match t
    case ObjectType(fields) =>
      FieldReads(v, fields, name);
    case UnionType(variants) =>
      var i :| 0 <= i < |variants| && HasType(v, variants[i]);
      PropertyReads(ops, v, variants[i], name);
      var read := ReadProperty(ops, v, name);
      var results := PropertyTypes(variants, name).value;
      if HasType(read.value, results[i]) {
        IntoUnion(read.value, results, i);
      }
    case _ =>
  }

  lemma {:induction false} FieldReads(v: Value, fields: seq<Field>, name: JsString)
    requires HasType(v, ObjectType(fields)) && Declares(fields, name)
    ensures v.Obj?
    ensures name in v.fields ==> HasType(v.fields[name], FieldNamed(fields, name).value.fieldType)
    ensures name !in v.fields ==> FieldNamed(fields, name).value.optional
  {
    var field := FieldNamed(fields, name).value;
    var i :| 0 <= i < |fields| && fields[i] == field;
  }

  /** An inhabitant of an index type with known keys is one of the keys. */
  lemma {:induction false} IndexIsKey(index: Value, t: InputType) returns (key: Scalar)
    requires HasType(index, t) && KeysOf(t).Some?
    ensures key in KeysOf(t).value && IsKey(key) && PrimitiveEquals(index, key)
    decreases t
  {
    match t
    case LiteralType(v) => key := v;
    case EnumType(values) =>
      var i :| 0 <= i < |values| && PrimitiveEquals(index, values[i]);
      key := values[i];
    case UnionType(variants) =>
      var i :| 0 <= i < |variants| && HasType(index, variants[i]);
      key := IndexIsKey(index, variants[i]);
  }

  /** A value equal to a key reads exactly what the key names. */
  lemma {:induction false} EqualKeysReadAlike(ops: Arithmetic, index: Value, key: Scalar)
    requires Lawful(ops) && IsKey(key) && PrimitiveEquals(index, key)
    ensures ArrayPosition(ops, index) == KeyPosition(ops, key)
    ensures index.Str? ==> key == StringScalar(index.s)
    ensures index.Num? ==> IsFinite(index.n) && ops.toKey(index.n) == KeyName(ops, key) && key.NumberScalar?
    ensures index.Str? || index.Num?
  {
  }

  lemma {:induction false} ElementReads(ops: Arithmetic, v: Value, t: InputType, index: Value, key: Scalar)
    requires Lawful(ops) && HasType(v, t) && !t.UnionType?
    requires IsKey(key) && PrimitiveEquals(index, key) && ElementType(ops, t, key).Some?
    ensures ReadsAs(ReadIndex(ops, v, index), ElementType(ops, t, key).value, KeyMayBeMissing(ops, t, key))
  {
    EqualKeysReadAlike(ops, index, key);
    if t.ObjectType? {
      FieldReads(v, t.fields, KeyName(ops, key));
    }
  }

  lemma {:induction false} AnyElementReads(ops: Arithmetic, v: Value, t: InputType, index: Value)
    requires HasType(v, t) && index.Num? && IsFinite(index.n) && AnyElementType(t).Some?
    ensures ReadsAs(ReadIndex(ops, v, index), AnyElementType(t).value, true)
  {
    var read := ReadIndex(ops, v, index);
    if t.TupleType? && read.value != Undefined {
      IntoUnion(read.value, t.items, ArrayPosition(ops, index).value);
    }
  }

  lemma {:induction false} KeyReads(ops: Arithmetic, v: Value, t: InputType, index: Value, indexType: InputType)
    requires Lawful(ops) && HasType(v, t) && !t.UnionType? && HasType(index, indexType)
    requires KeysOf(indexType).Some? && IndexType(ops, t, indexType).Some?
    ensures ReadsAs(ReadIndex(ops, v, index), IndexType(ops, t, indexType).value, IndexMayBeMissing(ops, t, indexType))
  {
    var key := IndexIsKey(index, indexType);
    var keys := KeysOf(indexType).value;
    var k :| 0 <= k < |keys| && keys[k] == key;
    ElementReads(ops, v, t, index, key);
    var read := ReadIndex(ops, v, index);
    var results := ElementTypes(ops, t, keys).value;
    if HasType(read.value, results[k]) {
      IntoUnion(read.value, results, k);
    }
  }

  lemma {:induction false} IndexReads(ops: Arithmetic, v: Value, t: InputType, index: Value, indexType: InputType)
    requires Lawful(ops) && HasType(v, t) && HasType(index, indexType) && IndexType(ops, t, indexType).Some?
    ensures ReadsAs(ReadIndex(ops, v, index), IndexType(ops, t, indexType).value, IndexMayBeMissing(ops, t, indexType))
    decreases t
  {
    if t.UnionType? {
      var i :| 0 <= i < |t.variants| && HasType(v, t.variants[i]);
      IndexReads(ops, v, t.variants[i], index, indexType);
      VariantReads(ops, ReadIndex(ops, v, index), t.variants, indexType, i);
    } else if KeysOf(indexType).Some? {
      KeyReads(ops, v, t, index, indexType);
    } else {
      NumbersAreNumbers(index, indexType);
      AnyElementReads(ops, v, t, index);
    }
  }

  lemma {:induction false} VariantReads(ops: Arithmetic, read: Evaluation, variants: seq<InputType>,
      indexType: InputType, i: nat)
    requires i < |variants| && IndexType(ops, UnionType(variants), indexType).Some?
    requires ReadsAs(read, IndexType(ops, variants[i], indexType).value, IndexMayBeMissing(ops, variants[i], indexType))
    ensures ReadsAs(read, IndexType(ops, UnionType(variants), indexType).value,
            IndexMayBeMissing(ops, UnionType(variants), indexType))
  {
    var results := IndexTypes(ops, variants, indexType).value;
    if HasType(read.value, results[i]) {
      IntoUnion(read.value, results, i);
    }
  }

  // ----- soundness

  ghost predicate WellTyped(inputs: map<JsString, Value>, types: Environment) {
    forall name :: name in types ==> name in inputs && HasType(inputs[name], types[name])
  }

  /** The evaluation ends in a value of the declared type (or in nothing where that is allowed), or fails by a limit. */
  ghost predicate Sound(ops: Arithmetic, p: Predicate, types: Environment, evaluation: Evaluation, depth: nat) {
    match evaluation
    case Ok(value) =>
      TypeOf(ops, p, types).Some? && ReadsAs(evaluation, TypeOf(ops, p, types).value, MayBeMissing(ops, p, types))
    case Err(error) => error.NonFinite? || (error.TooDeep? && depth + Levels(p) > MAXIMUM_DEPTH + 1)
  }

  lemma {:induction false} SoundCombine(ops: Arithmetic, op: BinaryOperator, left: Predicate, right: Predicate,
      types: Environment, a: Value, b: Value)
    requires OperandsFit(ops, op, left, right, types)
    requires ReadsAs(Ok(a), TypeOf(ops, left, types).value, MayBeMissing(ops, left, types))
    requires ReadsAs(Ok(b), TypeOf(ops, right, types).value, MayBeMissing(ops, right, types))
    ensures var result := Combine(ops, op, a, Ok(b));
            if result.Ok? then HasType(result.value, if IsArithmetic(op) then NumberType else BooleanType)
            else result.error.NonFinite?
  {
    var s, t := TypeOf(ops, left, types).value, TypeOf(ops, right, types).value;
    if op.Equal? || op.NotEqual? {
      ScalarOperand(a, s);
      ScalarOperand(b, t);
    } else {
      OperandKinds(op, s, t, a, b);
    }
  }

  lemma {:induction false} OperandKinds(op: BinaryOperator, s: InputType, t: InputType, a: Value, b: Value)
    requires HasType(a, s) && HasType(b, t)
    requires if IsArithmetic(op) then AllNumber(s) && AllNumber(t)
             else if IsLogical(op) then AllBoolean(s) && AllBoolean(t)
             else (AllNumber(s) && AllNumber(t)) || (AllString(s) && AllString(t))
    ensures IsLogical(op) ==> b.Bool?
    ensures !IsLogical(op) ==>
            (a.Num? && IsFinite(a.n) && b.Num? && IsFinite(b.n)) || (!IsArithmetic(op) && a.Str? && b.Str?)
  {
    if IsLogical(op) {
      BooleansAreBooleans(b, t);
    } else if AllNumber(s) && AllNumber(t) {
      NumbersAreNumbers(a, s);
      NumbersAreNumbers(b, t);
    } else {
      StringsAreStrings(a, s);
      StringsAreStrings(b, t);
    }
  }

  lemma {:induction false} ScalarOperand(v: Value, t: InputType)
    requires IsScalarType(t) && (HasType(v, t) || v == Undefined)
    ensures !v.Arr? && !v.Obj? && (v.Num? ==> IsFinite(v.n))
  {
    if HasType(v, t) {
      ScalarsAreScalars(v, t);
    }
  }

  /** Evaluating an accepted predicate on well-typed inputs stays sound at every level. */
  lemma {:induction false} EvaluationIsSound(ops: Arithmetic, p: Predicate, types: Environment,
      inputs: map<JsString, Value>, depth: nat)
    requires Lawful(ops) && Accepted(ops, p, types) && WellTyped(inputs, types)
    ensures Sound(ops, p, types, Evaluate(ops, p, inputs, depth), depth)
    decreases p
  {
    match p
    case Literal(_) =>
    case Input(_) =>
    case Property(base, name) =>
      EvaluationIsSound(ops, base, types, inputs, depth + 1);
      SoundProperty(ops, base, name, types, inputs, depth);
    case Index(base, index) =>
      EvaluationIsSound(ops, base, types, inputs, depth + 1);
      EvaluationIsSound(ops, index, types, inputs, depth + 1);
      SoundIndex(ops, base, index, types, inputs, depth);
    case Unary(op, operand) =>
      EvaluationIsSound(ops, operand, types, inputs, depth + 1);
      SoundUnary(ops, op, operand, types, inputs, depth);
    case Binary(op, left, right) =>
      EvaluationIsSound(ops, left, types, inputs, depth + 1);
      EvaluationIsSound(ops, right, types, inputs, depth + 1);
      SoundBinary(ops, op, left, right, types, inputs, depth);
  }

  lemma {:induction false} SoundProperty(ops: Arithmetic, base: Predicate, name: JsString, types: Environment,
      inputs: map<JsString, Value>, depth: nat)
    requires Lawful(ops) && Accepted(ops, Property(base, name), types)
    requires Sound(ops, base, types, Evaluate(ops, base, inputs, depth + 1), depth + 1)
    ensures Sound(ops, Property(base, name), types, Evaluate(ops, Property(base, name), inputs, depth), depth)
  {
    var value := Evaluate(ops, base, inputs, depth + 1);
    if value.Ok? {
      PropertyReads(ops, value.value, TypeOf(ops, base, types).value, name);
    }
  }

  lemma {:induction false} SoundIndex(ops: Arithmetic, base: Predicate, index: Predicate, types: Environment,
      inputs: map<JsString, Value>, depth: nat)
    requires Lawful(ops) && Accepted(ops, Index(base, index), types)
    requires Sound(ops, base, types, Evaluate(ops, base, inputs, depth + 1), depth + 1)
    requires Sound(ops, index, types, Evaluate(ops, index, inputs, depth + 1), depth + 1)
    ensures Sound(ops, Index(base, index), types, Evaluate(ops, Index(base, index), inputs, depth), depth)
  {
    var value, at := Evaluate(ops, base, inputs, depth + 1), Evaluate(ops, index, inputs, depth + 1);
    if value.Ok? && at.Ok? {
      IndexReads(ops, value.value, TypeOf(ops, base, types).value, at.value, TypeOf(ops, index, types).value);
    }
  }

  lemma {:induction false} SoundUnary(ops: Arithmetic, op: UnaryOperator, operand: Predicate, types: Environment,
      inputs: map<JsString, Value>, depth: nat)
    requires Accepted(ops, Unary(op, operand), types)
    requires Sound(ops, operand, types, Evaluate(ops, operand, inputs, depth + 1), depth + 1)
    ensures Sound(ops, Unary(op, operand), types, Evaluate(ops, Unary(op, operand), inputs, depth), depth)
  {
    var value := Evaluate(ops, operand, inputs, depth + 1);
    if value.Ok? {
      if op.Not? {
        BooleansAreBooleans(value.value, TypeOf(ops, operand, types).value);
      } else {
        NumbersAreNumbers(value.value, TypeOf(ops, operand, types).value);
      }
    }
  }

  lemma {:induction false} SoundBinary(ops: Arithmetic, op: BinaryOperator, left: Predicate, right: Predicate,
      types: Environment, inputs: map<JsString, Value>, depth: nat)
    requires Accepted(ops, Binary(op, left, right), types)
    requires Sound(ops, left, types, Evaluate(ops, left, inputs, depth + 1), depth + 1)
    requires Sound(ops, right, types, Evaluate(ops, right, inputs, depth + 1), depth + 1)
    ensures Sound(ops, Binary(op, left, right), types, Evaluate(ops, Binary(op, left, right), inputs, depth), depth)
  {
    var a, b := Evaluate(ops, left, inputs, depth + 1), Evaluate(ops, right, inputs, depth + 1);
    if a.Ok? {
      SoundAfterLeft(ops, op, left, right, types, a.value, b);
    }
  }

  lemma {:induction false} SoundAfterLeft(ops: Arithmetic, op: BinaryOperator, left: Predicate, right: Predicate,
      types: Environment, a: Value, b: Evaluation)
    requires OperandsFit(ops, op, left, right, types)
    requires ReadsAs(Ok(a), TypeOf(ops, left, types).value, MayBeMissing(ops, left, types))
    requires b.Ok? ==> ReadsAs(b, TypeOf(ops, right, types).value, MayBeMissing(ops, right, types))
    ensures var result := if IsLogical(op) && (!a.Bool? || a.b == op.Or?) then LeftDecides(a)
            else Combine(ops, op, a, b);
            if result.Ok? then HasType(result.value, if IsArithmetic(op) then NumberType else BooleanType)
            else result.error.NonFinite? || (b.Err? && result.error == b.error)
  {
    if IsLogical(op) {
      BooleansAreBooleans(a, TypeOf(ops, left, types).value);
    }
    if b.Ok? {
      SoundCombine(ops, op, left, right, types, a, b.value);
    }
  }

  /**
   * Type soundness: an accepted predicate of at most 100 levels evaluates on every well-typed
   * call to a boolean, or fails because an intermediate number is not finite.
   */
  lemma {:induction false} PredicateTypeSoundness(ops: Arithmetic, p: Predicate, types: Environment,
      inputs: map<JsString, Value>)
    requires Lawful(ops) && AcceptedPredicate(ops, p, types) && WellTyped(inputs, types)
    requires Levels(p) <= MAXIMUM_DEPTH
    ensures var result := EvaluatePredicate(ops, p, inputs); result.Ok? || result.error.NonFinite?
  {
    EvaluationIsSound(ops, p, types, inputs, 1);
    var result := Evaluate(ops, p, inputs, 1);
    if result.Ok? {
      BooleansAreBooleans(result.value, TypeOf(ops, p, types).value);
    }
  }

  /** A predicate with too many levels that evaluation always comes by fails on every call. */
  lemma {:induction false} TooDeepFails(ops: Arithmetic, p: Predicate, inputs: map<JsString, Value>, depth: nat)
    requires depth + AlwaysVisited(p) > MAXIMUM_DEPTH + 1
    ensures Evaluate(ops, p, inputs, depth).Err?
  {
    if depth <= MAXIMUM_DEPTH {
      match p
      case Literal(_) =>
      case Input(_) =>
      case Property(base, _) => TooDeepFails(ops, base, inputs, depth + 1);
      case Index(base, index) =>
        TooDeepFails(ops, if AlwaysVisited(base) < AlwaysVisited(index) then index else base, inputs, depth + 1);
      case Unary(_, operand) => TooDeepFails(ops, operand, inputs, depth + 1);
      case Binary(op, left, right) =>
        TooDeepFails(ops, if !IsLogical(op) && AlwaysVisited(left) < AlwaysVisited(right) then right else left, inputs,
          depth + 1);
    }
  }

  /**
   * Beyond the level bound: an accepted predicate with more than 100 levels that are always visited
   * fails on every well-typed call, by its depth or by an intermediate number that is not finite.
   */
  lemma {:induction false} DeepPredicatesFail(ops: Arithmetic, p: Predicate, types: Environment,
      inputs: map<JsString, Value>)
    requires Lawful(ops) && AcceptedPredicate(ops, p, types) && WellTyped(inputs, types)
    requires AlwaysVisited(p) > MAXIMUM_DEPTH
    ensures var result := EvaluatePredicate(ops, p, inputs); result == Err(TooDeep) || result == Err(NonFinite)
  {
    TooDeepFails(ops, p, inputs, 1);
    EvaluationIsSound(ops, p, types, inputs, 1);
  }

  /**
   * Between the two bounds, at any depth: where the right operand of `&&` or `||` is too deep, evaluation
   * has a result exactly on the calls on which the left operand is the boolean that settles it.
   */
  lemma {:induction false} DeepRightIsSkipped(ops: Arithmetic, op: BinaryOperator, left: Predicate, right: Predicate,
                                              inputs: map<JsString, Value>, depth: nat)
    requires IsLogical(op) && depth <= MAXIMUM_DEPTH && depth + AlwaysVisited(right) > MAXIMUM_DEPTH
    ensures Evaluate(ops, Binary(op, left, right), inputs, depth).Ok? <==>
            Evaluate(ops, left, inputs, depth + 1) == Ok(Bool(op.Or?))
  {
    TooDeepFails(ops, right, inputs, depth + 1);
    FailingRightIsSkipped(ops, op, left, right, inputs, depth);
  }

  /** The levels visited on a call lie between those always visited and all levels. */
  lemma {:induction false} VisitedWithinLevels(ops: Arithmetic, p: Predicate, inputs: map<JsString, Value>, depth: nat)
    ensures AlwaysVisited(p) <= VisitedLevels(ops, p, inputs, depth) <= Levels(p)
  {
    match p
    case Literal(_) =>
    case Input(_) =>
    case Property(base, _) => VisitedWithinLevels(ops, base, inputs, depth + 1);
    case Index(base, index) =>
      VisitedWithinLevels(ops, base, inputs, depth + 1);
      VisitedWithinLevels(ops, index, inputs, depth + 1);
    case Unary(_, operand) => VisitedWithinLevels(ops, operand, inputs, depth + 1);
    case Binary(_, left, right) =>
      VisitedWithinLevels(ops, left, inputs, depth + 1);
      VisitedWithinLevels(ops, right, inputs, depth + 1);
  }

  /** Evaluation that fails by its depth visits a level beyond the limit, and evaluation that visits one fails. */
  ghost predicate DepthShows(ops: Arithmetic, p: Predicate, inputs: map<JsString, Value>, depth: nat) {
    var result := Evaluate(ops, p, inputs, depth);
    var deep := depth + VisitedLevels(ops, p, inputs, depth) > MAXIMUM_DEPTH + 1;
    (result == Err(TooDeep) ==> deep) && (deep ==> result.Err?)
  }

  /** On every call and at every depth, whatever the predicate. */
  lemma {:induction false} DepthIsVisited(ops: Arithmetic, p: Predicate, inputs: map<JsString, Value>, depth: nat)
    ensures DepthShows(ops, p, inputs, depth)
  {
    match p
    case Literal(_) =>
    case Input(_) =>
    case Property(base, _) => DepthIsVisited(ops, base, inputs, depth + 1);
    case Index(base, index) =>
      DepthIsVisited(ops, base, inputs, depth + 1);
      DepthIsVisited(ops, index, inputs, depth + 1);
      DepthOfIndex(ops, base, index, inputs, depth);
    case Unary(_, operand) => DepthIsVisited(ops, operand, inputs, depth + 1);
    case Binary(op, left, right) =>
      DepthIsVisited(ops, left, inputs, depth + 1);
      DepthIsVisited(ops, right, inputs, depth + 1);
      DepthOfBinary(ops, op, left, right, inputs, depth);
  }

  lemma {:induction false} DepthOfIndex(ops: Arithmetic, base: Predicate, index: Predicate,
      inputs: map<JsString, Value>, depth: nat)
    requires DepthShows(ops, base, inputs, depth + 1) && DepthShows(ops, index, inputs, depth + 1)
    ensures DepthShows(ops, Index(base, index), inputs, depth)
  {
  }

  lemma {:induction false} DepthOfBinary(ops: Arithmetic, op: BinaryOperator, left: Predicate, right: Predicate,
                                         inputs: map<JsString, Value>, depth: nat)
    requires DepthShows(ops, left, inputs, depth + 1) && DepthShows(ops, right, inputs, depth + 1)
    ensures DepthShows(ops, Binary(op, left, right), inputs, depth)
  {
  }

  /**
   * The level bound is exact: an accepted predicate has a boolean result on a well-typed call exactly
   * when the call visits at most 100 levels, unless an intermediate number is not finite.
   */
  lemma {:induction false} LevelBoundIsExact(ops: Arithmetic, p: Predicate, types: Environment,
      inputs: map<JsString, Value>)
    requires Lawful(ops) && AcceptedPredicate(ops, p, types) && WellTyped(inputs, types)
    ensures var result := EvaluatePredicate(ops, p, inputs);
            var visited := VisitedLevels(ops, p, inputs, 1);
            && (result == Err(NonFinite) || (result.Ok? <==> visited <= MAXIMUM_DEPTH))
            && (result == Err(NonFinite) || (result == Err(TooDeep) <==> visited > MAXIMUM_DEPTH))
  {
    DepthIsVisited(ops, p, inputs, 1);
    EvaluationIsSound(ops, p, types, inputs, 1);
    var result := Evaluate(ops, p, inputs, 1);
    if result.Ok? {
      BooleansAreBooleans(result.value, TypeOf(ops, p, types).value);
    }
  }

  function Negations(n: nat): Predicate {
    if n == 0 then Literal(BoolScalar(true)) else Unary(Not, Negations(n - 1))
  }

  lemma {:induction false} NegationsAreAccepted(ops: Arithmetic, n: nat, types: Environment)
    ensures AcceptedPredicate(ops, Negations(n), types) && Levels(Negations(n)) == n + 1
  {
    if n > 0 {
      NegationsAreAccepted(ops, n - 1, types);
    }
  }

  lemma {:induction false} NegationsTooDeep(ops: Arithmetic, n: nat, inputs: map<JsString, Value>, depth: nat)
    requires depth + n > MAXIMUM_DEPTH
    ensures Evaluate(ops, Negations(n), inputs, depth) == Err(TooDeep)
  {
    if depth <= MAXIMUM_DEPTH {
      NegationsTooDeep(ops, n - 1, inputs, depth + 1);
    }
  }

  /** The level bound is needed: parsing admits 101 levels, one more than evaluation does. */
  lemma {:induction false} HundredAndOneLevelsFail(ops: Arithmetic, types: Environment, inputs: map<JsString, Value>)
    ensures AcceptedPredicate(ops, Negations(100), types) && Levels(Negations(100)) == MAX_DEFINITION_DEPTH + 1
    ensures EvaluatePredicate(ops, Negations(100), inputs) == Err(TooDeep)
  {
    NegationsAreAccepted(ops, 100, types);
    NegationsTooDeep(ops, 100, inputs, 1);
  }

  // ----- levels as lengths of chains

  function Operands(p: Predicate): seq<Predicate> {
    match p
    case Property(base, _) => [base]
    case Index(base, index) => [base, index]
    case Unary(_, operand) => [operand]
    case Binary(_, left, right) => [left, right]
    case _ => []
  }

  /** One inside the other, each an operand of the one before; right operands of `&&` and `||` only if wanted. */
  ghost predicate Chain(parts: seq<Predicate>, skipping: bool) {
    forall i :: 0 <= i < |parts| - 1 ==>
      && parts[i + 1] in Operands(parts[i])
      && (skipping && parts[i].Binary? && (parts[i].binary == And || parts[i].binary == Or) ==>
           parts[i + 1] == parts[i].left)
  }

  ghost predicate ChainFrom(p: Predicate, parts: seq<Predicate>, skipping: bool) {
    parts != [] && parts[0] == p && Chain(parts, skipping)
  }

  function LevelsOf(p: Predicate, skipping: bool): nat {
    if skipping then AlwaysVisited(p) else Levels(p)
  }

  lemma {:induction false} DeepestChain(p: Predicate, skipping: bool) returns (parts: seq<Predicate>)
    ensures ChainFrom(p, parts, skipping) && |parts| == LevelsOf(p, skipping)
  {
    if Operands(p) == [] {
      parts := [p];
    } else {
      var inner := Deepest(p, skipping);
      var rest := DeepestChain(inner, skipping);
      parts := [p] + rest;
    }
  }

  ghost function Deepest(p: Predicate, skipping: bool): (inner: Predicate)
    requires Operands(p) != []
    ensures inner < p && LevelsOf(p, skipping) == 1 + LevelsOf(inner, skipping)
    ensures inner in Operands(p) && (skipping && p.Binary? && IsLogical(p.binary) ==> inner == p.left)
  {
    match p
    case Property(base, _) => base
    case Unary(_, operand) => operand
    case Index(base, index) => if LevelsOf(base, skipping) < LevelsOf(index, skipping) then index else base
    case Binary(op, left, right) =>
      if !(skipping && IsLogical(op)) && LevelsOf(left, skipping) < LevelsOf(right, skipping) then right else left
  }

  lemma {:induction false} ChainsAreNoLonger(p: Predicate, parts: seq<Predicate>, skipping: bool)
    requires ChainFrom(p, parts, skipping)
    ensures |parts| <= LevelsOf(p, skipping)
    decreases |parts|
  {
    if |parts| > 1 {
      ChainsAreNoLonger(parts[1], parts[1..], skipping);
    }
  }

  /**
   * The levels of a predicate are the length of its longest chain of operands; those always visited, of
   * the longest one that takes no right operand of `&&` and `||`.
   */
  lemma {:induction false} LevelsAreLongestChains(p: Predicate)
    ensures exists parts :: ChainFrom(p, parts, false) && |parts| == Levels(p)
    ensures exists parts :: ChainFrom(p, parts, true) && |parts| == AlwaysVisited(p)
    ensures forall parts :: ChainFrom(p, parts, false) ==> |parts| <= Levels(p)
    ensures forall parts :: ChainFrom(p, parts, true) ==> |parts| <= AlwaysVisited(p)
  {
    var deepest := DeepestChain(p, false);
    var visited := DeepestChain(p, true);
    forall parts | ChainFrom(p, parts, false)
      ensures |parts| <= Levels(p)
    {
      ChainsAreNoLonger(p, parts, false);
    }
    forall parts | ChainFrom(p, parts, true)
      ensures |parts| <= AlwaysVisited(p)
    {
      ChainsAreNoLonger(p, parts, true);
    }
  }
}
