/**
 * The static rules told from values: which types the rules ask for, and that an operator is allowed on
 * the types of its operands exactly when no values of these types make it an error.
 */
module TypeRules {
  import opened InputTypes
  import opened JsValues
  import opened Operators
  import opened Outcomes
  import opened Predicates
  import opened PredicateTypes

  // ----- every resolved type has values

  predicate DistinctFields(fields: seq<Field>) {
    forall i, j :: 0 <= i < j < |fields| ==> fields[i].name != fields[j].name
  }

  /**
   * What resolving a type guarantees: no empty union or enum, finite literals, enums of strings and
   * numbers, distinct fields.
   */
  predicate WellMade(t: InputType) {
    match t
    case LiteralType(v) => v.NumberScalar? ==> IsFinite(v.n)
    case EnumType(values) => values != [] && forall i :: 0 <= i < |values| ==> IsKey(values[i])
    case ArrayType(item) => WellMade(item)
    case TupleType(items) => forall i :: 0 <= i < |items| ==> WellMade(items[i])
    case ObjectType(fields) => DistinctFields(fields) && forall i :: 0 <= i < |fields| ==> WellMade(fields[i].fieldType)
    case UnionType(variants) => variants != [] && forall i :: 0 <= i < |variants| ==> WellMade(variants[i])
    case _ => true
  }

  /** A value of the type; objects have all their fields but the one named. */
  ghost function Sample(t: InputType, without: Option<JsString>): Value
    requires WellMade(t)
    decreases t, 0
  {
    match t
    case StringType => Str([])
    case BooleanType => Bool(true)
    case NumberType => Num(ZERO)
    case NullType => Null
    case LiteralType(v) => ScalarValue(v)
    case EnumType(values) => ScalarValue(values[0])
    case ArrayType(_) => Arr(0, [])
    case TupleType(items) => Arr(0, seq(|items|, i requires 0 <= i < |items| => Sample(items[i], None)))
    case ObjectType(fields) => Obj(0, SampleFields(fields, without))
    case UnionType(variants) => Sample(variants[0], None)
  }

  ghost function SampleFields(fields: seq<Field>, without: Option<JsString>): map<JsString, Value>
    requires forall i :: 0 <= i < |fields| ==> WellMade(fields[i].fieldType)
    decreases fields, 0
  {
    if fields == [] then map[]
    else
      var rest := SampleFields(fields[1..], without);
      if without == Some(fields[0].name) then rest else rest[fields[0].name := Sample(fields[0].fieldType, None)]
  }

  ghost predicate FieldSampled(field: Field, without: Option<JsString>, values: map<JsString, Value>)
    requires WellMade(field.fieldType)
  {
    if without == Some(field.name) then field.name !in values
    else field.name in values && values[field.name] == Sample(field.fieldType, None)
  }

  lemma {:induction false} SampleHasNoExtra(fields: seq<Field>, without: Option<JsString>)
    requires forall i :: 0 <= i < |fields| ==> WellMade(fields[i].fieldType)
    ensures NoExtra(SampleFields(fields, without), fields)
  {
    if fields != [] {
      var rest := fields[1..];
      SampleHasNoExtra(rest, without);
      forall name | name in SampleFields(fields, without) && name != fields[0].name
        ensures Declares(fields, name)
      {
        var i :| 0 <= i < |rest| && rest[i].name == name;
        assert fields[i + 1].name == name;
      }
    }
  }

  lemma {:induction false} SampleFieldsAre(fields: seq<Field>, without: Option<JsString>)
    requires DistinctFields(fields) && forall i :: 0 <= i < |fields| ==> WellMade(fields[i].fieldType)
    ensures forall i :: 0 <= i < |fields| ==> FieldSampled(fields[i], without, SampleFields(fields, without))
    ensures NoExtra(SampleFields(fields, without), fields)
  {
    SampleHasNoExtra(fields, without);
    if fields != [] {
      var rest := fields[1..];
      SampleFieldsAre(rest, without);
      SampleHasNoExtra(rest, without);
      forall i | 0 <= i < |fields|
        ensures FieldSampled(fields[i], without, SampleFields(fields, without))
      {
        if i == 0 {
          FirstIsNew(fields);
        } else {
          assert rest[i - 1] == fields[i] && FieldSampled(rest[i - 1], without, SampleFields(rest, without));
        }
      }
    }
  }

  lemma {:induction false} FirstIsNew(fields: seq<Field>)
    requires fields != [] && DistinctFields(fields)
    ensures !Declares(fields[1..], fields[0].name)
  {
  }

  lemma {:induction false} SampleHasType(t: InputType)
    requires WellMade(t)
    ensures HasType(Sample(t, None), t)
    decreases t
  {
    match t
    case TupleType(items) =>
      forall i | 0 <= i < |items|
        ensures HasType(Sample(items[i], None), items[i])
      {
        SampleHasType(items[i]);
      }
    case ObjectType(fields) =>
      SampleFieldsAre(fields, None);
      forall i | 0 <= i < |fields|
        ensures HasType(Sample(fields[i].fieldType, None), fields[i].fieldType)
      {
        SampleHasType(fields[i].fieldType);
      }
    case UnionType(variants) => SampleHasType(variants[0]);
    case EnumType(values) => assert PrimitiveEquals(ScalarValue(values[0]), values[0]);
    case _ =>
  }

  // ----- the primitive types, told from values

  lemma {:induction false} VariantValues(variants: seq<InputType>, i: nat)
    requires i < |variants|
    ensures forall v :: HasType(v, variants[i]) ==> HasType(v, UnionType(variants))
  {
  }

  lemma {:induction false} EnumValues(values: seq<Scalar>, i: nat)
    requires i < |values| && IsKey(values[i])
    ensures HasType(ScalarValue(values[i]), EnumType(values))
  {
    assert PrimitiveEquals(ScalarValue(values[i]), values[i]);
  }

  ghost predicate OnlyBooleans(t: InputType) {
    forall v :: HasType(v, t) ==> v.Bool?
  }

  ghost predicate OnlyNumbers(t: InputType) {
    forall v :: HasType(v, t) ==> v.Num? && IsFinite(v.n)
  }

  ghost predicate OnlyStrings(t: InputType) {
    forall v :: HasType(v, t) ==> v.Str?
  }

  ghost predicate OnlyScalars(t: InputType) {
    forall v :: HasType(v, t) ==> !v.Arr? && !v.Obj?
  }

  /** The rules ask for booleans exactly of the types all whose values are booleans. */
  lemma {:induction false} BooleanTypesAre(t: InputType)
    requires WellMade(t)
    ensures AllBoolean(t) <==> OnlyBooleans(t)
    decreases t
  {
    if AllBoolean(t) {
      forall v | HasType(v, t)
        ensures v.Bool?
      {
        BooleansAreBooleans(v, t);
      }
    } else {
      SampleHasType(t);
      match t
      case EnumType(values) => EnumValues(values, 0);
      case UnionType(variants) =>
        var i :| 0 <= i < |variants| && !AllBoolean(variants[i]);
        BooleanTypesAre(variants[i]);
        VariantValues(variants, i);
      case _ =>
    }
  }

  /** For numbers exactly of the types all whose values are finite numbers. */
  lemma {:induction false} NumberTypesAre(t: InputType)
    requires WellMade(t)
    ensures AllNumber(t) <==> OnlyNumbers(t)
    decreases t
  {
    if AllNumber(t) {
      forall v | HasType(v, t)
        ensures v.Num? && IsFinite(v.n)
      {
        NumbersAreNumbers(v, t);
      }
    } else {
      SampleHasType(t);
      match t
      case EnumType(values) =>
        var i :| 0 <= i < |values| && !FiniteNumber(values[i]);
        EnumValues(values, i);
      case UnionType(variants) =>
        var i :| 0 <= i < |variants| && !AllNumber(variants[i]);
        NumberTypesAre(variants[i]);
        VariantValues(variants, i);
      case _ =>
    }
  }

  /** For strings exactly of the types all whose values are strings. */
  lemma {:induction false} StringTypesAre(t: InputType)
    requires WellMade(t)
    ensures AllString(t) <==> OnlyStrings(t)
    decreases t
  {
    if AllString(t) {
      forall v | HasType(v, t)
        ensures v.Str?
      {
        StringsAreStrings(v, t);
      }
    } else {
      SampleHasType(t);
      match t
      case EnumType(values) =>
        var i :| 0 <= i < |values| && !values[i].StringScalar?;
        EnumValues(values, i);
      case UnionType(variants) =>
        var i :| 0 <= i < |variants| && !AllString(variants[i]);
        StringTypesAre(variants[i]);
        VariantValues(variants, i);
      case _ =>
    }
  }

  /** For scalars exactly of the types none of whose values is an array or an object. */
  lemma {:induction false} ScalarTypesAre(t: InputType)
    requires WellMade(t)
    ensures IsScalarType(t) <==> OnlyScalars(t)
    decreases t
  {
    if IsScalarType(t) {
      forall v | HasType(v, t)
        ensures !v.Arr? && !v.Obj?
      {
        ScalarsAreScalars(v, t);
      }
    } else {
      SampleHasType(t);
      match t
      case UnionType(variants) =>
        var i :| 0 <= i < |variants| && !IsScalarType(variants[i]);
        ScalarTypesAre(variants[i]);
        VariantValues(variants, i);
      case _ =>
    }
  }

  // ----- operators, told from values

  /** An accepted operand that is always present, of a type the resolver makes. */
  ghost predicate Operand(ops: Arithmetic, p: Predicate, types: Environment, t: InputType) {
    Accepted(ops, p, types) && Present(ops, p, types) && TypeOf(ops, p, types) == Some(t) && WellMade(t)
  }

  ghost predicate AllComparable(a: InputType, b: InputType) {
    forall x, y :: HasType(x, a) && HasType(y, b) ==> Comparable(x, y)
  }

  ghost predicate AllFinite(a: InputType, b: InputType) {
    forall x, y :: HasType(x, a) && HasType(y, b) ==> BothFinite(x, y)
  }

  ghost predicate AllTruths(a: InputType, b: InputType) {
    forall x, y :: HasType(x, a) && HasType(y, b) ==> x.Bool? && y.Bool?
  }

  lemma {:induction false} ComparablePairs(a: InputType, b: InputType, x: Value, y: Value)
    requires HasType(x, a) && HasType(y, b)
    ensures AllComparable(a, b) <==> (OnlyNumbers(a) && OnlyNumbers(b)) || (OnlyStrings(a) && OnlyStrings(b))
  {
    if AllComparable(a, b) {
      assert Comparable(x, y);
      assert forall v :: HasType(v, a) ==> Comparable(v, y);
      assert forall v :: HasType(v, b) ==> Comparable(x, v);
    }
  }

  lemma {:induction false} FinitePairs(a: InputType, b: InputType, x: Value, y: Value)
    requires HasType(x, a) && HasType(y, b)
    ensures AllFinite(a, b) <==> OnlyNumbers(a) && OnlyNumbers(b)
  {
    if AllFinite(a, b) {
      assert forall v :: HasType(v, a) ==> BothFinite(v, y);
      assert forall v :: HasType(v, b) ==> BothFinite(x, v);
    }
  }

  lemma {:induction false} TruthPairs(a: InputType, b: InputType, x: Value, y: Value)
    requires HasType(x, a) && HasType(y, b)
    ensures AllTruths(a, b) <==> OnlyBooleans(a) && OnlyBooleans(b)
  {
  }

  lemma {:induction false} ComparableTypesAre(a: InputType, b: InputType)
    requires WellMade(a) && WellMade(b)
    ensures AllComparable(a, b) <==> (AllNumber(a) && AllNumber(b)) || (AllString(a) && AllString(b))
  {
    SampleHasType(a);
    SampleHasType(b);
    ComparablePairs(a, b, Sample(a, None), Sample(b, None));
    NumberTypesAre(a);
    NumberTypesAre(b);
    StringTypesAre(a);
    StringTypesAre(b);
  }

  /** Ordering is allowed exactly where all values of the two types can be compared. */
  lemma {:induction false} OrderingRuleIsExact(ops: Arithmetic, op: BinaryOperator, left: Predicate, right: Predicate,
      types: Environment, a: InputType, b: InputType)
    requires IsOrdering(op) && Operand(ops, left, types, a) && Operand(ops, right, types, b)
    ensures Accepted(ops, Binary(op, left, right), types) <==> AllComparable(a, b)
  {
    ComparableTypesAre(a, b);
  }

  lemma {:induction false} FiniteTypesAre(a: InputType, b: InputType)
    requires WellMade(a) && WellMade(b)
    ensures AllFinite(a, b) <==> AllNumber(a) && AllNumber(b)
  {
    SampleHasType(a);
    SampleHasType(b);
    FinitePairs(a, b, Sample(a, None), Sample(b, None));
    NumberTypesAre(a);
    NumberTypesAre(b);
  }

  /** Arithmetic is allowed exactly where all values of the two types are finite numbers. */
  lemma {:induction false} ArithmeticRuleIsExact(ops: Arithmetic, op: BinaryOperator, left: Predicate, right: Predicate,
      types: Environment, a: InputType, b: InputType)
    requires IsArithmetic(op) && Operand(ops, left, types, a) && Operand(ops, right, types, b)
    ensures Accepted(ops, Binary(op, left, right), types) <==> AllFinite(a, b)
  {
    FiniteTypesAre(a, b);
  }

  lemma {:induction false} TruthTypesAre(a: InputType, b: InputType)
    requires WellMade(a) && WellMade(b)
    ensures AllTruths(a, b) <==> AllBoolean(a) && AllBoolean(b)
  {
    SampleHasType(a);
    SampleHasType(b);
    TruthPairs(a, b, Sample(a, None), Sample(b, None));
    BooleanTypesAre(a);
    BooleanTypesAre(b);
  }

  /** `&&` and `||` are allowed exactly where all values of the two types are booleans. */
  lemma {:induction false} LogicRuleIsExact(ops: Arithmetic, op: BinaryOperator, left: Predicate, right: Predicate,
      types: Environment, a: InputType, b: InputType)
    requires IsLogical(op) && Operand(ops, left, types, a) && Operand(ops, right, types, b)
    ensures Accepted(ops, Binary(op, left, right), types) <==> AllTruths(a, b)
  {
    TruthTypesAre(a, b);
  }

  /** Equality is allowed, of operands that may be absent too, exactly where no value is an array or an object. */
  lemma {:induction false} EqualityRuleIsExact(ops: Arithmetic, op: BinaryOperator, left: Predicate, right: Predicate,
      types: Environment, a: InputType, b: InputType)
    requires (op.Equal? || op.NotEqual?) && WellMade(a) && WellMade(b)
    requires Accepted(ops, left, types) && Accepted(ops, right, types)
    requires TypeOf(ops, left, types) == Some(a) && TypeOf(ops, right, types) == Some(b)
    ensures Accepted(ops, Binary(op, left, right), types) <==> OnlyScalars(a) && OnlyScalars(b)
  {
    ScalarTypesAre(a);
    ScalarTypesAre(b);
  }

  /** `!` is allowed exactly of booleans, the signs exactly of numbers. */
  lemma {:induction false} UnaryRuleIsExact(ops: Arithmetic, operand: Predicate, types: Environment, t: InputType)
    requires Operand(ops, operand, types, t)
    ensures Accepted(ops, Unary(Not, operand), types) <==> OnlyBooleans(t)
    ensures Accepted(ops, Unary(Plus, operand), types) <==> OnlyNumbers(t)
    ensures Accepted(ops, Unary(Minus, operand), types) <==> OnlyNumbers(t)
  {
    BooleanTypesAre(t);
    NumberTypesAre(t);
  }

  /** An accepted operand may stand as a constraint exactly when its values are booleans. */
  lemma {:induction false} PredicateRuleIsExact(ops: Arithmetic, p: Predicate, types: Environment, t: InputType)
    requires Operand(ops, p, types, t)
    ensures AcceptedPredicate(ops, p, types) <==> OnlyBooleans(t)
  {
    BooleanTypesAre(t);
  }

  /** Declared inputs, finite literals and properties the type has are allowed. */
  lemma {:induction false} LeavesAndPropertiesAreAllowed(ops: Arithmetic, types: Environment, name: JsString, v: Scalar,
      base: Predicate, t: InputType, property: JsString)
    ensures Accepted(ops, Input(name), types) <==> name in types
    ensures name in types ==> Present(ops, Input(name), types) && TypeOf(ops, Input(name), types) == Some(types[name])
    ensures Accepted(ops, Literal(v), types) <==> (v.NumberScalar? ==> IsFinite(v.n))
    ensures Present(ops, Literal(v), types) && TypeOf(ops, Literal(v), types) == Some(LiteralType(v))
    ensures Operand(ops, base, types, t) ==>
              (Accepted(ops, Property(base, property), types) <==> PropertyType(t, property).Some?)
  {
  }

  /** All other operators refuse operands that may be absent. */
  lemma {:induction false} AbsentOperandsAreRefused(ops: Arithmetic, op: BinaryOperator, left: Predicate,
      right: Predicate, types: Environment)
    requires !op.Equal? && !op.NotEqual?
    ensures MayBeMissing(ops, left, types) || MayBeMissing(ops, right, types) ==>
              !Accepted(ops, Binary(op, left, right), types)
  {
  }

  /** A property may be missing exactly when some value of the type reads as absent under it. */
  lemma {:induction false} MissingIsExact(ops: Arithmetic, t: InputType, name: JsString)
    requires Lawful(ops) && WellMade(t) && PropertyType(t, name).Some?
    ensures PropertyMayBeMissing(t, name) <==>
            exists v :: HasType(v, t) && ReadProperty(ops, v, name) == Ok(Undefined)
  {
    if PropertyMayBeMissing(t, name) {
      var v := MissingWitness(ops, t, name);
    }
    forall v | HasType(v, t) && ReadProperty(ops, v, name) == Ok(Undefined)
      ensures PropertyMayBeMissing(t, name)
    {
      PropertyReads(ops, v, t, name);
      NothingIsAbsent(PropertyType(t, name).value);
    }
  }

  lemma {:induction false} NothingIsAbsent(t: InputType)
    ensures !HasType(Undefined, t)
    decreases t
  {
    if t.UnionType? {
      forall i | 0 <= i < |t.variants|
        ensures !HasType(Undefined, t.variants[i])
      {
        NothingIsAbsent(t.variants[i]);
      }
    }
  }

  predicate Omittable(fields: seq<Field>, name: JsString) {
    FieldNamed(fields, name).Some? ==> FieldNamed(fields, name).value.optional
  }

  lemma {:induction false} ObjectWithout(fields: seq<Field>, name: JsString)
    requires WellMade(ObjectType(fields)) && Omittable(fields, name)
    ensures HasType(Sample(ObjectType(fields), Some(name)), ObjectType(fields))
    ensures name !in Sample(ObjectType(fields), Some(name)).fields
  {
    SampleFieldsAre(fields, Some(name));
    forall i | 0 <= i < |fields| && fields[i].name != name
      ensures HasType(Sample(fields[i].fieldType, None), fields[i].fieldType)
    {
      SampleHasType(fields[i].fieldType);
    }
    match FieldNamed(fields, name)
    case Some(field) =>
      var k :| 0 <= k < |fields| && fields[k] == field;
    case None =>
  }

  lemma {:induction false} MissingWitness(ops: Arithmetic, t: InputType, name: JsString) returns (v: Value)
    requires WellMade(t) && PropertyType(t, name).Some? && PropertyMayBeMissing(t, name)
    ensures HasType(v, t) && ReadProperty(ops, v, name) == Ok(Undefined)
    decreases t
  {
    if t.UnionType? {
      var i :| 0 <= i < |t.variants| && PropertyMayBeMissing(t.variants[i], name);
      var results := PropertyTypes(t.variants, name).value;
      assert PropertyType(t.variants[i], name) == Some(results[i]);
      v := MissingWitness(ops, t.variants[i], name);
    } else {
      v := Sample(t, Some(name));
      ObjectWithout(t.fields, name);
    }
  }

  // ----- property types, told from values

  /** Reading the property is never an error on values of the type, and gives a value for some of them. */
  ghost predicate Readable(ops: Arithmetic, t: InputType, name: JsString) {
    && (forall v :: HasType(v, t) ==> ReadProperty(ops, v, name).Ok?)
    && (exists v :: HasType(v, t) && ReadProperty(ops, v, name).Ok? && ReadProperty(ops, v, name) != Ok(Undefined))
  }

  /** A type has a property exactly when it can be read from its values; a union when all its variants have it. */
  lemma {:induction false} PropertiesAreExact(ops: Arithmetic, t: InputType, name: JsString)
    requires Lawful(ops) && WellMade(t)
    ensures !t.UnionType? ==> (PropertyType(t, name).Some? <==> Readable(ops, t, name))
    ensures t.UnionType? ==>
              (PropertyType(t, name).Some? <==>
                forall i :: 0 <= i < |t.variants| ==> PropertyType(t.variants[i], name).Some?)
  {
    if t.UnionType? {
      UnionProperties(t.variants, name);
    } else if PropertyType(t, name).Some? {
      PropertyIsReadable(ops, t, name);
    } else {
      OtherwiseUnreadable(ops, t, name);
    }
  }

  lemma {:induction false} UnionProperties(variants: seq<InputType>, name: JsString)
    ensures PropertyTypes(variants, name).Some? <==>
            forall i :: 0 <= i < |variants| ==> PropertyType(variants[i], name).Some?
  {
    if variants != [] {
      UnionProperties(variants[1..], name);
      assert forall i :: 1 <= i < |variants| ==> variants[i] == variants[1..][i - 1];
      assert forall i :: 0 <= i < |variants[1..]| ==> variants[1..][i] == variants[i + 1];
    }
  }

  lemma {:induction false} PropertyIsReadable(ops: Arithmetic, t: InputType, name: JsString)
    requires Lawful(ops) && WellMade(t) && !t.UnionType? && PropertyType(t, name).Some?
    ensures Readable(ops, t, name)
  {
    forall v | HasType(v, t)
      ensures ReadProperty(ops, v, name).Ok?
    {
      PropertyReads(ops, v, t, name);
    }
    var v := Sample(t, None);
    SampleHasType(t);
    PropertyReads(ops, v, t, name);
    if t.ObjectType? {
      SampleFieldsAre(t.fields, None);
      var field := FieldNamed(t.fields, name).value;
      var k :| 0 <= k < |t.fields| && t.fields[k] == field;
      assert FieldSampled(t.fields[k], None, v.fields);
      SampleHasType(field.fieldType);
      NothingIsAbsent(field.fieldType);
    } else {
      NothingIsAbsent(NumberType);
    }
  }

  lemma {:induction false} OtherwiseUnreadable(ops: Arithmetic, t: InputType, name: JsString)
    requires WellMade(t) && !t.UnionType? && PropertyType(t, name).None?
    ensures !Readable(ops, t, name)
  {
    SampleHasType(t);
    match t
    case ObjectType(fields) =>
      forall v | HasType(v, t)
        ensures ReadProperty(ops, v, name) == Ok(Undefined)
      {
      }
    case EnumType(values) =>
      if name == LENGTH {
        var i :| 0 <= i < |values| && !values[i].StringScalar?;
        EnumValues(values, i);
      }
    case _ =>
  }

  /** Any number reads an element of a list, which may be absent, and nothing from an object. */
  lemma {:induction false} NumbersReadElements(ops: Arithmetic, item: InputType, items: seq<InputType>,
      fields: seq<Field>)
    ensures IndexType(ops, ArrayType(item), NumberType) == Some(item)
    ensures IndexType(ops, TupleType(items), NumberType) == Some(UnionType(items))
    ensures IndexType(ops, StringType, NumberType) == Some(StringType)
    ensures IndexType(ops, ObjectType(fields), NumberType).None? && IndexType(ops, ArrayType(item), StringType).None?
    ensures IndexMayBeMissing(ops, ArrayType(item), NumberType) && IndexMayBeMissing(ops, TupleType(items), NumberType)
      && IndexMayBeMissing(ops, StringType, NumberType)
  {
  }

  /** A position reads its element of a tuple, if there is one, and any position one of an array or a text. */
  lemma {:induction false} PositionsReadElements(ops: Arithmetic, item: InputType, items: seq<InputType>, i: nat)
    requires i < MAXIMUM_ARRAY_INDEX
    ensures ElementType(ops, TupleType(items), StringScalar(Digits(i))) ==
            if i < |items| then Some(items[i]) else None
    ensures ElementType(ops, ArrayType(item), StringScalar(Digits(i))) == Some(item)
    ensures ElementType(ops, StringType, StringScalar(Digits(i))) == Some(StringType)
  {
    LengthIs();
    PositionTextIs(Digits(i), i);
    DigitsAreCanonical(i);
  }

  /** A name reads the type its field declares, and `length` the length of a list. */
  lemma {:induction false} NamesReadElements(ops: Arithmetic, item: InputType, items: seq<InputType>,
      fields: seq<Field>, key: JsString, i: nat)
    ensures ElementType(ops, ObjectType(fields), StringScalar(key)).Some? <==> Declares(fields, key)
    ensures DistinctFields(fields) && i < |fields| ==>
              ElementType(ops, ObjectType(fields), StringScalar(fields[i].name)) == Some(fields[i].fieldType)
    ensures var length := StringScalar(Text("length"));
            && ElementType(ops, ArrayType(item), length) == Some(NumberType)
            && ElementType(ops, TupleType(items), length) == Some(NumberType)
            && ElementType(ops, StringType, length) == Some(NumberType)
  {
    LengthIs();
  }

  // ----- element types, told from values

  /** Texts and finite numbers are keys, and a type stands for keys exactly when all its values are some of them. */
  lemma {:induction false} KeysAre(v: Scalar, values: seq<Scalar>)
    ensures KeysOf(LiteralType(v)) ==
            match v
            case StringScalar(_) => Some([v])
            case NumberScalar(n) => if IsFinite(n) then Some([v]) else None
            case _ => None
    ensures KeysOf(EnumType(values)).Some? <==> forall key :: key in values ==> KeysOf(LiteralType(key)).Some?
    ensures KeysOf(EnumType(values)).Some? ==> KeysOf(EnumType(values)) == Some(values)
    ensures KeysOf(NumberType).None? && KeysOf(StringType).None? && KeysOf(BooleanType).None? && KeysOf(NullType).None?
  {
    forall key
      ensures KeysOf(LiteralType(key)).Some? <==> IsKey(key)
    {
    }
  }

  ghost predicate HasPlaces(t: InputType) {
    t.ObjectType? || t.ArrayType? || t.TupleType? || t.StringType?
  }

  lemma {:induction false} ElementIsThere(ops: Arithmetic, t: InputType, key: Scalar, v: Value)
    requires IsKey(key) && HasPlaces(t) && HasType(v, t) && !KeyMayBeMissing(ops, t, key)
    ensures ReadIndex(ops, v, ScalarValue(key)) != Ok(Undefined)
  {
    match t
    case ObjectType(fields) =>
      NothingIsAbsent(FieldNamed(fields, KeyName(ops, key)).value.fieldType);
    case TupleType(items) =>
      if key != StringScalar(LENGTH) {
        NothingIsAbsent(items[KeyPosition(ops, key).value]);
      }
    case _ =>
  }

  /** An element of an object, an array, a tuple or a text may be absent exactly when some value has none. */
  lemma {:induction false} MissingElementIsExact(ops: Arithmetic, t: InputType, key: Scalar)
    requires WellMade(t) && IsKey(key) && HasPlaces(t)
    ensures KeyMayBeMissing(ops, t, key) <==>
            exists v :: HasType(v, t) && ReadIndex(ops, v, ScalarValue(key)) == Ok(Undefined)
  {
    if KeyMayBeMissing(ops, t, key) {
      var name := if t.ObjectType? then Some(KeyName(ops, key)) else None;
      var v := Sample(t, name);
      if t.ObjectType? {
        ObjectWithout(t.fields, KeyName(ops, key));
      } else {
        SampleHasType(t);
      }
      assert ReadIndex(ops, v, ScalarValue(key)) == Ok(Undefined);
    }
    forall v | HasType(v, t) && ReadIndex(ops, v, ScalarValue(key)) == Ok(Undefined)
      ensures KeyMayBeMissing(ops, t, key)
    {
      if !KeyMayBeMissing(ops, t, key) {
        ElementIsThere(ops, t, key, v);
      }
    }
  }
}
