/**
 * Resolved input types, what it means for a value to inhabit one, and the validator that
 * decides it under a shared work budget.
 */
module InputTypes {
  import opened JsValues
  import opened Predicates

  datatype InputType =
    | StringType
    | BooleanType
    | NumberType
    | NullType
    | LiteralType(value: Scalar)
    | EnumType(values: seq<Scalar>)
    | ArrayType(item: InputType)
    | TupleType(items: seq<InputType>)
    | ObjectType(fields: seq<Field>)
    | UnionType(variants: seq<InputType>)

  datatype Field = Field(name: JsString, optional: bool, fieldType: InputType)

  /** Strict equality of a value with a scalar constant. */
  predicate PrimitiveEquals(value: Value, expected: Scalar) {
    if value.Num? && expected.NumberScalar? then NumberEquals(value.n, expected.n)
    else value == ScalarValue(expected)
  }

  predicate Declares(fields: seq<Field>, name: JsString) {
    exists i :: 0 <= i < |fields| && fields[i].name == name
  }

  ghost predicate HasType(value: Value, inputType: InputType)
    decreases inputType, 0
  {
    match inputType
    case StringType => value.Str?
    case BooleanType => value.Bool?
    case NumberType => value.Num? && IsFinite(value.n)
    case NullType => value.Null?
    case LiteralType(expected) => PrimitiveEquals(value, expected)
    case EnumType(values) => exists i :: 0 <= i < |values| && PrimitiveEquals(value, values[i])
    case ArrayType(item) => value.Arr? && forall i :: 0 <= i < |value.items| ==> HasType(value.items[i], item)
    case TupleType(items) =>
      value.Arr? && |value.items| == |items| && forall i :: 0 <= i < |items| ==> HasType(value.items[i], items[i])
    case ObjectType(fields) => value.Obj? && NoExtra(value.fields, fields) && FieldsFit(value.fields, fields)
    case UnionType(variants) => exists i :: 0 <= i < |variants| && HasType(value, variants[i])
  }

  predicate NoExtra(values: map<JsString, Value>, fields: seq<Field>) {
    forall name :: name in values ==> Declares(fields, name)
  }

  /** Every declared field that is present fits, and every absent one is optional. */
  ghost predicate FieldsFit(values: map<JsString, Value>, fields: seq<Field>)
    decreases fields, 1
  {
    forall i :: 0 <= i < |fields| ==>
      if fields[i].name in values then HasType(values[fields[i].name], fields[i].fieldType) else fields[i].optional
  }

  // ----- how much of a value validation visits

  /** How many validation steps there are, and on how many levels. */
  datatype Visit = Visit(count: nat, levels: nat)

  const NOTHING := Visit(0, 0)

  function Join(a: Visit, b: Visit): Visit {
    Visit(a.count + b.count, if a.levels < b.levels then b.levels else a.levels)
  }

  /** One of the parts validated in turn: whether validation goes on after it, and what it visits. */
  datatype Part = Part(goesOn: bool, visit: Visit)

  ghost predicate GoesOn(parts: seq<Part>, n: nat) {
    n <= |parts| && forall i :: 0 <= i < n ==> parts[i].goesOn
  }

  /** What the first `n` parts visit: those up to the first that stops validation. */
  ghost function FirstVisits(parts: seq<Part>, n: nat): Visit
    requires n <= |parts|
  {
    if n == 0 then NOTHING
    else Join(FirstVisits(parts, n - 1), if GoesOn(parts, n - 1) then parts[n - 1].visit else NOTHING)
  }

  /** What validating the value visits when no limit stops it: the value itself, and its parts one level below. */
  ghost function Visiting(value: Value, inputType: InputType): Visit
    decreases inputType, 2
  {
    var parts := PartsOf(value, inputType);
    var below := FirstVisits(parts, |parts|);
    Visit(1 + below.count, 1 + below.levels)
  }

  /** The parts validated in turn; none where the value itself already decides. */
  ghost function PartsOf(value: Value, inputType: InputType): seq<Part>
    decreases inputType, 1
  {
    match inputType
    case ArrayType(item) => if value.Arr? then ItemParts(value.items, item) else []
    case TupleType(items) => if value.Arr? && |value.items| == |items| then TupleParts(value.items, items) else []
    case ObjectType(fields) =>
      if value.Obj? && NoExtra(value.fields, fields) then FieldParts(value.fields, fields) else []
    case UnionType(variants) => VariantParts(value, variants)
    case _ => []
  }

  ghost function ItemParts(values: seq<Value>, item: InputType): seq<Part>
    decreases item, 3
  {
    seq(|values|, i requires 0 <= i < |values| => Part(HasType(values[i], item), Visiting(values[i], item)))
  }

  ghost function TupleParts(values: seq<Value>, items: seq<InputType>): seq<Part>
    requires |values| == |items|
    decreases items, 3
  {
    seq(|items|, i requires 0 <= i < |items| => Part(HasType(values[i], items[i]), Visiting(values[i], items[i])))
  }

  ghost function FieldParts(values: map<JsString, Value>, fields: seq<Field>): seq<Part>
    decreases fields, 3
  {
    seq(|fields|, i requires 0 <= i < |fields| =>
      if fields[i].name in values
      then Part(HasType(values[fields[i].name], fields[i].fieldType),
        Visiting(values[fields[i].name], fields[i].fieldType))
      else Part(fields[i].optional, NOTHING))
  }

  /** Validation goes on to the next variant while none fits. */
  ghost function VariantParts(value: Value, variants: seq<InputType>): seq<Part>
    decreases variants, 3
  {
    seq(|variants|, i requires 0 <= i < |variants| => Part(!HasType(value, variants[i]), Visiting(value, variants[i])))
  }

  /** Later parts only add visits, and none after a part that stops validation. */
  lemma {:induction false} VisitsGrow(parts: seq<Part>, n: nat)
    requires n <= |parts|
    ensures FirstVisits(parts, n).count <= FirstVisits(parts, |parts|).count
    ensures FirstVisits(parts, n).levels <= FirstVisits(parts, |parts|).levels
    ensures !GoesOn(parts, n) ==> FirstVisits(parts, n) == FirstVisits(parts, |parts|)
    decreases |parts| - n
  {
    if n < |parts| {
      VisitsGrow(parts, n + 1);
    }
  }

  const MAX_DEFINITION_DEPTH := 100
  const MAX_DEFINITION_NODES := 100_000

  datatype Verdict = Fits | Mismatch | Limit

  /** The work budget shared by everything one definition validates. */
  class Budget {
    var remaining: int

    constructor ()
      ensures remaining == MAX_DEFINITION_NODES
    {
      remaining := MAX_DEFINITION_NODES;
    }

    method Consume(depth: nat) returns (within: bool)
      modifies this
      ensures depth > MAX_DEFINITION_DEPTH ==> !within && remaining == old(remaining)
      ensures depth <= MAX_DEFINITION_DEPTH ==> remaining == old(remaining) - 1 && (within <==> remaining >= 0)
    {
      if depth > MAX_DEFINITION_DEPTH {
        return false;
      }
      remaining := remaining - 1;
      within := remaining >= 0;
    }
  }

  /**
   * The contract of every validation step. The verdict is exact; a limit is reported exactly when the
   * value has more to visit than the budget allows or visits a level beyond the depth limit; and a
   * step that decides charges one unit for every visit.
   */
  twostate predicate Decided(budget: Budget, value: Value, inputType: InputType, depth: nat, verdict: Verdict)
    reads budget
  {
    && (verdict.Fits? ==> HasType(value, inputType))
    && (verdict.Mismatch? ==> !HasType(value, inputType))
    && Spent(old(budget.remaining), budget.remaining, Visiting(value, inputType), depth, verdict)
  }

  predicate Spent(before: int, after: int, visit: Visit, depth: nat, verdict: Verdict) {
    && -1 <= after <= before
    && (verdict.Limit? <==> visit.count > before || depth + visit.levels > MAX_DEFINITION_DEPTH + 1)
    && (!verdict.Limit? ==> after == before - visit.count)
  }

  /** The same for the parts of a value, one level below its own charge. */
  twostate predicate PartsDecided(budget: Budget, parts: seq<Part>, depth: nat, verdict: Verdict)
    reads budget
  {
    Spent(old(budget.remaining), budget.remaining, FirstVisits(parts, |parts|), depth + 1, verdict)
  }

  /** After the first `n` parts, all of which let validation go on. */
  ghost predicate PartsDone(before: int, after: int, parts: seq<Part>, n: nat, depth: nat)
    requires n <= |parts|
  {
    GoesOn(parts, n) && after >= 0 && Spent(before, after, FirstVisits(parts, n), depth + 1, Fits)
  }

  /** One more part: a limit or a part that stops validation decides about all parts. */
  lemma {:induction false} NextPart(parts: seq<Part>, n: nat, depth: nat, before: int, middle: int, after: int,
      verdict: Verdict)
    requires n < |parts| && PartsDone(before, middle, parts, n, depth)
    requires Spent(middle, after, parts[n].visit, depth + 1, verdict)
    requires depth <= MAX_DEFINITION_DEPTH && (verdict.Limit? || after >= 0)
    ensures verdict.Limit? || !parts[n].goesOn ==> Spent(before, after, FirstVisits(parts, |parts|), depth + 1, verdict)
    ensures !verdict.Limit? && parts[n].goesOn ==> PartsDone(before, after, parts, n + 1, depth)
  {
    VisitsGrow(parts, n + 1);
    assert GoesOn(parts, n + 1) <==> parts[n].goesOn;
  }

  lemma {:induction false} OwnCharge(before: int, after: int, value: Value, inputType: InputType, depth: nat,
      verdict: Verdict)
    requires depth <= MAX_DEFINITION_DEPTH && before >= 1
    requires var parts := PartsOf(value, inputType);
             Spent(before - 1, after, FirstVisits(parts, |parts|), depth + 1, verdict)
    ensures Spent(before, after, Visiting(value, inputType), depth, verdict)
  {
  }

  lemma {:induction false} NoCharge(before: int, after: int, value: Value, inputType: InputType, depth: nat)
    requires depth > MAX_DEFINITION_DEPTH || before == 0
    requires -1 <= after <= before
    ensures Spent(before, after, Visiting(value, inputType), depth, Limit)
  {
  }

  method ValidateInputValue(value: Value, inputType: InputType, budget: Budget, depth: nat) returns (verdict: Verdict)
    requires budget.remaining >= 0
    modifies budget
    ensures Decided(budget, value, inputType, depth, verdict)
    ensures verdict.Limit? || budget.remaining >= 0
    decreases inputType, 3
  {
    var within := budget.Consume(depth);
    if !within {
      NoCharge(old(budget.remaining), budget.remaining, value, inputType, depth);
      return Limit;
    }
    verdict := ValidateCharged(value, inputType, budget, depth);
    OwnCharge(old(budget.remaining), budget.remaining, value, inputType, depth, verdict);
  }

  /** Validation once the value itself is charged for. */
  method ValidateCharged(value: Value, inputType: InputType, budget: Budget, depth: nat) returns (verdict: Verdict)
    requires budget.remaining >= 0 && depth <= MAX_DEFINITION_DEPTH
    modifies budget
    ensures verdict.Fits? ==> HasType(value, inputType)
    ensures verdict.Mismatch? ==> !HasType(value, inputType)
    ensures PartsDecided(budget, PartsOf(value, inputType), depth, verdict)
    ensures verdict.Limit? || budget.remaining >= 0
    decreases inputType, 2
  {
    match inputType {
      case StringType => verdict := if value.Str? then Fits else Mismatch;
      case BooleanType => verdict := if value.Bool? then Fits else Mismatch;
      case NumberType => verdict := if value.Num? && IsFinite(value.n) then Fits else Mismatch;
      case NullType => verdict := if value.Null? then Fits else Mismatch;
      case LiteralType(expected) => verdict := if PrimitiveEquals(value, expected) then Fits else Mismatch;
      case EnumType(values) =>
        verdict := if exists i :: 0 <= i < |values| && PrimitiveEquals(value, values[i]) then Fits else Mismatch;
      case ArrayType(item) =>
        if !value.Arr? {
          return Mismatch;
        }
        verdict := ValidateItems(value.items, item, budget, depth);
      case TupleType(items) =>
        if !value.Arr? || |value.items| != |items| {
          return Mismatch;
        }
        verdict := ValidateTuple(value.items, items, budget, depth);
      case ObjectType(fields) =>
        if !value.Obj? || exists name :: name in value.fields && !Declares(fields, name) {
          return Mismatch;
        }
        verdict := ValidateFields(value.fields, fields, budget, depth);
      case UnionType(variants) => verdict := ValidateUnion(value, variants, budget, depth);
    }
  }

  method ValidateItems(values: seq<Value>, item: InputType, budget: Budget, depth: nat) returns (verdict: Verdict)
    requires budget.remaining >= 0 && depth <= MAX_DEFINITION_DEPTH
    modifies budget
    ensures verdict.Fits? ==> forall i :: 0 <= i < |values| ==> HasType(values[i], item)
    ensures verdict.Mismatch? ==> exists i :: 0 <= i < |values| && !HasType(values[i], item)
    ensures PartsDecided(budget, ItemParts(values, item), depth, verdict)
    ensures verdict.Limit? || budget.remaining >= 0
    decreases item, 4
  {
    ghost var parts := ItemParts(values, item);
    for i := 0 to |values|
      invariant PartsDone(old(budget.remaining), budget.remaining, parts, i, depth)
    {
      ghost var middle := budget.remaining;
      verdict := ValidateInputValue(values[i], item, budget, depth + 1);
      NextPart(parts, i, depth, old(budget.remaining), middle, budget.remaining, verdict);
      if !verdict.Fits? {
        return;
      }
    }
    forall i | 0 <= i < |parts|
      ensures HasType(values[i], item)
    {
      assert parts[i].goesOn;
    }
    verdict := Fits;
  }

  method ValidateTuple(values: seq<Value>, items: seq<InputType>, budget: Budget, depth: nat) returns (verdict: Verdict)
    requires |values| == |items|
    requires budget.remaining >= 0 && depth <= MAX_DEFINITION_DEPTH
    modifies budget
    ensures verdict.Fits? ==> forall i :: 0 <= i < |items| ==> HasType(values[i], items[i])
    ensures verdict.Mismatch? ==> exists i :: 0 <= i < |items| && !HasType(values[i], items[i])
    ensures PartsDecided(budget, TupleParts(values, items), depth, verdict)
    ensures verdict.Limit? || budget.remaining >= 0
    decreases items, 2
  {
    ghost var parts := TupleParts(values, items);
    for i := 0 to |items|
      invariant PartsDone(old(budget.remaining), budget.remaining, parts, i, depth)
    {
      ghost var middle := budget.remaining;
      verdict := ValidateInputValue(values[i], items[i], budget, depth + 1);
      NextPart(parts, i, depth, old(budget.remaining), middle, budget.remaining, verdict);
      if !verdict.Fits? {
        return;
      }
    }
    forall i | 0 <= i < |parts|
      ensures HasType(values[i], items[i])
    {
      assert parts[i].goesOn;
    }
    verdict := Fits;
  }

  /** The first variant that fits decides; a mismatch of one variant is not an error of the union. */
  method ValidateUnion(value: Value, variants: seq<InputType>, budget: Budget, depth: nat) returns (verdict: Verdict)
    requires budget.remaining >= 0 && depth <= MAX_DEFINITION_DEPTH
    modifies budget
    ensures verdict.Fits? ==> exists i :: 0 <= i < |variants| && HasType(value, variants[i])
    ensures verdict.Mismatch? ==> forall i :: 0 <= i < |variants| ==> !HasType(value, variants[i])
    ensures PartsDecided(budget, VariantParts(value, variants), depth, verdict)
    ensures verdict.Limit? || budget.remaining >= 0
    decreases variants, 2
  {
    ghost var parts := VariantParts(value, variants);
    for i := 0 to |variants|
      invariant PartsDone(old(budget.remaining), budget.remaining, parts, i, depth)
    {
      ghost var middle := budget.remaining;
      verdict := ValidateInputValue(value, variants[i], budget, depth + 1);
      NextPart(parts, i, depth, old(budget.remaining), middle, budget.remaining, verdict);
      if !verdict.Mismatch? {
        return;
      }
    }
    forall i | 0 <= i < |parts|
      ensures !HasType(value, variants[i])
    {
      assert parts[i].goesOn;
    }
    verdict := Mismatch;
  }

  method ValidateFields(values: map<JsString, Value>, fields: seq<Field>, budget: Budget, depth: nat)
    returns (verdict: Verdict)
    requires budget.remaining >= 0 && depth <= MAX_DEFINITION_DEPTH
    modifies budget
    ensures verdict.Fits? ==> FieldsFit(values, fields)
    ensures verdict.Mismatch? ==> !FieldsFit(values, fields)
    ensures PartsDecided(budget, FieldParts(values, fields), depth, verdict)
    ensures verdict.Limit? || budget.remaining >= 0
    decreases fields, 2
  {
    ghost var parts := FieldParts(values, fields);
    for i := 0 to |fields|
      invariant PartsDone(old(budget.remaining), budget.remaining, parts, i, depth)
    {
      var field := fields[i];
      if field.name !in values {
        ghost var spent := budget.remaining;
        NextPart(parts, i, depth, old(budget.remaining), spent, spent, if field.optional then Fits else Mismatch);
        if !field.optional {
          return Mismatch;
        }
        continue;
      }
      ghost var middle := budget.remaining;
      verdict := ValidateInputValue(values[field.name], field.fieldType, budget, depth + 1);
      NextPart(parts, i, depth, old(budget.remaining), middle, budget.remaining, verdict);
      if !verdict.Fits? {
        return;
      }
    }
    forall i | 0 <= i < |parts|
      ensures if fields[i].name in values then HasType(values[fields[i].name], fields[i].fieldType)
              else fields[i].optional
    {
      assert parts[i].goesOn;
    }
    verdict := Fits;
  }
}
