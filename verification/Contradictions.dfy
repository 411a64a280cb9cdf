/**
 * The contradiction check over the constraints of one expression, and what acceptance and
 * rejection mean for the answers that satisfy those constraints.
 */
module Contradictions {
  import opened Json
  import opened JsValues
  import opened Outcomes
  import opened PredicateJson
  import opened Predicates
  import opened SemanticJson
  import Operators

  datatype ConstraintKind = Always | Never

  /** Constraints with the same overlap key are active together; one without a key is never active. */
  datatype Constraint = Constraint(kind: ConstraintKind, condition: Predicate, output: Scalar,
      overlapKey: Option<JsString>)

  const CONSTANT_TRUE: JsString := [99, 111, 110, 115, 116, 97, 110, 116, 58, 116, 114, 117, 101]

  /** A constraint with the key its predicate folds to; non-finite arithmetic and unpaired surrogates are refused. */
  function ParseConstraint(ops: Arithmetic, numerals: Numerals, kind: ConstraintKind, p: Predicate,
      output: Scalar): Option<Constraint>
  {
    var constant := Fold(ops, p);
    if constant.Rejected? || !Encodable(ScalarJson(output)) then None
    else if IsFalse(constant) then Some(Constraint(kind, p, output, None))
    else if IsTrue(constant) then Some(Constraint(kind, p, output, Some(CONSTANT_TRUE)))
    else match SemanticJsonString(numerals, Encoded(p))
      case None => None
      case Some(key) => Some(Constraint(kind, p, output, Some(key)))
  }

  ghost predicate Parsed(ops: Arithmetic, numerals: Numerals, c: Constraint) {
    ParseConstraint(ops, numerals, c.kind, c.condition, c.output) == Some(c)
  }

  function OutputKey(numerals: Numerals, c: Constraint): JsString
    requires Encodable(ScalarJson(c.output))
  {
    SemanticJsonString(numerals, ScalarJson(c.output)).value
  }

  ghost predicate Encodables(constraints: seq<Constraint>) {
    forall i :: 0 <= i < |constraints| ==> Encodable(ScalarJson(constraints[i].output))
  }

  /** Two constraints of one key: always with different outputs, or always and never with the same. */
  predicate Conflict(numerals: Numerals, a: Constraint, b: Constraint)
    requires Encodable(ScalarJson(a.output)) && Encodable(ScalarJson(b.output))
  {
    && a.overlapKey.Some? && a.overlapKey == b.overlapKey
    && (if a.kind == b.kind then a.kind.Always? && OutputKey(numerals, a) != OutputKey(numerals, b)
        else OutputKey(numerals, a) == OutputKey(numerals, b))
  }

  ghost predicate NoConflicts(numerals: Numerals, constraints: seq<Constraint>)
    requires Encodables(constraints)
  {
    forall i, j :: 0 <= i < j < |constraints| ==> !Conflict(numerals, constraints[i], constraints[j])
  }

  type AlwaysTable = map<JsString, JsString>
  type NeverTable = map<JsString, set<JsString>>

  predicate InNever(never: NeverTable, key: JsString, output: JsString) {
    key in never && output in never[key]
  }

  /** The tables hold exactly the keys and outputs of the constraints seen so far. */
  ghost predicate Recorded(numerals: Numerals, seen: seq<Constraint>, always: AlwaysTable, never: NeverTable)
    requires Encodables(seen)
  {
    && (forall i :: 0 <= i < |seen| && seen[i].overlapKey.Some? ==> IsRecorded(numerals, seen[i], always, never))
    && (forall key :: key in always ==> HasAlways(numerals, seen, key, always[key]))
    && (forall key, output :: InNever(never, key, output) ==> HasNever(numerals, seen, key, output))
  }

  ghost predicate IsRecorded(numerals: Numerals, c: Constraint, always: AlwaysTable, never: NeverTable)
    requires Encodable(ScalarJson(c.output)) && c.overlapKey.Some?
  {
    var key := c.overlapKey.value;
    if c.kind.Always? then key in always && always[key] == OutputKey(numerals, c)
    else InNever(never, key, OutputKey(numerals, c))
  }

  ghost predicate HasAlways(numerals: Numerals, seen: seq<Constraint>, key: JsString, output: JsString)
    requires Encodables(seen)
  {
    exists i :: 0 <= i < |seen| && seen[i].kind.Always? && seen[i].overlapKey == Some(key)
      && OutputKey(numerals, seen[i]) == output
  }

  ghost predicate HasNever(numerals: Numerals, seen: seq<Constraint>, key: JsString, output: JsString)
    requires Encodables(seen)
  {
    exists i :: 0 <= i < |seen| && seen[i].kind.Never? && seen[i].overlapKey == Some(key)
      && OutputKey(numerals, seen[i]) == output
  }

  /** What the check looks up for the next constraint. */
  predicate Clashes(always: AlwaysTable, never: NeverTable, kind: ConstraintKind, key: JsString, output: JsString) {
    if kind.Always? then (key in always && always[key] != output) || InNever(never, key, output)
    else key in always && always[key] == output
  }

  /** The lookup finds a clash exactly when some earlier constraint conflicts with the next one. */
  lemma {:induction false} ClashMeansConflict(numerals: Numerals, seen: seq<Constraint>, always: AlwaysTable,
      never: NeverTable, c: Constraint)
    requires Encodables(seen) && Recorded(numerals, seen, always, never)
    requires Encodable(ScalarJson(c.output)) && c.overlapKey.Some?
    ensures Clashes(always, never, c.kind, c.overlapKey.value, OutputKey(numerals, c)) <==>
            exists i :: 0 <= i < |seen| && Conflict(numerals, seen[i], c)
  {
    var key, output := c.overlapKey.value, OutputKey(numerals, c);
    if Clashes(always, never, c.kind, key, output) {
      if key in always && (c.kind.Never? || always[key] != output) {
        assert HasAlways(numerals, seen, key, always[key]);
      } else {
        assert HasNever(numerals, seen, key, output);
      }
    }
    forall i | 0 <= i < |seen| && Conflict(numerals, seen[i], c)
      ensures Clashes(always, never, c.kind, key, output)
    {
      assert IsRecorded(numerals, seen[i], always, never);
    }
  }

  function WithNever(never: NeverTable, key: JsString, output: JsString): NeverTable {
    never[key := (if key in never then never[key] else {}) + {output}]
  }

  lemma {:induction false} RecordingAlways(numerals: Numerals, seen: seq<Constraint>, always: AlwaysTable,
      never: NeverTable, c: Constraint)
    requires Encodables(seen) && Recorded(numerals, seen, always, never)
    requires Encodable(ScalarJson(c.output)) && c.overlapKey.Some? && c.kind.Always?
    requires !Clashes(always, never, c.kind, c.overlapKey.value, OutputKey(numerals, c))
    ensures Encodables(seen + [c])
    ensures Recorded(numerals, seen + [c], always[c.overlapKey.value := OutputKey(numerals, c)], never)
  {
    var key := c.overlapKey.value;
    var table := always[key := OutputKey(numerals, c)];
    SeenGrows(numerals, seen, c);
    forall i | 0 <= i < |seen + [c]| && (seen + [c])[i].overlapKey.Some?
      ensures IsRecorded(numerals, (seen + [c])[i], table, never)
    {
      if i < |seen| { assert IsRecorded(numerals, seen[i], always, never); }
    }
  }

  lemma {:induction false} RecordingNever(numerals: Numerals, seen: seq<Constraint>, always: AlwaysTable,
      never: NeverTable, c: Constraint)
    requires Encodables(seen) && Recorded(numerals, seen, always, never)
    requires Encodable(ScalarJson(c.output)) && c.overlapKey.Some? && c.kind.Never?
    ensures Encodables(seen + [c])
    ensures Recorded(numerals, seen + [c], always, WithNever(never, c.overlapKey.value, OutputKey(numerals, c)))
  {
    var key, output := c.overlapKey.value, OutputKey(numerals, c);
    var table := WithNever(never, key, output);
    SeenGrows(numerals, seen, c);
    forall i | 0 <= i < |seen + [c]| && (seen + [c])[i].overlapKey.Some?
      ensures IsRecorded(numerals, (seen + [c])[i], always, table)
    {
      if i < |seen| { assert IsRecorded(numerals, seen[i], always, never); }
    }
    forall k, o | InNever(table, k, o)
      ensures HasNever(numerals, seen + [c], k, o)
    {
      assert (k == key && o == output) || InNever(never, k, o);
    }
  }

  lemma {:induction false} SeenGrows(numerals: Numerals, seen: seq<Constraint>, c: Constraint)
    requires Encodables(seen) && Encodable(ScalarJson(c.output))
    ensures Encodables(seen + [c])
    ensures forall key, output ::
            HasAlways(numerals, seen, key, output) ==> HasAlways(numerals, seen + [c], key, output)
    ensures forall key, output :: HasNever(numerals, seen, key, output) ==> HasNever(numerals, seen + [c], key, output)
    ensures c.overlapKey.Some? && c.kind.Always? ==>
            HasAlways(numerals, seen + [c], c.overlapKey.value, OutputKey(numerals, c))
    ensures c.overlapKey.Some? && c.kind.Never? ==>
            HasNever(numerals, seen + [c], c.overlapKey.value, OutputKey(numerals, c))
  {
    var more := seen + [c];
    assert more[|seen|] == c && forall i :: 0 <= i < |seen| ==> more[i] == seen[i];
  }

  lemma {:induction false} NoConflictsGrow(numerals: Numerals, seen: seq<Constraint>, c: Constraint)
    requires Encodables(seen) && Encodables(seen + [c]) && Encodable(ScalarJson(c.output))
    requires NoConflicts(numerals, seen) && !exists i :: 0 <= i < |seen| && Conflict(numerals, seen[i], c)
    ensures NoConflicts(numerals, seen + [c])
  {
    var more := seen + [c];
    forall i, j | 0 <= i < j < |more|
      ensures !Conflict(numerals, more[i], more[j])
    {
      assert more[i] == seen[i] && (j < |seen| ==> more[j] == seen[j]);
    }
  }

  lemma {:induction false} RecordingNothing(numerals: Numerals, seen: seq<Constraint>, always: AlwaysTable,
      never: NeverTable, c: Constraint)
    requires Encodables(seen) && Recorded(numerals, seen, always, never)
    requires Encodable(ScalarJson(c.output)) && c.overlapKey.None?
    ensures Encodables(seen + [c]) && Recorded(numerals, seen + [c], always, never)
  {
    SeenGrows(numerals, seen, c);
  }

  /** Looks the next constraint up in the tables and, when it clashes with none before it, records it. */
  method CheckNext(numerals: Numerals, ghost seen: seq<Constraint>, always: AlwaysTable, never: NeverTable,
      c: Constraint)
    returns (clash: bool, alwaysByPredicate: AlwaysTable, neverByPredicate: NeverTable)
    requires Encodables(seen) && Recorded(numerals, seen, always, never) && Encodable(ScalarJson(c.output))
    ensures clash <==> exists i :: 0 <= i < |seen| && Conflict(numerals, seen[i], c)
    ensures !clash ==> Encodables(seen + [c]) && Recorded(numerals, seen + [c], alwaysByPredicate, neverByPredicate)
  {
    alwaysByPredicate, neverByPredicate := always, never;
    if c.overlapKey.None? {
      RecordingNothing(numerals, seen, always, never, c);
      return false, always, never;
    }
    var key := c.overlapKey.value;
    var outputKey := OutputKey(numerals, c);
    ClashMeansConflict(numerals, seen, always, never, c);
    clash := Clashes(always, never, c.kind, key, outputKey);
    if clash {
      return;
    }
    if c.kind.Always? {
      RecordingAlways(numerals, seen, always, never, c);
      alwaysByPredicate := always[key := outputKey];
    } else {
      RecordingNever(numerals, seen, always, never, c);
      neverByPredicate := WithNever(never, key, outputKey);
    }
  }

  /**
   * The check passes exactly when no two constraints conflict, whatever their order; otherwise it
   * reports the first constraint that conflicts with an earlier one.
   */
  method ValidateConstraintContradictions(numerals: Numerals, constraints: seq<Constraint>)
    returns (failure: Option<nat>)
    requires Encodables(constraints)
    ensures failure.None? <==> NoConflicts(numerals, constraints)
    ensures failure.Some? ==>
              && failure.value < |constraints|
              && (exists i :: 0 <= i < failure.value && Conflict(numerals, constraints[i], constraints[failure.value]))
              && NoConflicts(numerals, constraints[..failure.value])
  {
    var alwaysByPredicate: AlwaysTable := map[];
    var neverByPredicate: NeverTable := map[];
    for n := 0 to |constraints|
      invariant Recorded(numerals, constraints[..n], alwaysByPredicate, neverByPredicate)
      invariant NoConflicts(numerals, constraints[..n])
    {
      ghost var seen := constraints[..n];
      assert constraints[..n + 1] == seen + [constraints[n]];
      var clash;
      clash, alwaysByPredicate, neverByPredicate :=
        CheckNext(numerals, seen, alwaysByPredicate, neverByPredicate, constraints[n]);
      if clash {
        ghost var i :| 0 <= i < |seen| && Conflict(numerals, seen[i], constraints[n]);
        assert Conflict(numerals, constraints[i], constraints[n]);
        return Some(n);
      }
      NoConflictsGrow(numerals, seen, constraints[n]);
    }
    assert constraints[..|constraints|] == constraints;
    failure := None;
  }

  // ----- what conflicts mean for answers

  /** The answer strictly equals the output of an always, or does not strictly equal that of a never. */
  predicate Satisfies(answer: Scalar, c: Constraint) {
    StrictEqual(ScalarValue(answer), ScalarValue(c.output)) == Ok(Bool(c.kind.Always?))
  }

  /** An answer satisfies an always when it is the same value as the output, and a never when it is not. */
  lemma {:induction false} SatisfactionMeans(answer: Scalar, c: Constraint)
    requires Encodable(ScalarJson(answer)) && Encodable(ScalarJson(c.output))
    ensures Satisfies(answer, c) <==> (Operators.Same(ScalarValue(answer), ScalarValue(c.output)) <==> c.kind.Always?)
  {
    if answer.NumberScalar? && c.output.NumberScalar? {
      ComparisonIsNumeric(answer.n, c.output.n);
    }
  }

  /** A constraint is refused exactly for a rejected predicate or an output or predicate that cannot be encoded. */
  lemma {:induction false} RefusedExactly(ops: Arithmetic, numerals: Numerals, kind: ConstraintKind, p: Predicate,
      output: Scalar)
    ensures var constraint := ParseConstraint(ops, numerals, kind, p, output);
            var constant := Fold(ops, p);
            && (constraint.None? <==>
                 || constant.Rejected? || !Encodable(ScalarJson(output))
                 || (!IsTrue(constant) && !IsFalse(constant) && !Encodable(Encoded(p))))
            && (constraint.Some? ==>
                 && constraint.value.kind == kind && constraint.value.condition == p
                    && constraint.value.output == output
                 && (constraint.value.overlapKey.None? <==> IsFalse(constant))
                 && (constraint.value.overlapKey == Some(CONSTANT_TRUE) <== IsTrue(constant)))
  {
  }

  lemma {:induction false} KeysIdentifyOutputs(numerals: Numerals, a: Constraint, b: Constraint)
    requires Faithful(numerals) && Encodable(ScalarJson(a.output)) && Encodable(ScalarJson(b.output))
    ensures OutputKey(numerals, a) == OutputKey(numerals, b) <==> a.output == b.output
  {
    EncodingIsCanonical(numerals, ScalarJson(a.output), ScalarJson(b.output));
  }

  /** An encoding begins with a bracket, so it is never the key of the constant predicates. */
  lemma {:induction false} EncodingIsNotConstantKey(numerals: Numerals, v: Json)
    requires Encodable(v)
    ensures SemanticJsonString(numerals, v) != Some(CONSTANT_TRUE)
  {
    assert SemanticJsonString(numerals, v).value[0] == 91;
  }

  /**
   * Constraints share a key exactly when their predicates are the same or both fold to true, and
   * then neither is active on a call for which the other is not, unless its evaluation fails.
   */
  lemma {:induction false} SharedKeyMeansSharedActivity(ops: Arithmetic, numerals: Numerals, a: Constraint,
      b: Constraint)
    requires Faithful(numerals) && Parsed(ops, numerals, a) && Parsed(ops, numerals, b) && a.overlapKey.Some?
    ensures a.overlapKey == b.overlapKey <==>
            a.condition == b.condition || (IsTrue(Fold(ops, a.condition)) && IsTrue(Fold(ops, b.condition)))
    ensures a.overlapKey == b.overlapKey ==> forall inputs ::
              EvaluatePredicate(ops, a.condition, inputs) == Ok(true) ==>
                EvaluatePredicate(ops, b.condition, inputs) != Ok(false)
  {
    KeysIdentifyPredicates(ops, numerals, a, b);
    forall inputs | IsTrue(Fold(ops, b.condition))
      ensures EvaluatePredicate(ops, b.condition, inputs) != Ok(false)
    {
      TrueIsNeverInactive(ops, b.condition, inputs);
    }
  }

  lemma {:induction false} KeysIdentifyPredicates(ops: Arithmetic, numerals: Numerals, a: Constraint, b: Constraint)
    requires Faithful(numerals) && Parsed(ops, numerals, a) && Parsed(ops, numerals, b) && a.overlapKey.Some?
    ensures a.overlapKey == b.overlapKey <==>
            a.condition == b.condition || (IsTrue(Fold(ops, a.condition)) && IsTrue(Fold(ops, b.condition)))
  {
    var v, w := Encoded(a.condition), Encoded(b.condition);
    if Encodable(v) { EncodingIsNotConstantKey(numerals, v); }
    if Encodable(w) { EncodingIsNotConstantKey(numerals, w); }
    if Encodable(v) && Encodable(w) && SemanticJsonString(numerals, v) == SemanticJsonString(numerals, w) {
      SameEncodingMeansSameNodes(numerals, v, w);
      SameNodesMeanSameValues(v, w);
      FormsIdentifyPredicates(a.condition, b.condition);
    }
  }

  /** A constraint without a key is active for no call. */
  lemma {:induction false} NoKeyMeansNeverActive(ops: Arithmetic, numerals: Numerals, c: Constraint,
      inputs: map<JsString, Value>)
    requires Parsed(ops, numerals, c) && c.overlapKey.None?
    ensures EvaluatePredicate(ops, c.condition, inputs) != Ok(true)
  {
    FalseIsNeverActive(ops, c.condition, inputs);
  }

  predicate SameKey(a: Constraint, b: Constraint) {
    a.overlapKey.Some? && a.overlapKey == b.overlapKey
  }

  /** A conflict, stated on the outputs themselves. */
  predicate Opposed(a: Constraint, b: Constraint) {
    SameKey(a, b) && (if a.kind == b.kind then a.kind.Always? && a.output != b.output else a.output == b.output)
  }

  lemma {:induction false} ConflictMeansOpposed(numerals: Numerals, a: Constraint, b: Constraint)
    requires Faithful(numerals) && Encodable(ScalarJson(a.output)) && Encodable(ScalarJson(b.output))
    ensures Conflict(numerals, a, b) <==> Opposed(a, b)
  {
    KeysIdentifyOutputs(numerals, a, b);
  }

  ghost predicate Reconcilable(a: Constraint, b: Constraint) {
    exists answer :: Satisfies(answer, a) && Satisfies(answer, b)
  }

  predicate BothZero(a: Constraint, b: Constraint) {
    a.output.NumberScalar? && b.output.NumberScalar? && IsZero(a.output.n) && IsZero(b.output.n)
  }

  /** One output is zero and the other negative zero: different by encoding, equal by strict equality. */
  predicate DifferentZeros(a: Constraint, b: Constraint) {
    BothZero(a, b) && a.output != b.output
  }

  /** A conflict that is none by strict equality: always zero and always negative zero. */
  predicate Invented(a: Constraint, b: Constraint) {
    SameKey(a, b) && DifferentZeros(a, b) && a.kind.Always? && b.kind.Always?
  }

  /** A conflict by strict equality that is overlooked: always one zero and never the other. */
  predicate Overlooked(a: Constraint, b: Constraint) {
    SameKey(a, b) && DifferentZeros(a, b) && a.kind != b.kind
  }

  lemma {:induction false} OpposedAreIrreconcilable(a: Constraint, b: Constraint)
    requires Opposed(a, b) && Encodable(ScalarJson(a.output)) && Encodable(ScalarJson(b.output))
    ensures Reconcilable(a, b) <==> a.kind.Always? && b.kind.Always? && BothZero(a, b)
  {
    if a.kind.Always? && b.kind.Always? && BothZero(a, b) {
      assert Satisfies(NumberScalar(ZERO), a) && Satisfies(NumberScalar(ZERO), b);
    }
  }

  /**
   * No answer satisfies both constraints of a conflict, with one exception: two always constraints
   * whose outputs are the two zeros, which have different keys and yet are strictly equal.
   */
  lemma {:induction false} ConflictIsUnsatisfiableExactly(numerals: Numerals, a: Constraint, b: Constraint)
    requires Faithful(numerals) && Encodable(ScalarJson(a.output)) && Encodable(ScalarJson(b.output))
    requires Conflict(numerals, a, b)
    ensures Reconcilable(a, b) <==> a.kind.Always? && b.kind.Always? && BothZero(a, b)
  {
    ConflictMeansOpposed(numerals, a, b);
    OpposedAreIrreconcilable(a, b);
  }

  /** Some two constraints conflict, the earlier first. */
  lemma {:induction false} FindConflict(numerals: Numerals, constraints: seq<Constraint>) returns (i: nat, j: nat)
    requires Encodables(constraints) && !NoConflicts(numerals, constraints)
    ensures i < j < |constraints| && Conflict(numerals, constraints[i], constraints[j])
  {
    i, j :| 0 <= i < j < |constraints| && Conflict(numerals, constraints[i], constraints[j]);
  }

  /**
   * Every rejection exhibits two conflicting constraints, active together unless an evaluation fails.
   * No answer satisfies both, unless all conflicts of the list are between two always constraints
   * whose outputs are the two zeros.
   */
  lemma {:induction false} RejectionIsGenuine(ops: Arithmetic, numerals: Numerals, constraints: seq<Constraint>)
    returns (i: nat, j: nat)
    requires Faithful(numerals) && Encodables(constraints) && !NoConflicts(numerals, constraints)
    requires forall i :: 0 <= i < |constraints| ==> Parsed(ops, numerals, constraints[i])
    ensures i < j < |constraints| && Conflict(numerals, constraints[i], constraints[j])
    ensures forall inputs :: EvaluatePredicate(ops, constraints[i].condition, inputs) == Ok(true) ==>
                               EvaluatePredicate(ops, constraints[j].condition, inputs) != Ok(false)
    ensures Reconcilable(constraints[i], constraints[j]) ==>
              forall k, l :: 0 <= k < l < |constraints| && Conflict(numerals, constraints[k], constraints[l]) ==>
                               Invented(constraints[k], constraints[l])
  {
    i, j := FindConflict(numerals, constraints);
    if k, l :|
      && 0 <= k < l < |constraints|
      && Conflict(numerals, constraints[k], constraints[l]) && !Invented(constraints[k], constraints[l])
    {
      i, j := k, l;
    }
    ConflictMeansOpposed(numerals, constraints[i], constraints[j]);
    OpposedAreIrreconcilable(constraints[i], constraints[j]);
    SharedKeyMeansSharedActivity(ops, numerals, constraints[i], constraints[j]);
  }

  ghost predicate Satisfiable(constraints: seq<Constraint>, key: JsString) {
    exists answer :: SatisfiesAll(answer, constraints, key)
  }

  ghost predicate SatisfiesAll(answer: Scalar, constraints: seq<Constraint>, key: JsString) {
    forall i :: 0 <= i < |constraints| && constraints[i].overlapKey == Some(key) ==> Satisfies(answer, constraints[i])
  }

  function Longest(constraints: seq<Constraint>): nat {
    if constraints == [] then 0
    else
      var rest := Longest(constraints[1..]);
      if constraints[0].output.StringScalar? && |constraints[0].output.s| > rest then |constraints[0].output.s|
      else rest
  }

  lemma {:induction false} LongestBounds(constraints: seq<Constraint>, i: nat)
    requires i < |constraints| && constraints[i].output.StringScalar?
    ensures |constraints[i].output.s| <= Longest(constraints)
  {
    if i > 0 { LongestBounds(constraints[1..], i - 1); }
  }

  /** An answer for all constraints of one key: an always output, or a string no never names. */
  lemma {:induction false} CommonAnswer(numerals: Numerals, constraints: seq<Constraint>, key: JsString)
    returns (answer: Scalar)
    requires Faithful(numerals) && Encodables(constraints) && NoConflicts(numerals, constraints)
    requires forall i :: 0 <= i < |constraints| ==> constraints[i].output != NumberScalar(NEGATIVE_ZERO)
    ensures SatisfiesAll(answer, constraints, key)
  {
    if k :| 0 <= k < |constraints| && constraints[k].kind.Always? && constraints[k].overlapKey == Some(key) {
      answer := constraints[k].output;
      forall i | 0 <= i < |constraints| && constraints[i].overlapKey == Some(key)
        ensures Satisfies(answer, constraints[i])
      {
        ConflictMeansOpposed(numerals, constraints[i], constraints[k]);
        ConflictMeansOpposed(numerals, constraints[k], constraints[i]);
        assert i < k ==> !Conflict(numerals, constraints[i], constraints[k]);
        assert k < i ==> !Conflict(numerals, constraints[k], constraints[i]);
        AgreeingOutputs(constraints[k], constraints[i]);
      }
    } else {
      var longer: JsString := seq(Longest(constraints) + 1, i => 0);
      answer := StringScalar(longer);
      forall i | 0 <= i < |constraints| && constraints[i].overlapKey == Some(key)
        ensures Satisfies(answer, constraints[i])
      {
        if constraints[i].output.StringScalar? { LongestBounds(constraints, i); }
      }
    }
  }

  lemma {:induction false} AgreeingOutputs(a: Constraint, c: Constraint)
    requires a.kind.Always? && Encodable(ScalarJson(a.output)) && Encodable(ScalarJson(c.output))
    requires a.output != NumberScalar(NEGATIVE_ZERO) && c.output != NumberScalar(NEGATIVE_ZERO)
    requires c.kind.Always? <==> a.output == c.output
    ensures Satisfies(a.output, c)
  {
    if a.output.NumberScalar? && c.output.NumberScalar? && NumberEquals(a.output.n, c.output.n) {
      EqualNumbersShareBits(a.output.n, c.output.n);
    }
  }

  lemma {:induction false} ConflictSpoilsKey(constraints: seq<Constraint>, i: nat, j: nat)
    requires i < j < |constraints| && Encodables(constraints) && Opposed(constraints[i], constraints[j])
    requires constraints[i].output != NumberScalar(NEGATIVE_ZERO)
    requires constraints[j].output != NumberScalar(NEGATIVE_ZERO)
    ensures !Satisfiable(constraints, constraints[i].overlapKey.value)
  {
    var a, b := constraints[i], constraints[j];
    OpposedAreIrreconcilable(a, b);
    forall answer
      ensures !SatisfiesAll(answer, constraints, a.overlapKey.value)
    {
      assert !(Satisfies(answer, a) && Satisfies(answer, b));
    }
  }

  /**
   * Without negative zeros among the outputs, the check passes exactly when for every overlap key
   * some answer satisfies all constraints that carry it.
   */
  lemma {:induction false} AcceptedMeansSatisfiable(numerals: Numerals, constraints: seq<Constraint>)
    requires Faithful(numerals) && Encodables(constraints)
    requires forall i :: 0 <= i < |constraints| ==> constraints[i].output != NumberScalar(NEGATIVE_ZERO)
    ensures NoConflicts(numerals, constraints) <==> forall key :: Satisfiable(constraints, key)
  {
    if NoConflicts(numerals, constraints) {
      forall key
        ensures Satisfiable(constraints, key)
      {
        var answer := CommonAnswer(numerals, constraints, key);
      }
    } else {
      var i, j :| 0 <= i < j < |constraints| && Conflict(numerals, constraints[i], constraints[j]);
      ConflictMeansOpposed(numerals, constraints[i], constraints[j]);
      ConflictSpoilsKey(constraints, i, j);
    }
  }

  /** The verdict does not depend on the order in which the constraints are declared. */
  lemma {:induction false} OrderIsImmaterial(numerals: Numerals, a: seq<Constraint>, b: seq<Constraint>,
      position: seq<nat>)
    requires Encodables(a) && Encodables(b) && NoConflicts(numerals, a)
    requires |position| == |b| && forall i :: 0 <= i < |b| ==> position[i] < |a| && b[i] == a[position[i]]
    requires forall i, j :: 0 <= i < j < |b| ==> position[i] != position[j]
    ensures NoConflicts(numerals, b)
  {
    forall i, j | 0 <= i < j < |b|
      ensures !Conflict(numerals, b[i], b[j])
    {
      var p, q := position[i], position[j];
      assert p < q ==> !Conflict(numerals, a[p], a[q]);
      assert q < p ==> !Conflict(numerals, a[q], a[p]);
      assert p < q || q < p;
    }
  }

  // ----- the verdict with negative zeros

  /** The constraint with a zero output spelled without its sign; the same answers satisfy it. */
  function Plain(c: Constraint): Constraint {
    if c.output == NumberScalar(NEGATIVE_ZERO) then c.(output := NumberScalar(ZERO)) else c
  }

  function Plains(constraints: seq<Constraint>): seq<Constraint> {
    seq(|constraints|, i requires 0 <= i < |constraints| => Plain(constraints[i]))
  }

  lemma {:induction false} PlainsAreEncodable(constraints: seq<Constraint>)
    requires Encodables(constraints)
    ensures Encodables(Plains(constraints))
  {
    forall i | 0 <= i < |Plains(constraints)|
      ensures Encodable(ScalarJson(Plains(constraints)[i].output))
    {
      assert Encodable(ScalarJson(constraints[i].output));
    }
  }

  lemma {:induction false} PlainSatisfaction(answer: Scalar, c: Constraint)
    ensures Satisfies(answer, Plain(c)) <==> Satisfies(answer, c)
  {
    if c.output == NumberScalar(NEGATIVE_ZERO) && answer.NumberScalar? {
      assert LineKey(NEGATIVE_ZERO) == LineKey(ZERO) && IsFinite(NEGATIVE_ZERO) && IsFinite(ZERO);
    }
  }

  lemma {:induction false} PlainsSatisfied(answer: Scalar, constraints: seq<Constraint>, key: JsString)
    ensures SatisfiesAll(answer, Plains(constraints), key) <==> SatisfiesAll(answer, constraints, key)
  {
    forall i | 0 <= i < |constraints|
      ensures Plains(constraints)[i].overlapKey == constraints[i].overlapKey
      ensures Satisfies(answer, Plains(constraints)[i]) <==> Satisfies(answer, constraints[i])
    {
      PlainSatisfaction(answer, constraints[i]);
    }
  }

  /**
   * For every list: each overlap key has an answer that satisfies all its constraints exactly when
   * the outputs, with the sign of zero dropped, have no conflict.
   */
  lemma {:induction false} SatisfiableExactly(numerals: Numerals, constraints: seq<Constraint>)
    requires Faithful(numerals) && Encodables(constraints)
    ensures Encodables(Plains(constraints))
    ensures (forall key :: Satisfiable(constraints, key)) <==> NoConflicts(numerals, Plains(constraints))
  {
    PlainsAreEncodable(constraints);
    AcceptedMeansSatisfiable(numerals, Plains(constraints));
    forall key
      ensures Satisfiable(Plains(constraints), key) <==> Satisfiable(constraints, key)
    {
      forall answer
        ensures SatisfiesAll(answer, Plains(constraints), key) <==> SatisfiesAll(answer, constraints, key)
      {
        PlainsSatisfied(answer, constraints, key);
      }
    }
  }

  /** Dropping the sign of zero removes exactly the invented conflicts and adds exactly the overlooked ones. */
  lemma {:induction false} PlainConflict(numerals: Numerals, a: Constraint, b: Constraint)
    requires Faithful(numerals) && Encodable(ScalarJson(a.output)) && Encodable(ScalarJson(b.output))
    ensures Encodable(ScalarJson(Plain(a).output)) && Encodable(ScalarJson(Plain(b).output))
    ensures Conflict(numerals, Plain(a), Plain(b)) <==>
            (Conflict(numerals, a, b) && !Invented(a, b)) || Overlooked(a, b)
    ensures Invented(a, b) ==> Conflict(numerals, a, b)
    ensures Overlooked(a, b) ==> !Conflict(numerals, a, b)
  {
    ConflictMeansOpposed(numerals, a, b);
    ConflictMeansOpposed(numerals, Plain(a), Plain(b));
    PlainOutputs(a, b);
  }

  lemma {:induction false} PlainOutputs(a: Constraint, b: Constraint)
    ensures Plain(a).output == Plain(b).output <==> a.output == b.output || DifferentZeros(a, b)
  {
  }

  ghost predicate AnyInvented(constraints: seq<Constraint>) {
    exists i, j :: 0 <= i < j < |constraints| && Invented(constraints[i], constraints[j])
  }

  ghost predicate AnyOverlooked(constraints: seq<Constraint>) {
    exists i, j :: 0 <= i < j < |constraints| && Overlooked(constraints[i], constraints[j])
  }

  /** Some two constraints conflict whichever way the zeros are compared. */
  ghost predicate AnyPlainConflict(numerals: Numerals, constraints: seq<Constraint>)
    requires Encodables(constraints)
  {
    exists i, j :: 0 <= i < j < |constraints| && Conflict(numerals, constraints[i], constraints[j])
      && !Invented(constraints[i], constraints[j])
  }

  lemma {:induction false} ConflictsByKind(numerals: Numerals, constraints: seq<Constraint>)
    requires Faithful(numerals) && Encodables(constraints)
    ensures NoConflicts(numerals, constraints) <==>
            !AnyPlainConflict(numerals, constraints) && !AnyInvented(constraints)
  {
    forall i, j | 0 <= i < j < |constraints|
      ensures Invented(constraints[i], constraints[j]) ==> Conflict(numerals, constraints[i], constraints[j])
    {
      PlainConflict(numerals, constraints[i], constraints[j]);
    }
  }

  lemma {:induction false} PlainConflictsByKind(numerals: Numerals, constraints: seq<Constraint>)
    requires Faithful(numerals) && Encodables(constraints) && Encodables(Plains(constraints))
    ensures NoConflicts(numerals, Plains(constraints)) <==>
            !AnyPlainConflict(numerals, constraints) && !AnyOverlooked(constraints)
  {
    var plains := Plains(constraints);
    forall i, j | 0 <= i < j < |constraints|
      ensures Conflict(numerals, plains[i], plains[j]) <==>
              (Conflict(numerals, constraints[i], constraints[j]) && !Invented(constraints[i], constraints[j]))
              || Overlooked(constraints[i], constraints[j])
    {
      PlainConflict(numerals, constraints[i], constraints[j]);
    }
    if AnyPlainConflict(numerals, constraints) {
      var i, j :| 0 <= i < j < |constraints| && Conflict(numerals, constraints[i], constraints[j])
        && !Invented(constraints[i], constraints[j]);
      assert Conflict(numerals, plains[i], plains[j]);
    }
    if AnyOverlooked(constraints) {
      var i, j :| 0 <= i < j < |constraints| && Overlooked(constraints[i], constraints[j]);
      assert Conflict(numerals, plains[i], plains[j]);
    }
  }

  /**
   * The verdict on a list is satisfiability of its keys exactly when the list has a conflict besides
   * invented ones, or has invented conflicts and overlooked ones, or has neither.
   */
  lemma {:induction false} VerdictIsRightExactly(numerals: Numerals, constraints: seq<Constraint>)
    requires Faithful(numerals) && Encodables(constraints)
    ensures (NoConflicts(numerals, constraints) <==> forall key :: Satisfiable(constraints, key)) <==>
            AnyPlainConflict(numerals, constraints) || (AnyInvented(constraints) <==> AnyOverlooked(constraints))
  {
    SatisfiableExactly(numerals, constraints);
    ConflictsByKind(numerals, constraints);
    PlainConflictsByKind(numerals, constraints);
  }

  /**
   * With negative zero the verdict is off both ways, for any predicate that has a key: two always
   * constraints for the two zeros are rejected although zero satisfies both, and an always with a
   * never for the two zeros pass although no answer satisfies both.
   */
  lemma {:induction false} ZerosAreMisjudged(ops: Arithmetic, numerals: Numerals, p: Predicate, a: Constraint,
      key: JsString)
    requires Faithful(numerals) && a == Constraint(Always, p, NumberScalar(ZERO), Some(key)) && Parsed(ops, numerals, a)
    ensures var b := Constraint(Always, p, NumberScalar(NEGATIVE_ZERO), Some(key));
            var c := Constraint(Never, p, NumberScalar(NEGATIVE_ZERO), Some(key));
            && Parsed(ops, numerals, b) && Parsed(ops, numerals, c)
            && !NoConflicts(numerals, [a, b]) && SatisfiesAll(NumberScalar(ZERO), [a, b], key)
            && NoConflicts(numerals, [a, c]) && forall answer :: !SatisfiesAll(answer, [a, c], key)
  {
    var b := Constraint(Always, p, NumberScalar(NEGATIVE_ZERO), Some(key));
    var c := Constraint(Never, p, NumberScalar(NEGATIVE_ZERO), Some(key));
    SatisfiablePairIsRejected(numerals, a, b, key);
    UnsatisfiablePairPasses(numerals, a, c, key);
  }

  /** There are such predicates: the constant true, or anything that folds to no constant and is well formed. */
  lemma {:induction false} ZerosCanBeParsed(ops: Arithmetic, numerals: Numerals, p: Predicate)
    requires IsTrue(Fold(ops, p)) || (Fold(ops, p).Unknown? && Encodable(Encoded(p)))
    ensures exists key :: Parsed(ops, numerals, Constraint(Always, p, NumberScalar(ZERO), Some(key)))
  {
    var key := if IsTrue(Fold(ops, p)) then CONSTANT_TRUE else SemanticJsonString(numerals, Encoded(p)).value;
    assert Parsed(ops, numerals, Constraint(Always, p, NumberScalar(ZERO), Some(key)));
  }

  lemma {:induction false} SatisfiablePairIsRejected(numerals: Numerals, a: Constraint, b: Constraint, key: JsString)
    requires Faithful(numerals) && a.overlapKey == Some(key) && b.overlapKey == Some(key) && a.kind.Always?
    requires b.kind.Always?
    requires a.output == NumberScalar(ZERO) && b.output == NumberScalar(NEGATIVE_ZERO)
    ensures !NoConflicts(numerals, [a, b]) && SatisfiesAll(NumberScalar(ZERO), [a, b], key)
  {
    PairConflicts(numerals, a, b);
    PairSatisfaction(a, b, key);
  }

  lemma {:induction false} UnsatisfiablePairPasses(numerals: Numerals, a: Constraint, c: Constraint, key: JsString)
    requires Faithful(numerals) && a.overlapKey == Some(key) && c.overlapKey == Some(key) && a.kind.Always?
    requires c.kind.Never?
    requires a.output == NumberScalar(ZERO) && c.output == NumberScalar(NEGATIVE_ZERO)
    ensures NoConflicts(numerals, [a, c]) && forall answer :: !SatisfiesAll(answer, [a, c], key)
  {
    PairConflicts(numerals, a, c);
    PairSatisfaction(a, c, key);
  }

  lemma {:induction false} PairConflicts(numerals: Numerals, a: Constraint, b: Constraint)
    requires Faithful(numerals) && Encodable(ScalarJson(a.output)) && Encodable(ScalarJson(b.output))
    ensures NoConflicts(numerals, [a, b]) <==> !Opposed(a, b)
  {
    ConflictMeansOpposed(numerals, a, b);
    assert [a, b][0] == a && [a, b][1] == b;
  }

  lemma {:induction false} PairSatisfaction(a: Constraint, b: Constraint, key: JsString)
    requires a.overlapKey == Some(key) && b.overlapKey == Some(key)
    ensures forall answer :: SatisfiesAll(answer, [a, b], key) <==> Satisfies(answer, a) && Satisfies(answer, b)
  {
    assert [a, b][0] == a && [a, b][1] == b;
  }
}
