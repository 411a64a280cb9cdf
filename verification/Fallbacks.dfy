/**
 * Calls of semantic functions whose fallbacks may call semantic functions again, with the set of
 * functions whose fallback is running.
 */
module Fallbacks {
  import opened JsValues
  import opened Outcomes

  type FunctionId = nat

  /** Inputs and answers; only compared and passed on. */
  type Datum = nat

  /** What the model answers for one call. */
  datatype Diagnostic = Diagnostic(value: Datum, confidence: Number)

  datatype CallError =
    | UnknownFunction(f: FunctionId)
    | InferenceFailed(f: FunctionId)
    | LowConfidence(f: FunctionId)
    | FallbackCycle(f: FunctionId)
    | InvalidFallbackResult(f: FunctionId)
    | Application(code: nat)

  datatype Outcome = Returned(value: Datum) | ReturnedDiagnostic(diagnostic: Diagnostic) | Threw(error: CallError)

  /** What the body of a fallback does next, given the outcomes of the calls it has made so far. */
  datatype Action = Invoke(f: FunctionId, inputs: Datum) | Return(value: Datum) | Throw(error: CallError)

  /** A fallback body: it may catch the errors of its calls, and makes fewer calls than its bound. */
  datatype Body = Body(next: (Datum, Diagnostic, seq<Outcome>) -> Action, bound: nat)

  datatype ResultMode = ValueMode | DiagnosticMode

  datatype SemanticFunction = SemanticFunction(mode: ResultMode, threshold: Option<Number>, fallback: Option<Body>,
      accepts: Datum -> bool)

  datatype Artifact = Artifact(functions: map<FunctionId, SemanticFunction>,
      infer: (FunctionId, Datum) -> Option<Diagnostic>)

  ghost predicate Finite(body: Body) {
    forall inputs, diagnostic, history :: |history| >= body.bound ==> !body.next(inputs, diagnostic, history).Invoke?
  }

  ghost predicate FiniteBodies(artifact: Artifact) {
    forall f :: f in artifact.functions && artifact.functions[f].fallback.Some? ==>
      Finite(artifact.functions[f].fallback.value)
  }

  predicate Reaches(confidence: Number, threshold: Number) {
    !IsNaN(confidence) && !IsNaN(threshold) && LineKey(confidence) >= LineKey(threshold)
  }

  // ----- evaluation

  datatype Step = Enter(f: FunctionId) | Leave(f: FunctionId)

  /** The outcome of a call and the fallbacks entered and left on the way. */
  datatype Evaluation = Evaluation(outcome: Outcome, trace: seq<Step>)

  ghost function Unused(artifact: Artifact, active: set<FunctionId>): nat {
    |artifact.functions.Keys - active|
  }

  lemma {:induction false} EnteringUsesUp(artifact: Artifact, active: set<FunctionId>, f: FunctionId)
    requires f in artifact.functions && f !in active
    ensures Unused(artifact, active + {f}) < Unused(artifact, active)
  {
    assert artifact.functions.Keys - (active + {f}) == artifact.functions.Keys - active - {f};
  }

  /** A call: inference, then the confidence policy. */
  ghost function Call(artifact: Artifact, active: set<FunctionId>, f: FunctionId, inputs: Datum): Evaluation
    requires FiniteBodies(artifact)
    decreases Unused(artifact, active), 1
  {
    if f !in artifact.functions then Evaluation(Threw(UnknownFunction(f)), [])
    else match artifact.infer(f, inputs)
      case None => Evaluation(Threw(InferenceFailed(f)), [])
      case Some(diagnostic) =>
        var function_ := artifact.functions[f];
        if function_.mode.DiagnosticMode? then Evaluation(ReturnedDiagnostic(diagnostic), [])
        else if function_.threshold.None? || Reaches(diagnostic.confidence, function_.threshold.value)
        then Evaluation(Returned(diagnostic.value), [])
        else if function_.fallback.None? then Evaluation(Threw(LowConfidence(f)), [])
        else if f in active then Evaluation(Threw(FallbackCycle(f)), [])
        else Entered(artifact, active, f, inputs, diagnostic)
  }

  /** The fallback of a function that has one and is not running it. */
  ghost function Entered(artifact: Artifact, active: set<FunctionId>, f: FunctionId, inputs: Datum,
      diagnostic: Diagnostic): Evaluation
    requires FiniteBodies(artifact) && HasFallback(artifact, f) && f !in active
    decreases Unused(artifact, active), 0
  {
    EnteringUsesUp(artifact, active, f);
    var rest := RunBody(artifact, active + {f}, f, inputs, diagnostic, []);
    Evaluation(rest.outcome, [Enter(f)] + rest.trace + [Leave(f)])
  }

  predicate HasFallback(artifact: Artifact, f: FunctionId) {
    f in artifact.functions && artifact.functions[f].fallback.Some?
  }

  /** The rest of a fallback body after the calls in the history. */
  ghost function RunBody(artifact: Artifact, active: set<FunctionId>, f: FunctionId, inputs: Datum,
      diagnostic: Diagnostic, history: seq<Outcome>): Evaluation
    requires FiniteBodies(artifact) && HasFallback(artifact, f)
    decreases Unused(artifact, active), 2 + Allowance(artifact, f, history)
  {
    var function_ := artifact.functions[f];
    match function_.fallback.value.next(inputs, diagnostic, history)
    case Return(value) =>
      Evaluation(if function_.accepts(value) then Returned(value) else Threw(InvalidFallbackResult(f)), [])
    case Throw(error) => Evaluation(Threw(error), [])
    case Invoke(g, argument) =>
      var called := Call(artifact, active, g, argument);
      var rest := RunBody(artifact, active, f, inputs, diagnostic, history + [called.outcome]);
      Evaluation(rest.outcome, called.trace + rest.trace)
  }

  /** How many more calls the body may make. */
  function Allowance(artifact: Artifact, f: FunctionId, history: seq<Outcome>): nat
    requires HasFallback(artifact, f)
  {
    var bound := artifact.functions[f].fallback.value.bound;
    if |history| < bound then bound - |history| else 0
  }

  // ----- the trace is well nested and never enters a running fallback

  /** The stack of running fallbacks after a trace, or none when it enters one that runs or leaves out of turn. */
  function Follow(stack: seq<FunctionId>, trace: seq<Step>): Option<seq<FunctionId>>
    decreases |trace|
  {
    if trace == [] then Some(stack)
    else match trace[0]
      case Enter(f) => if f in stack then None else Follow(stack + [f], trace[1..])
      case Leave(f) =>
        if stack == [] || stack[|stack| - 1] != f then None else Follow(stack[..|stack| - 1], trace[1..])
  }

  lemma {:induction false} FollowConcatenation(stack: seq<FunctionId>, a: seq<Step>, b: seq<Step>)
    requires Follow(stack, a).Some?
    ensures Follow(stack, a + b) == Follow(Follow(stack, a).value, b)
    decreases |a|
  {
    if a == [] {
      assert a + b == b;
    } else {
      assert (a + b)[1..] == a[1..] + b;
      match a[0]
      case Enter(f) => FollowConcatenation(stack + [f], a[1..], b);
      case Leave(_) => FollowConcatenation(stack[..|stack| - 1], a[1..], b);
    }
  }

  ghost function Elements(stack: seq<FunctionId>): set<FunctionId> {
    set f | f in stack
  }

  lemma {:induction false} Wrapped(stack: seq<FunctionId>, f: FunctionId, inner: seq<Step>)
    requires f !in stack && Follow(stack + [f], inner) == Some(stack + [f])
    ensures Follow(stack, [Enter(f)] + inner + [Leave(f)]) == Some(stack)
  {
    var tail := inner + [Leave(f)];
    assert [Enter(f)] + inner + [Leave(f)] == [Enter(f)] + tail;
    assert ([Enter(f)] + tail)[1..] == tail;
    FollowConcatenation(stack + [f], inner, [Leave(f)]);
    assert (stack + [f])[..|stack|] == stack;
  }

  /**
   * Every call, whether it returns or throws, enters no fallback that is already running and leaves
   * every fallback it enters, so the running fallbacks afterwards are those before.
   */
  lemma {:induction false} CallsNest(artifact: Artifact, stack: seq<FunctionId>, f: FunctionId, inputs: Datum)
    requires FiniteBodies(artifact)
    ensures Follow(stack, Call(artifact, Elements(stack), f, inputs).trace) == Some(stack)
    decreases Unused(artifact, Elements(stack)), 1
  {
    var evaluation := Call(artifact, Elements(stack), f, inputs);
    if evaluation.trace != [] {
      var diagnostic := artifact.infer(f, inputs).value;
      var entered := stack + [f];
      assert Elements(entered) == Elements(stack) + {f};
      EnteringUsesUp(artifact, Elements(stack), f);
      BodiesNest(artifact, entered, f, inputs, diagnostic, []);
      Wrapped(stack, f, RunBody(artifact, Elements(entered), f, inputs, diagnostic, []).trace);
    }
  }

  lemma {:induction false} BodiesNest(artifact: Artifact, stack: seq<FunctionId>, f: FunctionId, inputs: Datum,
      diagnostic: Diagnostic, history: seq<Outcome>)
    requires FiniteBodies(artifact) && HasFallback(artifact, f)
    ensures Follow(stack, RunBody(artifact, Elements(stack), f, inputs, diagnostic, history).trace) == Some(stack)
    decreases Unused(artifact, Elements(stack)), 2 + Allowance(artifact, f, history)
  {
    var action := artifact.functions[f].fallback.value.next(inputs, diagnostic, history);
    if action.Invoke? {
      var called := Call(artifact, Elements(stack), action.f, action.inputs);
      CallsNest(artifact, stack, action.f, action.inputs);
      BodiesNest(artifact, stack, f, inputs, diagnostic, history + [called.outcome]);
      FollowConcatenation(stack, called.trace,
        RunBody(artifact, Elements(stack), f, inputs, diagnostic, history + [called.outcome]).trace);
    }
  }

  ghost predicate Distinct(stack: seq<FunctionId>) {
    forall i, j :: 0 <= i < j < |stack| ==> stack[i] != stack[j]
  }

  /** At every moment of a trace the running fallbacks are all different. */
  lemma {:induction false} RunningFallbacksDiffer(stack: seq<FunctionId>, trace: seq<Step>, n: nat)
    requires Distinct(stack) && Follow(stack, trace).Some? && n <= |trace|
    ensures Follow(stack, trace[..n]).Some? && Distinct(Follow(stack, trace[..n]).value)
    decreases |trace|
  {
    if n > 0 {
      assert trace[..n][1..] == trace[1..][..n - 1];
      match trace[0]
      case Enter(f) => RunningFallbacksDiffer(stack + [f], trace[1..], n - 1);
      case Leave(_) => RunningFallbacksDiffer(stack[..|stack| - 1], trace[1..], n - 1);
    }
  }

  /** No fallback runs twice at once, at any moment of any call. */
  lemma {:induction false} NoFallbackRunsTwice(artifact: Artifact, f: FunctionId, inputs: Datum, n: nat)
    requires FiniteBodies(artifact) && n <= |Call(artifact, {}, f, inputs).trace|
    ensures var running := Follow([], Call(artifact, {}, f, inputs).trace[..n]);
            running.Some? && Distinct(running.value)
  {
    assert Elements([]) == {};
    CallsNest(artifact, [], f, inputs);
    RunningFallbacksDiffer([], Call(artifact, {}, f, inputs).trace, n);
  }

  // ----- what a call comes to

  /** Confidence is compared with the threshold by value, and one that is no number never reaches it. */
  lemma {:induction false} ReachingMeans(confidence: Number, threshold: Number)
    ensures IsFinite(confidence) && IsFinite(threshold) ==>
              (Reaches(confidence, threshold) <==> Amount(confidence) >= Amount(threshold))
    ensures IsNaN(confidence) || IsNaN(threshold) ==> !Reaches(confidence, threshold)
  {
    if IsFinite(confidence) && IsFinite(threshold) {
      ComparisonIsNumeric(confidence, threshold);
    }
  }

  /** The calls a fallback body makes and their outcomes, each call made with the fallback of `f` running. */
  ghost predicate IsHistory(artifact: Artifact, active: set<FunctionId>, f: FunctionId, inputs: Datum,
      diagnostic: Diagnostic, history: seq<Outcome>)
    requires FiniteBodies(artifact) && HasFallback(artifact, f)
  {
    forall i :: 0 <= i < |history| ==> IsNextCall(artifact, active, f, inputs, diagnostic, history[..i], history[i])
  }

  ghost predicate IsNextCall(artifact: Artifact, active: set<FunctionId>, f: FunctionId, inputs: Datum,
      diagnostic: Diagnostic, earlier: seq<Outcome>, outcome: Outcome)
    requires FiniteBodies(artifact) && HasFallback(artifact, f)
  {
    var action := artifact.functions[f].fallback.value.next(inputs, diagnostic, earlier);
    action.Invoke? && outcome == Call(artifact, active, action.f, action.inputs).outcome
  }

  /** The body ends after the history, with this outcome: a result the function accepts, or an error. */
  ghost predicate EndsWith(artifact: Artifact, f: FunctionId, inputs: Datum, diagnostic: Diagnostic,
      history: seq<Outcome>, outcome: Outcome)
    requires HasFallback(artifact, f)
  {
    match artifact.functions[f].fallback.value.next(inputs, diagnostic, history)
    case Return(value) =>
      outcome == if artifact.functions[f].accepts(value) then Returned(value) else Threw(InvalidFallbackResult(f))
    case Throw(error) => outcome == Threw(error)
    case Invoke(_, _) => false
  }

  ghost predicate DecidedByFallback(artifact: Artifact, active: set<FunctionId>, f: FunctionId, inputs: Datum,
      diagnostic: Diagnostic, outcome: Outcome)
    requires FiniteBodies(artifact) && HasFallback(artifact, f)
  {
    exists history ::
      && IsHistory(artifact, active, f, inputs, diagnostic, history)
      && EndsWith(artifact, f, inputs, diagnostic, history, outcome)
  }

  lemma {:induction false} BodyDecides(artifact: Artifact, active: set<FunctionId>, f: FunctionId, inputs: Datum,
      diagnostic: Diagnostic, history: seq<Outcome>)
    requires FiniteBodies(artifact) && HasFallback(artifact, f)
    requires IsHistory(artifact, active, f, inputs, diagnostic, history)
    ensures DecidedByFallback(artifact, active, f, inputs, diagnostic,
                              RunBody(artifact, active, f, inputs, diagnostic, history).outcome)
    decreases Allowance(artifact, f, history)
  {
    var action := artifact.functions[f].fallback.value.next(inputs, diagnostic, history);
    var outcome := RunBody(artifact, active, f, inputs, diagnostic, history).outcome;
    if action.Invoke? {
      var longer := history + [Call(artifact, active, action.f, action.inputs).outcome];
      forall i | 0 <= i < |longer|
        ensures IsNextCall(artifact, active, f, inputs, diagnostic, longer[..i], longer[i])
      {
        assert longer[..i] == history[..i];
        assert i == |history| ==> history[..i] == history;
        assert i < |history| ==> IsNextCall(artifact, active, f, inputs, diagnostic, history[..i], history[i]);
      }
      BodyDecides(artifact, active, f, inputs, diagnostic, longer);
    } else {
      assert EndsWith(artifact, f, inputs, diagnostic, history, outcome);
    }
  }

  /**
   * The fallback is asked: there is one, the function promises values, and the confidence does not
   * reach its threshold.
   */
  predicate AsksFallback(function_: SemanticFunction, confidence: Number) {
    FallsShort(function_, confidence) && function_.fallback.Some?
  }

  predicate Suffices(function_: SemanticFunction, confidence: Number) {
    function_.mode.ValueMode? && function_.threshold.Some? && Reaches(confidence, function_.threshold.value)
  }

  predicate FallsShort(function_: SemanticFunction, confidence: Number) {
    function_.mode.ValueMode? && function_.threshold.Some? && !Reaches(confidence, function_.threshold.value)
  }

  /**
   * What every call comes to: the diagnostic itself, the value where no threshold is set or it is reached,
   * an error without a fallback or with one that runs already, and otherwise what the fallback's body
   * decides, whose calls are made while it runs.
   */
  lemma {:induction false} CallComesTo(artifact: Artifact, active: set<FunctionId>, f: FunctionId, inputs: Datum)
    requires FiniteBodies(artifact)
    ensures var outcome := Call(artifact, active, f, inputs).outcome;
            && (f !in artifact.functions ==> outcome == Threw(UnknownFunction(f)))
            && (f in artifact.functions && artifact.infer(f, inputs).None? ==> outcome == Threw(InferenceFailed(f)))
            && (f in artifact.functions && artifact.infer(f, inputs).Some? ==>
                 ComesTo(artifact, active, f, inputs, artifact.infer(f, inputs).value, outcome))
  {
    if f in artifact.functions && artifact.infer(f, inputs).Some? {
      var diagnostic := artifact.infer(f, inputs).value;
      if AsksFallback(artifact.functions[f], diagnostic.confidence) && f !in active {
        BodyDecides(artifact, active + {f}, f, inputs, diagnostic, []);
      }
    }
  }

  ghost predicate ComesTo(artifact: Artifact, active: set<FunctionId>, f: FunctionId, inputs: Datum,
      diagnostic: Diagnostic, outcome: Outcome)
    requires FiniteBodies(artifact) && f in artifact.functions
  {
    var function_ := artifact.functions[f];
    && (function_.mode.DiagnosticMode? ==> outcome == ReturnedDiagnostic(diagnostic))
    && (function_.mode.ValueMode? && function_.threshold.None? ==> outcome == Returned(diagnostic.value))
    && (Suffices(function_, diagnostic.confidence) ==>
         outcome == Returned(diagnostic.value))
    && (FallsShort(function_, diagnostic.confidence) && function_.fallback.None? ==> outcome == Threw(LowConfidence(f)))
    && (AsksFallback(function_, diagnostic.confidence) && f in active ==> outcome == Threw(FallbackCycle(f)))
    && (AsksFallback(function_, diagnostic.confidence) && f !in active ==>
         DecidedByFallback(artifact, active + {f}, f, inputs, diagnostic, outcome))
  }

  /**
   * A call enters its own fallback first and leaves it last exactly when it asks it and it is not
   * running; else it enters none.
   */
  lemma {:induction false} FallbackIsEntered(artifact: Artifact, active: set<FunctionId>, f: FunctionId, inputs: Datum)
    requires FiniteBodies(artifact)
    ensures var trace := Call(artifact, active, f, inputs).trace;
            var asked := f in artifact.functions && artifact.infer(f, inputs).Some?
              && AsksFallback(artifact.functions[f], artifact.infer(f, inputs).value.confidence) && f !in active;
            && (asked ==> |trace| >= 2 && trace[0] == Enter(f) && trace[|trace| - 1] == Leave(f))
            && (!asked ==> trace == [])
  {
  }

  // ----- the runtime's own form

  class ActiveArtifact {
    const artifact: Artifact
    var fallbackInvocationStack: set<FunctionId>
    ghost var trace: seq<Step>

    constructor (artifact: Artifact)
      ensures this.artifact == artifact && fallbackInvocationStack == {} && trace == []
    {
      this.artifact := artifact;
      fallbackInvocationStack, trace := {}, [];
    }

    /** What a call leaves behind: its outcome and trace are those of the specification, the stack is as before. */
    twostate predicate Did(evaluation: Evaluation, outcome: Outcome)
      reads this
    {
      && outcome == evaluation.outcome
      && trace == old(trace) + evaluation.trace
      && fallbackInvocationStack == old(fallbackInvocationStack)
    }

    method DispatchArtifactCall(f: FunctionId, inputs: Datum) returns (outcome: Outcome)
      requires FiniteBodies(artifact)
      modifies this
      ensures Did(Call(artifact, old(fallbackInvocationStack), f, inputs), outcome)
      decreases Unused(artifact, fallbackInvocationStack), 1
    {
      if f !in artifact.functions {
        return Threw(UnknownFunction(f));
      }
      var inference := artifact.infer(f, inputs);
      if inference.None? {
        return Threw(InferenceFailed(f));
      }
      var function_ := artifact.functions[f];
      var diagnostic := inference.value;
      if function_.mode.ValueMode? && function_.threshold.None? {
        return Returned(diagnostic.value);
      }
      if function_.mode.DiagnosticMode? {
        return ReturnedDiagnostic(diagnostic);
      }
      if Reaches(diagnostic.confidence, function_.threshold.value) {
        return Returned(diagnostic.value);
      }
      if function_.fallback.None? {
        return Threw(LowConfidence(f));
      }
      if f in fallbackInvocationStack {
        return Threw(FallbackCycle(f));
      }
      outcome := EnterFallback(f, inputs, diagnostic);
    }

    /** Marks the function as running its fallback for as long as the body runs, however it ends. */
    method EnterFallback(f: FunctionId, inputs: Datum, diagnostic: Diagnostic) returns (outcome: Outcome)
      requires FiniteBodies(artifact) && HasFallback(artifact, f) && f !in fallbackInvocationStack
      modifies this
      ensures Did(Entered(artifact, old(fallbackInvocationStack), f, inputs, diagnostic), outcome)
      decreases Unused(artifact, fallbackInvocationStack), 0
    {
      ghost var active := fallbackInvocationStack;
      ghost var before := trace;
      EnteringUsesUp(artifact, active, f);
      fallbackInvocationStack := fallbackInvocationStack + {f};
      trace := trace + [Enter(f)];
      outcome := ResumeBody(f, inputs, diagnostic, []);
      ghost var rest := RunBody(artifact, active + {f}, f, inputs, diagnostic, []);
      fallbackInvocationStack := fallbackInvocationStack - {f};
      trace := trace + [Leave(f)];
      Around(before, f, rest.trace);
      assert active + {f} - {f} == active;
    }

    /** Runs the rest of the body call by call; a throw of the body and an invalid result both end it. */
    method ResumeBody(f: FunctionId, inputs: Datum, diagnostic: Diagnostic, history: seq<Outcome>)
      returns (outcome: Outcome)
      requires FiniteBodies(artifact) && HasFallback(artifact, f)
      modifies this
      ensures Did(RunBody(artifact, old(fallbackInvocationStack), f, inputs, diagnostic, history), outcome)
      decreases Unused(artifact, fallbackInvocationStack), 2 + Allowance(artifact, f, history)
    {
      var action := artifact.functions[f].fallback.value.next(inputs, diagnostic, history);
      match action {
        case Return(value) =>
          outcome := if artifact.functions[f].accepts(value) then Returned(value) else Threw(InvalidFallbackResult(f));
        case Throw(error) =>
          outcome := Threw(error);
        case Invoke(g, argument) =>
          var called := DispatchArtifactCall(g, argument);
          outcome := ResumeBody(f, inputs, diagnostic, history + [called]);
      }
    }
  }

  lemma {:induction false} Around(before: seq<Step>, f: FunctionId, inner: seq<Step>)
    ensures before + [Enter(f)] + inner + [Leave(f)] == before + ([Enter(f)] + inner + [Leave(f)])
  {
  }
}
