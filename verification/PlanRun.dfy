/**
 * The runtime's own plan check and the stage-by-stage execution of a plan.
 */
module PlanRun {
  import opened DependencyGraph
  import opened Outcomes
  import opened PlanSpec
  import opened Sorting

  function AllIds(stages: seq<Stage>): seq<Id> {
    if stages == [] then [] else AllIds(stages[..|stages| - 1]) + stages[|stages| - 1].functionIds
  }

  /** The producer is on an earlier stage than the consumer. */
  ghost predicate Satisfiable(stages: seq<Stage>, dependency: Dependency) {
    exists p, c :: Places(stages, dependency.producer, p) && Places(stages, dependency.consumer, c) && p < c
  }

  ghost predicate StagesListed(stages: seq<Stage>) {
    && (forall k :: 0 <= k < |stages| ==> stages[k].index == k && stages[k].functionIds != [])
    && NoRepeats(AllIds(stages))
  }

  ghost predicate RuntimeAccepts(stages: seq<Stage>, dependencies: seq<Dependency>) {
    && stages != [] && StagesListed(stages)
    && forall i :: 0 <= i < |dependencies| ==> Satisfiable(stages, dependencies[i])
  }

  lemma {:induction false} AllIdsArePlaced(stages: seq<Stage>, id: Id)
    ensures id in AllIds(stages) <==> exists k :: Places(stages, id, k)
  {
    if stages != [] {
      var last := |stages| - 1;
      var init := stages[..last];
      AllIdsArePlaced(init, id);
      if k :| Places(init, id, k) {
        assert Places(stages, id, k);
      }
      if k :| Places(stages, id, k) {
        assert k < last ==> Places(init, id, k);
      }
      if id in stages[last].functionIds {
        assert Places(stages, id, last);
      }
    }
  }

  lemma {:induction false} PlacedOnce(stages: seq<Stage>, id: Id, k: nat, l: nat)
    requires NoRepeats(AllIds(stages)) && Places(stages, id, k) && Places(stages, id, l)
    ensures k == l
    decreases |stages|
  {
    var last := |stages| - 1;
    var init := stages[..last];
    var before := AllIds(init);
    if k < last && l < last {
      assert AllIds(stages)[..|before|] == before;
      PlacedOnce(init, id, k, l);
    } else if k != l {
      assert Places(init, id, if k < last then k else l);
      AllIdsArePlaced(init, id);
      LastStageIsNew(stages, id);
    }
  }

  lemma {:induction false} LastStageIsNew(stages: seq<Stage>, id: Id)
    requires stages != [] && NoRepeats(AllIds(stages)) && id in AllIds(stages[..|stages| - 1])
    ensures id !in stages[|stages| - 1].functionIds
  {
    NoRepeatsAcross(AllIds(stages[..|stages| - 1]), stages[|stages| - 1].functionIds, id);
  }

  lemma {:induction false} NoRepeatsAcross(a: seq<Id>, b: seq<Id>, id: Id)
    requires NoRepeats(a + b) && id in a
    ensures id !in b
  {
    var i :| 0 <= i < |a| && a[i] == id;
    forall j | 0 <= j < |b|
      ensures b[j] != id
    {
      assert (a + b)[i] != (a + b)[|a| + j];
    }
  }

  // ----- the plan check

  ghost predicate StageTable(stages: seq<Stage>, stageOf: map<Id, nat>) {
    && (forall id :: id in stageOf <==> id in AllIds(stages))
    && (forall id :: id in stageOf ==> Places(stages, id, stageOf[id]))
  }

  method ValidateExecutionPlan(stages: seq<Stage>, dependencies: seq<Dependency>) returns (accepted: bool)
    ensures accepted <==> RuntimeAccepts(stages, dependencies)
  {
    if |stages| == 0 {
      return false;
    }
    var stageOf: map<Id, nat> := map[];
    for position := 0 to |stages|
      invariant StagesListed(stages[..position])
      invariant StageTable(stages[..position], stageOf)
    {
      var listed;
      listed, stageOf := ListStage(stages, position, stageOf);
      if !listed {
        return false;
      }
    }
    assert stages[..|stages|] == stages;
    for i := 0 to |dependencies|
      invariant forall d :: 0 <= d < i ==> Satisfiable(stages, dependencies[d])
    {
      var dependency := dependencies[i];
      DependencyDecided(stages, stageOf, dependency);
      if dependency.producer !in stageOf || dependency.consumer !in stageOf
         || stageOf[dependency.producer] >= stageOf[dependency.consumer] {
        return false;
      }
    }
    return true;
  }

  method ListStage(stages: seq<Stage>, position: nat, before: map<Id, nat>)
    returns (listed: bool, stageOf: map<Id, nat>)
    requires position < |stages| && StagesListed(stages[..position]) && StageTable(stages[..position], before)
    ensures listed ==> StagesListed(stages[..position + 1]) && StageTable(stages[..position + 1], stageOf)
    ensures !listed ==> !StagesListed(stages)
  {
    var stage := stages[position];
    stageOf := before;
    ghost var earlier := AllIds(stages[..position]);
    if stage.index != position || |stage.functionIds| == 0 {
      return false, stageOf;
    }
    for i := 0 to |stage.functionIds|
      invariant NoRepeats(earlier + stage.functionIds[..i])
      invariant forall id :: id in stageOf <==> id in earlier + stage.functionIds[..i]
      invariant forall id :: id in before ==> id in stageOf && stageOf[id] == before[id]
      invariant forall id :: id in stageOf && id !in before ==> stageOf[id] == position
    {
      var id := stage.functionIds[i];
      if id in stageOf {
        RepeatedId(stages, position, i);
        return false, stageOf;
      }
      assert earlier + stage.functionIds[..i + 1] == (earlier + stage.functionIds[..i]) + [id];
      stageOf := stageOf[id := position];
    }
    assert stage.functionIds[..|stage.functionIds|] == stage.functionIds;
    StageTableGrows(stages, position, before, stageOf);
    return true, stageOf;
  }

  lemma {:induction false} StageTableGrows(stages: seq<Stage>, position: nat, before: map<Id, nat>,
      stageOf: map<Id, nat>)
    requires position < |stages| && StagesListed(stages[..position]) && StageTable(stages[..position], before)
    requires stages[position].index == position && stages[position].functionIds != []
    requires NoRepeats(AllIds(stages[..position]) + stages[position].functionIds)
    requires forall id :: id in stageOf <==> id in AllIds(stages[..position]) + stages[position].functionIds
    requires forall id :: id in before ==> id in stageOf && stageOf[id] == before[id]
    requires forall id :: id in stageOf && id !in before ==> stageOf[id] == position
    ensures StagesListed(stages[..position + 1]) && StageTable(stages[..position + 1], stageOf)
  {
    var longer := stages[..position + 1];
    assert longer[..position] == stages[..position];
    assert AllIds(longer) == AllIds(stages[..position]) + stages[position].functionIds;
    forall id | id in stageOf
      ensures Places(longer, id, stageOf[id])
    {
      assert id in before ==> Places(stages[..position], id, before[id]);
    }
    forall k | 0 <= k < |longer|
      ensures longer[k].index == k && longer[k].functionIds != []
    {
      assert k < position ==> longer[k] == stages[..position][k];
    }
  }

  lemma {:induction false} PrefixOfAllIds(stages: seq<Stage>, n: nat)
    requires n <= |stages|
    ensures AllIds(stages[..n]) <= AllIds(stages)
    decreases |stages| - n
  {
    if n == |stages| {
      assert stages[..n] == stages;
    } else {
      PrefixOfAllIds(stages, n + 1);
      assert stages[..n + 1][..n] == stages[..n];
    }
  }

  lemma {:induction false} RepeatedId(stages: seq<Stage>, position: nat, i: nat)
    requires position < |stages| && i < |stages[position].functionIds|
    requires stages[position].functionIds[i] in AllIds(stages[..position]) + stages[position].functionIds[..i]
    ensures !NoRepeats(AllIds(stages))
  {
    var ids := stages[position].functionIds;
    var earlier := AllIds(stages[..position]);
    PrefixOfAllIds(stages, position + 1);
    assert stages[..position + 1][..position] == stages[..position];
    var all := AllIds(stages[..position + 1]);
    assert all == earlier + ids;
    var j :| 0 <= j < |earlier| + i && (earlier + ids[..i])[j] == ids[i];
    assert all[j] == all[|earlier| + i];
    assert AllIds(stages)[j] == AllIds(stages)[|earlier| + i];
  }

  lemma {:induction false} DependencyDecided(stages: seq<Stage>, stageOf: map<Id, nat>, dependency: Dependency)
    requires StagesListed(stages) && StageTable(stages, stageOf)
    ensures Satisfiable(stages, dependency) <==>
            dependency.producer in stageOf && dependency.consumer in stageOf
            && stageOf[dependency.producer] < stageOf[dependency.consumer]
  {
    if p, c :| Places(stages, dependency.producer, p) && Places(stages, dependency.consumer, c) && p < c {
      AllIdsArePlaced(stages, dependency.producer);
      AllIdsArePlaced(stages, dependency.consumer);
      PlacedOnce(stages, dependency.producer, p, stageOf[dependency.producer]);
      PlacedOnce(stages, dependency.consumer, c, stageOf[dependency.consumer]);
    }
  }

  // ----- the two checks agree

  lemma {:induction false} SpelledHasNoRepeats(order: seq<Id>, stage: map<Id, nat>, stages: seq<Stage>, n: nat)
    requires NoRepeats(order) && n <= |stages|
    requires forall k: nat :: k < |stages| ==> SpelledOut(order, stage, stages, k)
    ensures NoRepeats(AllIds(stages[..n]))
    ensures forall id :: id in AllIds(stages[..n]) <==> id in order && id in stage && stage[id] < n
  {
    if n > 0 {
      SpelledHasNoRepeats(order, stage, stages, n - 1);
      assert stages[..n][..n - 1] == stages[..n - 1];
      assert SpelledOut(order, stage, stages, n - 1);
      OnStageMembers(order, stage, n - 1);
      OnStageNoRepeats(order, stage, n - 1);
      var before, ids := AllIds(stages[..n - 1]), stages[n - 1].functionIds;
      var all: seq<Id> := before + ids;
      forall i: int, j: int | 0 <= i < j < |all|
        ensures all[i] != all[j]
      {
        if i < |before| && j >= |before| {
          assert before[i] in before && ids[j - |before|] in ids;
        }
      }
    }
  }

  lemma {:induction false} OnStageNoRepeats(order: seq<Id>, stage: map<Id, nat>, k: nat)
    requires NoRepeats(order)
    ensures NoRepeats(OnStage(order, stage, k))
  {
    if order != [] {
      OnStageNoRepeats(order[1..], stage, k);
      OnStageMembers(order[1..], stage, k);
      assert order[0] !in OnStage(order[1..], stage, k);
    }
  }

  /**
   * Every plan that passes the bundle check passes the runtime's check unless it is empty,
   * and lists exactly the functions of the bundle, each once.
   */
  lemma {:induction false} BundlePlanIsRunnable(order: seq<Id>, dependencies: seq<Dependency>, stages: seq<Stage>)
    requires NoRepeats(order) && ValidPlan(order, EdgesOf(dependencies), stages)
    ensures RuntimeAccepts(stages, dependencies) <==> order != []
    ensures NoRepeats(AllIds(stages)) && forall id :: id in AllIds(stages) <==> id in order
  {
    var stage :| PlanBy(order, EdgesOf(dependencies), stage, stages);
    SpelledStagesAreListed(order, stage, stages);
    forall i | 0 <= i < |dependencies|
      ensures Satisfiable(stages, dependencies[i])
    {
      DependencyRunsForward(order, dependencies, stages, stage, i);
    }
  }

  lemma {:induction false} SpelledStagesAreListed(order: seq<Id>, stage: map<Id, nat>, stages: seq<Stage>)
    requires NoRepeats(order) && Spells(order, stage, stages)
    ensures StagesListed(stages) && (stages == [] <==> order == [])
    ensures forall id :: id in AllIds(stages) <==> id in order
  {
    SpelledHasNoRepeats(order, stage, stages, |stages|);
    assert stages[..|stages|] == stages;
    forall k | 0 <= k < |stages|
      ensures stages[k].index == k && stages[k].functionIds != []
    {
      assert SpelledOut(order, stage, stages, k);
    }
    if order == [] {
      assert stages != [] ==> SpelledOut(order, stage, stages, 0);
    } else {
      assert order[0] in order;
    }
  }

  lemma {:induction false} DependencyRunsForward(order: seq<Id>, dependencies: seq<Dependency>, stages: seq<Stage>,
      stage: map<Id, nat>, i: nat)
    requires PlanBy(order, EdgesOf(dependencies), stage, stages) && i < |dependencies|
    ensures Satisfiable(stages, dependencies[i])
  {
    var d := dependencies[i];
    var edges := EdgesOf(dependencies);
    assert d in dependencies && (d.producer, d.consumer) in edges;
    assert OnMinimumStage(edges, stage, d.consumer);
    forall id | id == d.producer || id == d.consumer
      ensures id in stage && Places(stages, id, stage[id])
    {
      assert id in IdSet(order) && id in order;
      assert SpelledOut(order, stage, stages, stage[id]);
      OnStageMembers(order, stage, stage[id]);
    }
  }

  // ----- execution

  datatype Entry<Inputs> = Entry(functionId: Id, inputs: Inputs)

  /** What the execution does that others can see: it asks for the inputs of a stage, or calls a whole stage at once. */
  datatype Event<Inputs, Value> =
    | Asked(stage: nat, results: map<Id, Value>)
    | Called(entries: seq<Entry<Inputs>>)

  datatype Outcome<Value> = Completed(results: map<Id, Value>) | InvalidPlan | WrongInputs | Refused | Failed

  function IdsOf<Inputs>(entries: seq<Entry<Inputs>>): seq<Id> {
    seq(|entries|, i requires 0 <= i < |entries| => entries[i].functionId)
  }

  /** All functions called, in the order of the calls. */
  function DispatchedIds<Inputs, Value>(log: seq<Event<Inputs, Value>>): seq<Id> {
    if log == [] then []
    else DispatchedIds(log[..|log| - 1]) + (if log[|log| - 1].Called? then IdsOf(log[|log| - 1].entries) else [])
  }

  predicate Covers<Inputs>(functionIds: seq<Id>, inputs: map<Id, Inputs>) {
    |inputs| == |functionIds| && forall id :: id in functionIds ==> id in inputs
  }

  /** What is provided covers a stage exactly when it has an entry for each of its functions and no other. */
  lemma {:induction false} CoversExactly<Inputs>(functionIds: seq<Id>, inputs: map<Id, Inputs>)
    requires NoRepeats(functionIds)
    ensures Covers(functionIds, inputs) <==> forall id :: id in inputs <==> id in functionIds
  {
    var ids := set id | id in functionIds;
    DifferentIds(functionIds);
    if Covers(functionIds, inputs) {
      assert ids <= inputs.Keys && |inputs.Keys| == |ids|;
      SubsetIsSmaller(ids, inputs.Keys);
    }
    if forall id :: id in inputs <==> id in functionIds {
      assert inputs.Keys == ids;
    }
  }

  lemma {:induction false} DifferentIds(functionIds: seq<Id>)
    requires NoRepeats(functionIds)
    ensures |set id | id in functionIds| == |functionIds|
  {
    if functionIds != [] {
      var rest := functionIds[1..];
      DifferentIds(rest);
      assert (set id | id in functionIds) == (set id | id in rest) + {functionIds[0]};
    }
  }

  function EntriesOf<Inputs>(functionIds: seq<Id>, inputs: map<Id, Inputs>): seq<Entry<Inputs>>
    requires forall id :: id in functionIds ==> id in inputs
  {
    seq(|functionIds|, i requires 0 <= i < |functionIds| =>
      assert functionIds[i] in functionIds; Entry(functionIds[i], inputs[functionIds[i]]))
  }

  /** Every function is known and its inputs can be encoded. */
  predicate AllAccepted<Inputs>(accepts: (Id, Inputs) -> bool, entries: seq<Entry<Inputs>>) {
    forall i :: 0 <= i < |entries| ==> accepts(entries[i].functionId, entries[i].inputs)
  }

  predicate AllAnswered<Inputs, Value>(answer: (Id, Inputs) -> Option<Value>, entries: seq<Entry<Inputs>>) {
    forall i :: 0 <= i < |entries| ==> answer(entries[i].functionId, entries[i].inputs).Some?
  }

  /** Entry 2k of the log asks for the inputs of stage k, knowing the results of exactly the stages before it. */
  ghost predicate AskedAt<Inputs, Value>(stages: seq<Stage>, log: seq<Event<Inputs, Value>>, k: nat) {
    && 2 * k < |log| && k < |stages| && log[2 * k].Asked? && log[2 * k].stage == k
    && forall id :: id in log[2 * k].results <==> id in AllIds(stages[..k])
  }

  /** Entry 2k + 1 calls all of stage k, in order, with what the entry before it was given; nothing is refused. */
  ghost predicate CalledAt<Inputs, Value>(stages: seq<Stage>, provide: (Stage, map<Id, Value>) -> map<Id, Inputs>,
                                          accepts: (Id, Inputs) -> bool, log: seq<Event<Inputs, Value>>, k: nat)
  {
    && 2 * k + 1 < |log| && k < |stages| && log[2 * k].Asked? && log[2 * k + 1].Called?
    && var inputs := provide(stages[k], log[2 * k].results);
       && Covers(stages[k].functionIds, inputs)
       && log[2 * k + 1].entries == EntriesOf(stages[k].functionIds, inputs)
       && AllAccepted(accepts, log[2 * k + 1].entries)
  }

  /** Stage by stage, each is asked for its inputs and then called as a whole; only the last may lack its call. */
  ghost predicate Orderly<Inputs, Value>(stages: seq<Stage>, provide: (Stage, map<Id, Value>) -> map<Id, Inputs>,
                                         accepts: (Id, Inputs) -> bool, log: seq<Event<Inputs, Value>>)
  {
    && (forall k: nat :: 2 * k < |log| ==> AskedAt(stages, log, k))
    && (forall k: nat :: 2 * k + 1 < |log| ==> CalledAt(stages, provide, accepts, log, k))
  }

  /** The results agree with what stage k was told and hold the answers to its calls. */
  ghost predicate AccountedAt<Inputs, Value>(answer: (Id, Inputs) -> Option<Value>, results: map<Id, Value>,
                                             log: seq<Event<Inputs, Value>>, k: nat)
    requires 2 * k + 1 < |log|
  {
    && log[2 * k].Asked? && log[2 * k + 1].Called?
    && (forall id :: id in log[2 * k].results ==> id in results && results[id] == log[2 * k].results[id])
    && AccountedFor(answer, results, log[2 * k + 1].entries)
  }

  ghost predicate AccountedFor<Inputs, Value>(answer: (Id, Inputs) -> Option<Value>, results: map<Id, Value>,
      entries: seq<Entry<Inputs>>)
  {
    forall i :: 0 <= i < |entries| ==>
      entries[i].functionId in results
        && answer(entries[i].functionId, entries[i].inputs) == Some(results[entries[i].functionId])
  }

  ghost predicate Accounted<Inputs, Value>(answer: (Id, Inputs) -> Option<Value>, results: map<Id, Value>,
      log: seq<Event<Inputs, Value>>)
  {
    forall k: nat :: 2 * k + 1 < |log| ==> AccountedAt(answer, results, log, k)
  }

  datatype StageAnswer<Value> = Answers(values: seq<Value>) | NotCalled | NotAnswered

  /**
   * Calls a stage as a whole. An empty stage, or one with an unknown function or with inputs that
   * cannot be encoded, is refused before anything is called.
   */
  method DispatchStage<Inputs, Value>(entries: seq<Entry<Inputs>>, accepts: (Id, Inputs) -> bool,
      answer: (Id, Inputs) -> Option<Value>, before: seq<Event<Inputs, Value>>)
    returns (outcome: StageAnswer<Value>, log: seq<Event<Inputs, Value>>)
    ensures outcome.NotCalled? <==> entries == [] || !AllAccepted(accepts, entries)
    ensures log == if outcome.NotCalled? then before else before + [Called(entries)]
    ensures outcome.Answers? ==> |outcome.values| == |entries| &&
                                 forall i :: 0 <= i < |entries| ==>
                                   answer(entries[i].functionId, entries[i].inputs) == Some(outcome.values[i])
    ensures outcome.NotAnswered? ==> !AllAnswered(answer, entries)
  {
    log := before;
    if |entries| == 0 {
      return NotCalled, log;
    }
    for i := 0 to |entries|
      invariant AllAccepted(accepts, entries[..i])
    {
      if !accepts(entries[i].functionId, entries[i].inputs) {
        return NotCalled, log;
      }
    }
    assert entries[..|entries|] == entries;
    log := log + [Called(entries)];
    var values: seq<Value> := [];
    for i := 0 to |entries|
      invariant |values| == i
      invariant forall k :: 0 <= k < i ==> answer(entries[k].functionId, entries[k].inputs) == Some(values[k])
    {
      var value := answer(entries[i].functionId, entries[i].inputs);
      if value.None? {
        return NotAnswered, log;
      }
      values := values + [value.value];
    }
    outcome := Answers(values);
  }

  method RecordResults<Value>(functionIds: seq<Id>, values: seq<Value>, before: map<Id, Value>)
    returns (results: map<Id, Value>)
    requires |values| == |functionIds| && NoRepeats(functionIds)
    ensures forall id :: id in results <==> id in before || id in functionIds
    ensures forall id :: id in before && id !in functionIds ==> results[id] == before[id]
    ensures forall i :: 0 <= i < |functionIds| ==> results[functionIds[i]] == values[i]
  {
    results := before;
    for position := 0 to |functionIds|
      invariant forall id :: id in results <==> id in before || id in functionIds[..position]
      invariant forall id :: id in before && id !in functionIds[..position] ==> results[id] == before[id]
      invariant forall i :: 0 <= i < position ==> functionIds[i] in results && results[functionIds[i]] == values[i]
    {
      results := results[functionIds[position] := values[position]];
    }
    assert functionIds[..|functionIds|] == functionIds;
  }

  /** Why a run stopped at stage k, told from its log. */
  ghost predicate StoppedAt<Inputs, Value>(stages: seq<Stage>, provide: (Stage, map<Id, Value>) -> map<Id, Inputs>,
                                           accepts: (Id, Inputs) -> bool, answer: (Id, Inputs) -> Option<Value>,
                                           log: seq<Event<Inputs, Value>>, k: nat, outcome: Outcome<Value>)
  {
    && AskedAt(stages, log, k)
    && var ids := stages[k].functionIds;
       var inputs := provide(stages[k], log[2 * k].results);
       match outcome
       case WrongInputs => |log| == 2 * k + 1 && !Covers(ids, inputs)
       case Refused => |log| == 2 * k + 1 && Covers(ids, inputs) && !AllAccepted(accepts, EntriesOf(ids, inputs))
       case Failed => |log| == 2 * k + 2 && Covers(ids, inputs) && !AllAnswered(answer, EntriesOf(ids, inputs))
       case _ => false
  }

  datatype StageStep<Value> = Next(results: map<Id, Value>) | Stop(outcome: Outcome<Value>)

  /** One stage: ask for its inputs, call it, record the answers. */
  method RunStage<Inputs, Value>(stages: seq<Stage>, k: nat, provide: (Stage, map<Id, Value>) -> map<Id, Inputs>,
                                 accepts: (Id, Inputs) -> bool, answer: (Id, Inputs) -> Option<Value>,
                                 results: map<Id, Value>, before: seq<Event<Inputs, Value>>)
    returns (step: StageStep<Value>, log: seq<Event<Inputs, Value>>)
    requires k < |stages| && |before| == 2 * k && StagesListed(stages)
    requires Orderly(stages, provide, accepts, before) && Accounted(answer, results, before)
    requires forall id :: id in results <==> id in AllIds(stages[..k])
    ensures Orderly(stages, provide, accepts, log)
    ensures step.Stop? ==> StoppedAt(stages, provide, accepts, answer, log, k, step.outcome)
    ensures step.Next? ==> |log| == 2 * (k + 1) && Accounted(answer, step.results, log)
    ensures step.Next? ==> forall id :: id in step.results <==> id in AllIds(stages[..k + 1])
  {
    var stage := stages[k];
    var inputsByFunction := provide(stage, results);
    log := before + [Asked(k, results)];
    AskingIsOrderly(stages, provide, accepts, before, k, results);
    if !Covers(stage.functionIds, inputsByFunction) {
      return Stop(WrongInputs), log;
    }
    var entries := EntriesOf(stage.functionIds, inputsByFunction);
    ghost var asked := log;
    var outcome;
    outcome, log := DispatchStage(entries, accepts, answer, log);
    if outcome.NotCalled? {
      return Stop(Refused), log;
    }
    CallingIsOrderly(stages, provide, accepts, asked, k, entries);
    if outcome.NotAnswered? {
      return Stop(Failed), log;
    }
    StageIsNew(stages, k);
    var recorded := RecordResults(stage.functionIds, outcome.values, results);
    StageAccounted(answer, before, k, results, entries, outcome.values, recorded);
    assert stages[..k + 1][..k] == stages[..k];
    return Next(recorded), log;
  }

  lemma {:induction false} AskingIsOrderly<Inputs, Value>(stages: seq<Stage>,
      provide: (Stage, map<Id, Value>) -> map<Id, Inputs>, accepts: (Id, Inputs) -> bool,
      before: seq<Event<Inputs, Value>>, k: nat, results: map<Id, Value>)
    requires k < |stages| && |before| == 2 * k && Orderly(stages, provide, accepts, before)
    requires forall id :: id in results <==> id in AllIds(stages[..k])
    ensures Orderly(stages, provide, accepts, before + [Asked(k, results)])
  {
    var log := before + [Asked(k, results)];
    forall l: nat | 2 * l < |log|
      ensures AskedAt(stages, log, l)
    {
      assert l < k ==> AskedAt(stages, before, l);
    }
    forall l: nat | 2 * l + 1 < |log|
      ensures CalledAt(stages, provide, accepts, log, l)
    {
      assert CalledAt(stages, provide, accepts, before, l);
    }
  }

  lemma {:induction false} CallingIsOrderly<Inputs, Value>(stages: seq<Stage>,
      provide: (Stage, map<Id, Value>) -> map<Id, Inputs>, accepts: (Id, Inputs) -> bool,
      asked: seq<Event<Inputs, Value>>, k: nat, entries: seq<Entry<Inputs>>)
    requires k < |stages| && |asked| == 2 * k + 1 && Orderly(stages, provide, accepts, asked) && asked[2 * k].Asked?
    requires var inputs := provide(stages[k], asked[2 * k].results);
             Covers(stages[k].functionIds, inputs) && entries == EntriesOf(stages[k].functionIds, inputs)
               && AllAccepted(accepts, entries)
    ensures Orderly(stages, provide, accepts, asked + [Called(entries)])
  {
    var log := asked + [Called(entries)];
    forall l: nat | 2 * l < |log|
      ensures AskedAt(stages, log, l)
    {
      assert AskedAt(stages, asked, l);
    }
    forall l: nat | 2 * l + 1 < |log|
      ensures CalledAt(stages, provide, accepts, log, l)
    {
      assert l < k ==> CalledAt(stages, provide, accepts, asked, l);
    }
  }

  /** The functions of a stage are new and different. */
  lemma {:induction false} StageIsNew(stages: seq<Stage>, k: nat)
    requires k < |stages| && StagesListed(stages)
    ensures NoRepeats(stages[k].functionIds) && forall id :: id in AllIds(stages[..k]) ==> id !in stages[k].functionIds
    ensures AllIds(stages[..k + 1]) == AllIds(stages[..k]) + stages[k].functionIds
  {
    var earlier, ids := AllIds(stages[..k]), stages[k].functionIds;
    PrefixOfAllIds(stages, k + 1);
    assert stages[..k + 1][..k] == stages[..k];
    var all := AllIds(stages[..k + 1]);
    assert all == earlier + ids;
    assert forall i, j :: 0 <= i < j < |all| ==> all[i] == AllIds(stages)[i] && all[j] == AllIds(stages)[j];
    assert NoRepeats(earlier + ids);
    forall id | id in earlier
      ensures id !in ids
    {
      NoRepeatsAcross(earlier, ids, id);
    }
    forall i, j | 0 <= i < j < |ids|
      ensures ids[i] != ids[j]
    {
      assert (earlier + ids)[|earlier| + i] != (earlier + ids)[|earlier| + j];
    }
  }

  lemma {:induction false} StageAccounted<Inputs, Value>(answer: (Id, Inputs) -> Option<Value>,
      before: seq<Event<Inputs, Value>>, k: nat, results: map<Id, Value>, entries: seq<Entry<Inputs>>,
      values: seq<Value>, after: map<Id, Value>)
    requires |before| == 2 * k && Accounted(answer, results, before) && |values| == |entries|
    requires forall i :: 0 <= i < |entries| ==> answer(entries[i].functionId, entries[i].inputs) == Some(values[i])
    requires forall id :: id in results ==> id in after && after[id] == results[id]
    requires forall i ::
             0 <= i < |entries| ==> entries[i].functionId in after && after[entries[i].functionId] == values[i]
    ensures Accounted(answer, after, before + [Asked(k, results)] + [Called(entries)])
  {
    var log := before + [Asked(k, results)] + [Called(entries)];
    forall l: nat | 2 * l + 1 < |log|
      ensures AccountedAt(answer, after, log, l)
    {
      if l < k {
        assert AccountedAt(answer, results, before, l);
      }
    }
  }

  /** An orderly log calls the functions of the stages in order. */
  lemma {:induction false} CallsFollowStages<Inputs, Value>(stages: seq<Stage>,
      provide: (Stage, map<Id, Value>) -> map<Id, Inputs>, accepts: (Id, Inputs) -> bool,
      log: seq<Event<Inputs, Value>>, n: nat)
    requires Orderly(stages, provide, accepts, log) && n <= |log|
    ensures n / 2 <= |stages| && DispatchedIds(log[..n]) == AllIds(stages[..n / 2])
  {
    if n > 0 {
      CallsFollowStages(stages, provide, accepts, log, n - 1);
      assert log[..n][..n - 1] == log[..n - 1];
      var k := (n - 1) / 2;
      if n == 2 * k + 1 {
        assert AskedAt(stages, log, k);
      } else {
        assert CalledAt(stages, provide, accepts, log, k);
        assert IdsOf(log[n - 1].entries) == stages[k].functionIds;
        assert stages[..k + 1][..k] == stages[..k];
      }
    }
  }

  /**
   * Runs a plan the check accepts. The log alternates between asking for a stage's inputs and calling
   * the whole stage with them; so functions are called in stage order, each at most once. A completed
   * run has called every function, and its results are the answers; any other stops at the stage whose
   * inputs are missing, refused or not answered.
   */
  method ExecuteArtifactPlan<Inputs, Value>(stages: seq<Stage>, dependencies: seq<Dependency>,
                                            provide: (Stage, map<Id, Value>) -> map<Id, Inputs>,
                                            accepts: (Id, Inputs) -> bool, answer: (Id, Inputs) -> Option<Value>)
    returns (outcome: Outcome<Value>, log: seq<Event<Inputs, Value>>)
    ensures outcome.InvalidPlan? <==> !RuntimeAccepts(stages, dependencies)
    ensures outcome.InvalidPlan? ==> log == []
    ensures Orderly(stages, provide, accepts, log)
    ensures |log| / 2 <= |stages| && DispatchedIds(log) == AllIds(stages[..|log| / 2])
    ensures outcome.Completed? ==> DispatchedIds(log) == AllIds(stages) && Accounted(answer, outcome.results, log)
    ensures outcome.Completed? ==> forall id :: id in outcome.results <==> id in AllIds(stages)
    ensures outcome.Completed? || outcome.InvalidPlan?
            || exists k :: StoppedAt(stages, provide, accepts, answer, log, k, outcome)
  {
    log := [];
    var accepted := ValidateExecutionPlan(stages, dependencies);
    if !accepted {
      return InvalidPlan, log;
    }
    var results: map<Id, Value> := map[];
    for k := 0 to |stages|
      invariant |log| == 2 * k && Orderly(stages, provide, accepts, log) && Accounted(answer, results, log)
      invariant forall id :: id in results <==> id in AllIds(stages[..k])
    {
      var step;
      step, log := RunStage(stages, k, provide, accepts, answer, results, log);
      if step.Stop? {
        CallsFollowStages(stages, provide, accepts, log, |log|);
        assert log[..|log|] == log;
        return step.outcome, log;
      }
      results := step.results;
    }
    CallsFollowStages(stages, provide, accepts, log, |log|);
    assert log[..|log|] == log && stages[..|stages|] == stages;
    return Completed(results), log;
  }

  /** When a stage is asked for its inputs, every producer of one of its functions has its result on hand. */
  lemma {:induction false} ProducersAreOnHand<Inputs, Value>(stages: seq<Stage>, dependencies: seq<Dependency>, i: nat,
                                                             log: seq<Event<Inputs, Value>>, k: nat)
    requires RuntimeAccepts(stages, dependencies) && i < |dependencies|
    requires AskedAt(stages, log, k) && Places(stages, dependencies[i].consumer, k)
    ensures dependencies[i].producer in log[2 * k].results
  {
    var d := dependencies[i];
    assert Satisfiable(stages, d);
    var p, c :| Places(stages, d.producer, p) && Places(stages, d.consumer, c) && p < c;
    PlacedOnce(stages, d.consumer, c, k);
    assert Places(stages[..k], d.producer, p);
    AllIdsArePlaced(stages[..k], d.producer);
  }
}
