/**
 * What an execution plan has to be: every function on the stage given by its longest
 * dependency chain, stages dense, and function order inside a stage the source order.
 */
module PlanSpec {
  import opened ByteOrder
  import opened DependencyGraph
  import opened Sorting

  datatype Dependency = Dependency(producer: Id, consumer: Id, input: Bytes)

  datatype Stage = Stage(index: int, functionIds: seq<Id>)

  function EdgesOf(dependencies: seq<Dependency>): Edges {
    set d | d in dependencies :: (d.producer, d.consumer)
  }

  function Names(sites: seq<Site>): seq<Id> {
    seq(|sites|, i requires 0 <= i < |sites| => sites[i].functionId)
  }

  function IdSet(order: seq<Id>): set<Id> {
    set id | id in order
  }

  /** The functions of `order` on stage `k`, in that order. */
  ghost function OnStage(order: seq<Id>, stage: map<Id, nat>, k: nat): seq<Id> {
    if order == [] then []
    else (if order[0] in stage && stage[order[0]] == k then [order[0]] else []) + OnStage(order[1..], stage, k)
  }

  ghost predicate SpelledOut(order: seq<Id>, stage: map<Id, nat>, stages: seq<Stage>, k: nat) {
    k < |stages| && stages[k] == Stage(k, OnStage(order, stage, k)) && stages[k].functionIds != []
  }

  /** The list of stages that a stage assignment amounts to. */
  ghost predicate Spells(order: seq<Id>, stage: map<Id, nat>, stages: seq<Stage>) {
    && (forall k: nat :: k < |stages| ==> SpelledOut(order, stage, stages, k))
    && (forall id :: id in order ==> id in stage && stage[id] < |stages|)
  }

  ghost predicate PlanBy(order: seq<Id>, edges: Edges, stage: map<Id, nat>, stages: seq<Stage>) {
    MinimumStages(IdSet(order), edges, stage) && Spells(order, stage, stages)
  }

  /** A plan for the functions of `order` under the dependency edges. */
  ghost predicate ValidPlan(order: seq<Id>, edges: Edges, stages: seq<Stage>) {
    exists stage :: PlanBy(order, edges, stage, stages)
  }

  lemma {:induction false} OnStageMembers(order: seq<Id>, stage: map<Id, nat>, k: nat)
    ensures forall id :: id in OnStage(order, stage, k) <==> id in order && id in stage && stage[id] == k
  {
    if order != [] {
      OnStageMembers(order[1..], stage, k);
      assert order == [order[0]] + order[1..];
    }
  }

  /** Every spelled-out stage holds some function of the order. */
  lemma {:induction false} SpelledStageHolds(order: seq<Id>, stage: map<Id, nat>, stages: seq<Stage>, k: nat)
    returns (id: Id)
    requires Spells(order, stage, stages) && k < |stages|
    ensures id in order && id in stage && stage[id] == k
  {
    assert SpelledOut(order, stage, stages, k);
    id := stages[k].functionIds[0];
    assert id in OnStage(order, stage, k);
    OnStageMembers(order, stage, k);
  }

  lemma {:induction false} SpelledNoFurther(order: seq<Id>, stage: map<Id, nat>, a: seq<Stage>, b: seq<Stage>)
    requires Spells(order, stage, a) && Spells(order, stage, b)
    ensures |a| <= |b|
  {
    if |b| < |a| {
      var id := SpelledStageHolds(order, stage, a, |b|);
    }
  }

  /**
   * There is at most one valid plan for given functions and dependencies, so nothing the
   * planner is free to choose while it works can show in its result.
   */
  lemma {:induction false} ValidPlanIsUnique(order: seq<Id>, edges: Edges, a: seq<Stage>, b: seq<Stage>)
    requires ValidPlan(order, edges, a) && ValidPlan(order, edges, b)
    ensures a == b
  {
    var stageA :| PlanBy(order, edges, stageA, a);
    var stageB :| PlanBy(order, edges, stageB, b);
    MinimumStagesAreUnique(IdSet(order), edges, stageA, stageB);
    SpelledNoFurther(order, stageA, a, b);
    SpelledNoFurther(order, stageA, b, a);
    forall k: nat | k < |a|
      ensures a[k] == b[k]
    {
      assert SpelledOut(order, stageA, a, k) && SpelledOut(order, stageA, b, k);
    }
  }

  ghost predicate Places(stages: seq<Stage>, id: Id, k: int) {
    0 <= k < |stages| && id in stages[k].functionIds
  }

  /**
   * In a valid plan each function is on exactly one stage, the number of that stage is the
   * length of its longest dependency chain, and there is no dependency cycle.
   */
  lemma {:induction false} ValidPlanStagesAreLongestChains(order: seq<Id>, edges: Edges, stages: seq<Stage>)
    requires ValidPlan(order, edges, stages)
    ensures forall id, k :: id in order && 0 <= k < |stages| ==> (Places(stages, id, k) <==> LongestChain(edges, id, k))
    ensures forall id, k :: Places(stages, id, k) ==> id in order
    ensures forall id :: id in order ==> exists k :: Places(stages, id, k)
    ensures !HasCycle(edges)
  {
    var stage :| PlanBy(order, edges, stage, stages);
    MinimumStageIsLongestChain(IdSet(order), edges, stage);
    forall id, k | Places(stages, id, k)
      ensures id in order && stage[id] == k
    {
      assert SpelledOut(order, stage, stages, k);
      OnStageMembers(order, stage, k);
    }
    forall id | id in order
      ensures Places(stages, id, stage[id])
    {
      assert SpelledOut(order, stage, stages, stage[id]);
      OnStageMembers(order, stage, stage[id]);
    }
    forall id, k | id in order && 0 <= k < |stages|
      ensures Places(stages, id, k) <==> LongestChain(edges, id, k)
    {
      assert id in IdSet(order) && LongestChain(edges, id, stage[id]);
      LongestChainIsUnique(edges, id, stage[id], k);
    }
  }

  lemma {:induction false} LongestChainIsUnique(edges: Edges, id: Id, a: nat, b: nat)
    requires LongestChain(edges, id, a)
    ensures LongestChain(edges, id, b) <==> a == b
  {
    var chain :| EndsAt(edges, chain, id) && |chain| == a + 1;
    if LongestChain(edges, id, b) {
      var other :| EndsAt(edges, other, id) && |other| == b + 1;
    }
  }

  /** Every stage below a used stage is used. */
  lemma {:induction false} StagesAreDense(ids: set<Id>, edges: Edges, stage: map<Id, nat>, id: Id, k: nat)
    requires MinimumStages(ids, edges, stage) && id in ids && k <= stage[id]
    ensures exists other :: other in ids && stage[other] == k
    decreases stage[id]
  {
    if k < stage[id] {
      assert OnMinimumStage(edges, stage, id);
      var producer :| (producer, id) in edges && producer in stage && stage[producer] + 1 == stage[id];
      StagesAreDense(ids, edges, stage, producer, k);
    }
  }
}
