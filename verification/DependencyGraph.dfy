/**
 * Producer-to-consumer edges between function identifiers: walks, cycles and
 * the length of the longest dependency chain that ends at a function.
 */
module DependencyGraph {
  import opened ByteOrder

  type Id = Bytes

  /** Pairs (producer, consumer). */
  type Edges = set<(Id, Id)>

  ghost predicate Within(edges: Edges, ids: set<Id>) {
    forall edge :: edge in edges ==> edge.0 in ids && edge.1 in ids
  }

  predicate Linked(edges: Edges, walk: seq<Id>, i: int) {
    0 <= i < |walk| - 1 && (walk[i], walk[i + 1]) in edges
  }

  ghost predicate IsWalk(edges: Edges, walk: seq<Id>) {
    walk != [] && forall i :: 0 <= i < |walk| - 1 ==> Linked(edges, walk, i)
  }

  ghost predicate EndsAt(edges: Edges, walk: seq<Id>, id: Id) {
    IsWalk(edges, walk) && walk[|walk| - 1] == id
  }

  /** A walk along at least one edge that returns to where it started. */
  ghost predicate IsClosedWalk(edges: Edges, walk: seq<Id>) {
    IsWalk(edges, walk) && |walk| >= 2 && walk[0] == walk[|walk| - 1]
  }

  ghost predicate HasCycle(edges: Edges) {
    exists walk :: IsClosedWalk(edges, walk)
  }

  /** The longest chain of edges that ends at `id` has exactly `length` edges. */
  ghost predicate LongestChain(edges: Edges, id: Id, length: nat) {
    && (exists walk :: EndsAt(edges, walk, id) && |walk| == length + 1)
    && (forall walk :: EndsAt(edges, walk, id) ==> |walk| <= length + 1)
  }

  /** `id` sits on the least stage above all of its producers. */
  ghost predicate OnMinimumStage(edges: Edges, stage: map<Id, nat>, id: Id) {
    && id in stage
    && (forall producer :: (producer, id) in edges ==> producer in stage && stage[producer] < stage[id])
    && (stage[id] == 0 ||
        exists producer :: (producer, id) in edges && producer in stage && stage[producer] + 1 == stage[id])
  }

  ghost predicate MinimumStages(ids: set<Id>, edges: Edges, stage: map<Id, nat>) {
    && stage.Keys == ids
    && Within(edges, ids)
    && forall id {:trigger OnMinimumStage(edges, stage, id)} :: id in ids ==> OnMinimumStage(edges, stage, id)
  }

  lemma {:induction false} WalkIsNoLongerThanStage(ids: set<Id>, edges: Edges, stage: map<Id, nat>, walk: seq<Id>,
      id: Id)
    requires MinimumStages(ids, edges, stage) && id in ids && EndsAt(edges, walk, id)
    ensures |walk| <= stage[id] + 1
    ensures walk[0] in stage && stage[walk[0]] + |walk| <= stage[id] + 1
    decreases |walk|
  {
    if |walk| > 1 {
      var shorter := walk[..|walk| - 1];
      assert Linked(edges, walk, |walk| - 2);
      assert OnMinimumStage(edges, stage, id);
      forall i | 0 <= i < |shorter| - 1
        ensures Linked(edges, shorter, i)
      {
        assert Linked(edges, walk, i);
      }
      WalkIsNoLongerThanStage(ids, edges, stage, shorter, walk[|walk| - 2]);
    }
  }

  lemma {:induction false} StageHasWalk(ids: set<Id>, edges: Edges, stage: map<Id, nat>, id: Id) returns (walk: seq<Id>)
    requires MinimumStages(ids, edges, stage) && id in ids
    ensures EndsAt(edges, walk, id) && |walk| == stage[id] + 1
    decreases stage[id]
  {
    walk := [id];
    assert OnMinimumStage(edges, stage, id);
    if stage[id] > 0 {
      var producer :| (producer, id) in edges && producer in stage && stage[producer] + 1 == stage[id];
      assert (producer, id) in edges;
      var chain := StageHasWalk(ids, edges, stage, producer);
      ExtendWalk(edges, chain, id);
      walk := chain + [id];
    }
  }

  lemma {:induction false} ExtendWalk(edges: Edges, chain: seq<Id>, id: Id)
    requires IsWalk(edges, chain) && (chain[|chain| - 1], id) in edges
    ensures EndsAt(edges, chain + [id], id)
  {
    var walk := chain + [id];
    forall i | 0 <= i < |walk| - 1
      ensures Linked(edges, walk, i)
    {
      assert i < |chain| - 1 ==> Linked(edges, chain, i);
    }
  }

  lemma {:induction false} StageIsLongestChain(ids: set<Id>, edges: Edges, stage: map<Id, nat>, id: Id)
    requires MinimumStages(ids, edges, stage) && id in ids
    ensures LongestChain(edges, id, stage[id])
  {
    var chain := StageHasWalk(ids, edges, stage, id);
    forall walk | EndsAt(edges, walk, id)
      ensures |walk| <= stage[id] + 1
    {
      WalkIsNoLongerThanStage(ids, edges, stage, walk, id);
    }
  }

  lemma {:induction false} StagedGraphHasNoCycle(ids: set<Id>, edges: Edges, stage: map<Id, nat>)
    requires MinimumStages(ids, edges, stage)
    ensures !HasCycle(edges)
  {
    if HasCycle(edges) {
      var walk :| IsClosedWalk(edges, walk);
      assert Linked(edges, walk, |walk| - 2);
      WalkIsNoLongerThanStage(ids, edges, stage, walk, walk[0]);
    }
  }

  /** The local rule pins the stage of every function to the length of its longest dependency chain. */
  lemma {:induction false} MinimumStageIsLongestChain(ids: set<Id>, edges: Edges, stage: map<Id, nat>)
    requires MinimumStages(ids, edges, stage)
    ensures forall id :: id in ids ==> LongestChain(edges, id, stage[id])
    ensures !HasCycle(edges)
  {
    StagedGraphHasNoCycle(ids, edges, stage);
    forall id | id in ids
      ensures LongestChain(edges, id, stage[id])
    {
      StageIsLongestChain(ids, edges, stage, id);
    }
  }

  lemma {:induction false} MinimumStagesAreUnique(ids: set<Id>, edges: Edges, a: map<Id, nat>, b: map<Id, nat>)
    requires MinimumStages(ids, edges, a) && MinimumStages(ids, edges, b)
    ensures a == b
  {
    forall id | id in ids
      ensures a[id] == b[id]
    {
      var chainA := StageHasWalk(ids, edges, a, id);
      WalkIsNoLongerThanStage(ids, edges, b, chainA, id);
      var chainB := StageHasWalk(ids, edges, b, id);
      WalkIsNoLongerThanStage(ids, edges, a, chainB, id);
    }
  }

  ghost predicate Distinct(ids: seq<Id>) {
    forall i, j :: 0 <= i < j < |ids| ==> ids[i] != ids[j]
  }

  ghost predicate AfterConsumers(edges: Edges, finished: seq<Id>, i: nat) {
    i < |finished| && forall consumer :: (finished[i], consumer) in edges ==> consumer in finished[..i]
  }

  /** Every function is listed after all of its consumers. */
  ghost predicate ConsumersFirst(edges: Edges, finished: seq<Id>) {
    forall i: nat :: i < |finished| ==> AfterConsumers(edges, finished, i)
  }

  lemma {:induction false} WalkMovesEarlier(edges: Edges, finished: seq<Id>, walk: seq<Id>, at: nat)
    requires ConsumersFirst(edges, finished) && IsWalk(edges, walk) && |walk| >= 2
    requires at < |finished| && finished[at] == walk[0]
    ensures walk[|walk| - 1] in finished[..at]
    decreases |walk|
  {
    assert Linked(edges, walk, 0) && AfterConsumers(edges, finished, at);
    var next :| 0 <= next < at && finished[next] == walk[1];
    if |walk| > 2 {
      var rest := walk[1..];
      forall i | 0 <= i < |rest| - 1
        ensures Linked(edges, rest, i)
      {
        assert Linked(edges, walk, i + 1);
      }
      WalkMovesEarlier(edges, finished, rest, next);
    }
  }

  lemma {:induction false} FinishedGraphHasNoCycle(ids: set<Id>, edges: Edges, finished: seq<Id>)
    requires Within(edges, ids) && Distinct(finished) && ConsumersFirst(edges, finished)
    requires forall id :: id in ids ==> id in finished
    ensures !HasCycle(edges)
  {
    if HasCycle(edges) {
      var walk :| IsClosedWalk(edges, walk);
      assert Linked(edges, walk, 0);
      var at :| 0 <= at < |finished| && finished[at] == walk[0];
      WalkMovesEarlier(edges, finished, walk, at);
      assert false;
    }
  }

  ghost predicate WaitsOn(edges: Edges, waiting: set<Id>, id: Id) {
    exists producer :: producer in waiting && (producer, id) in edges
  }

  /** Functions that wait for one another: each has a producer among them. */
  ghost predicate Stuck(edges: Edges, waiting: set<Id>) {
    waiting != {} && forall id {:trigger WaitsOn(edges, waiting, id)} :: id in waiting ==> WaitsOn(edges, waiting, id)
  }

  lemma {:induction false} ConsumerIsEarlier(edges: Edges, finished: seq<Id>, producer: nat, consumer: nat)
    requires Distinct(finished) && ConsumersFirst(edges, finished)
    requires producer < |finished| && consumer < |finished| && (finished[producer], finished[consumer]) in edges
    ensures consumer < producer
  {
    assert AfterConsumers(edges, finished, producer);
  }

  lemma {:induction false} NothingStuckFrom(edges: Edges, waiting: set<Id>, finished: seq<Id>, from: nat)
    requires Distinct(finished) && ConsumersFirst(edges, finished) && from <= |finished|
    requires Stuck(edges, waiting)
    requires forall id :: id in waiting ==> id in finished
    ensures forall i :: from <= i < |finished| ==> finished[i] !in waiting
    decreases |finished| - from
  {
    if from < |finished| {
      NothingStuckFrom(edges, waiting, finished, from + 1);
      if finished[from] in waiting {
        assert WaitsOn(edges, waiting, finished[from]);
        var producer :| producer in waiting && (producer, finished[from]) in edges;
        assert producer in finished;
        var at :| 0 <= at < |finished| && finished[at] == producer;
        ConsumerIsEarlier(edges, finished, at, from);
        assert false;
      }
    }
  }

  lemma {:induction false} StuckGraphIsNotFinished(edges: Edges, waiting: set<Id>, finished: seq<Id>)
    requires Distinct(finished) && ConsumersFirst(edges, finished)
    requires forall id :: id in waiting ==> id in finished
    ensures !Stuck(edges, waiting)
  {
    if Stuck(edges, waiting) {
      NothingStuckFrom(edges, waiting, finished, 0);
      assert false;
    }
  }

  lemma {:induction false} SubsetIsSmaller<T>(small: set<T>, large: set<T>)
    requires small <= large
    ensures |small| <= |large|
    ensures small != large ==> |small| < |large|
  {
    if small != {} {
      var x :| x in small;
      SubsetIsSmaller(small - {x}, large - {x});
      assert small == (small - {x}) + {x} && large == (large - {x}) + {x};
    }
  }
}
