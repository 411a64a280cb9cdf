/**
 * The check of the stages of a bundle, and the bundle check as a whole.
 */
module StageCheck {
  import opened ByteOrder
  import opened BundleIr
  import opened DependencyGraph
  import opened DependencyOrder
  import opened Outcomes
  import opened PlanSpec
  import opened Sorting

  ghost predicate RankAscending(ids: seq<Id>, ranks: Ranks) {
    && (forall i :: 0 <= i < |ids| ==> ids[i] in ranks.rankById)
    && (forall i, j :: 0 <= i < j < |ids| ==> SiteRank(ranks, ids[i]) < SiteRank(ranks, ids[j]))
  }

  /** Stage `k` is dense, nonempty, in source order, and holds only functions that `stage` puts there. */
  ghost predicate StageRight(stages: seq<Stage>, ranks: Ranks, stage: map<Id, nat>, k: nat) {
    && k < |stages| && stages[k].index == k && stages[k].functionIds != []
    && RankAscending(stages[k].functionIds, ranks)
    && forall id :: id in stages[k].functionIds ==> id in stage && stage[id] == k
  }

  /** The first `n` stages have been walked, and `stageById` records exactly their functions. */
  ghost predicate AssignedUpTo(stages: seq<Stage>, ranks: Ranks, stageById: map<Id, nat>, n: nat) {
    && n <= |stages|
    && (forall k: nat :: k < n ==> StageRight(stages, ranks, stageById, k))
    && (forall id :: id in stageById ==> stageById[id] < n && id in stages[stageById[id]].functionIds)
  }

  lemma {:induction false} OrderAscends(signatures: seq<Signature>, ranks: Ranks)
    requires Ranked(signatures, ranks)
    ensures RankAscending(Ids(signatures), ranks)
    ensures IdSet(Ids(signatures)) == ranks.rankById.Keys
  {
    var order := Ids(signatures);
    forall i | 0 <= i < |order|
      ensures order[i] in ranks.rankById && ranks.rankById[order[i]] == i
    {
      assert RankedAt(signatures, ranks, i);
    }
    forall id | id in ranks.rankById
      ensures id in order
    {
      assert order[ranks.rankById[id]] == id;
    }
  }

  lemma {:induction false} OnStageAscends(order: seq<Id>, ranks: Ranks, stage: map<Id, nat>, k: nat)
    requires RankAscending(order, ranks)
    ensures RankAscending(OnStage(order, stage, k), ranks)
  {
    if order != [] {
      var rest := OnStage(order[1..], stage, k);
      RankAscendingTail(order, ranks);
      OnStageAscends(order[1..], ranks, stage, k);
      OnStageMembers(order[1..], stage, k);
      FirstRanksBelow(order, rest, ranks);
    }
  }

  lemma {:induction false} RankAscendingTail(ids: seq<Id>, ranks: Ranks)
    requires ids != [] && RankAscending(ids, ranks)
    ensures RankAscending(ids[1..], ranks)
  {
  }

  lemma {:induction false} FirstRanksBelow(order: seq<Id>, rest: seq<Id>, ranks: Ranks)
    requires order != [] && RankAscending(order, ranks) && RankAscending(rest, ranks)
    requires forall id :: id in rest ==> id in order[1..]
    ensures RankAscending([order[0]] + rest, ranks)
  {
    forall j | 0 <= j < |rest|
      ensures SiteRank(ranks, order[0]) < SiteRank(ranks, rest[j])
    {
      assert rest[j] in order[1..];
    }
  }

  lemma {:induction false} SpelledStagesAreRight(order: seq<Id>, ranks: Ranks, stage: map<Id, nat>, stages: seq<Stage>,
      k: nat)
    requires RankAscending(order, ranks) && Spells(order, stage, stages) && k < |stages|
    ensures StageRight(stages, ranks, stage, k)
  {
    assert SpelledOut(order, stage, stages, k);
    OnStageAscends(order, ranks, stage, k);
    OnStageMembers(order, stage, k);
  }

  function ByRank(ranks: Ranks): (Id, Id) -> bool {
    (a: Id, b: Id) => SiteRank(ranks, a) < SiteRank(ranks, b)
  }

  lemma {:induction false} AscendingListIsUnique(signatures: seq<Signature>, ranks: Ranks, a: seq<Id>, b: seq<Id>)
    requires Ranked(signatures, ranks) && RankAscending(a, ranks) && RankAscending(b, ranks)
    requires forall id :: id in a <==> id in b
    ensures a == b
  {
    AscendingIsOrdered(ranks, a);
    AscendingIsOrdered(ranks, b);
    NoRepeatsCount(a);
    NoRepeatsCount(b);
    forall id
      ensures multiset(a)[id] == multiset(b)[id]
    {
      assert id in multiset(a) <==> id in a;
      assert id in multiset(b) <==> id in b;
    }
    forall x, y | x in multiset(a) && y in multiset(a) && !ByRank(ranks)(x, y) && !ByRank(ranks)(y, x)
      ensures x == y
    {
      assert x in a && y in a;
      assert x == signatures[ranks.rankById[x]].id && y == signatures[ranks.rankById[y]].id;
    }
    OrderedIsUnique(ByRank(ranks), a, b);
  }

  lemma {:induction false} AscendingIsOrdered(ranks: Ranks, ids: seq<Id>)
    requires RankAscending(ids, ranks)
    ensures NoRepeats(ids) && Ordered(ByRank(ranks), ids)
  {
    forall i: nat, j: nat | i < j < |ids|
      ensures InOrder(ByRank(ranks), ids, i, j)
    {
    }
  }

  /** Stages walked without complaint, covering every function, spell their own stage map. */
  lemma {:induction false} WalkedStagesAreSpelled(signatures: seq<Signature>, ranks: Ranks, stages: seq<Stage>,
      stageById: map<Id, nat>)
    requires Ranked(signatures, ranks)
    requires AssignedUpTo(stages, ranks, stageById, |stages|) && stageById.Keys == ranks.rankById.Keys
    ensures Spells(Ids(signatures), stageById, stages)
  {
    var order := Ids(signatures);
    OrderAscends(signatures, ranks);
    forall k: nat | k < |stages|
      ensures SpelledOut(order, stageById, stages, k)
    {
      assert StageRight(stages, ranks, stageById, k);
      OnStageAscends(order, ranks, stageById, k);
      OnStageMembers(order, stageById, k);
      assert forall id :: id in order <==> id in IdSet(order);
      AscendingListIsUnique(signatures, ranks, stages[k].functionIds, OnStage(order, stageById, k));
    }
    assert forall id :: id in order ==> id in IdSet(order);
  }

  /** Whatever map a list of stages spells agrees with what was walked. */
  lemma {:induction false} SpelledMapAgrees(order: seq<Id>, ranks: Ranks, stages: seq<Stage>, stageById: map<Id, nat>,
      stage: map<Id, nat>, n: nat)
    requires RankAscending(order, ranks) && Spells(order, stage, stages)
    requires AssignedUpTo(stages, ranks, stageById, n)
    ensures forall id :: id in stageById ==> id in stage && stage[id] == stageById[id]
  {
    forall id | id in stageById
      ensures id in stage && stage[id] == stageById[id]
    {
      SpelledStagesAreRight(order, ranks, stage, stages, stageById[id]);
    }
  }

  ghost predicate NoPlan(order: seq<Id>, stages: seq<Stage>) {
    forall stage :: !Spells(order, stage, stages)
  }

  /** Walking state inside stage `k`: the first `i` of its functions are recorded. */
  ghost predicate Walking(stages: seq<Stage>, ranks: Ranks, before: map<Id, nat>, stageById: map<Id, nat>, k: nat,
      i: nat)
  {
    && k < |stages| && i <= |stages[k].functionIds|
    && RankAscending(stages[k].functionIds[..i], ranks)
    && (forall id :: id in stageById <==> id in before || id in stages[k].functionIds[..i])
    && (forall id :: id in before ==> id !in stages[k].functionIds[..i] && stageById[id] == before[id])
    && (forall id :: id in stages[k].functionIds[..i] ==> id in stageById && stageById[id] == k)
  }

  method AssignStage(signatures: seq<Signature>, stages: seq<Stage>, k: nat, ranks: Ranks, before: map<Id, nat>)
    returns (outcome: Result<map<Id, nat>, Rejection>)
    requires Ranked(signatures, ranks) && k < |stages|
    requires AssignedUpTo(stages, ranks, before, k)
    ensures outcome.Ok? ==> AssignedUpTo(stages, ranks, outcome.value, k + 1)
    ensures outcome.Err? ==> NoPlan(Ids(signatures), stages)
  {
    ghost var order := Ids(signatures);
    OrderAscends(signatures, ranks);
    var stage := stages[k];
    if stage.index != k {
      WrongStage(order, ranks, stages, k);
      return Err(SparseStages);
    }
    if |stage.functionIds| == 0 {
      WrongStage(order, ranks, stages, k);
      return Err(EmptyStage);
    }
    var stageById: map<Id, nat> := before;
    var previousRank: int := -1;
    for i := 0 to |stage.functionIds|
      invariant Walking(stages, ranks, before, stageById, k, i)
      invariant previousRank == RankBefore(ranks, stage.functionIds, i)
    {
      var id := stage.functionIds[i];
      var problem := CheckPlacement(order, stages, k, ranks, before, stageById, i, previousRank);
      if problem.Some? {
        return Err(problem.value);
      }
      WalkOne(stages, ranks, before, stageById, k, i);
      previousRank := ranks.rankById[id];
      stageById := stageById[id := k];
    }
    StageWalked(stages, ranks, before, stageById, k);
    return Ok(stageById);
  }

  ghost function RankBefore(ranks: Ranks, ids: seq<Id>, i: nat): int
    requires i <= |ids|
  {
    if i > 0 && ids[i - 1] in ranks.rankById then SiteRank(ranks, ids[i - 1]) else -1
  }

  /** The checks on one function of a stage: known, not placed yet, and after the one before it. */
  method CheckPlacement(ghost order: seq<Id>, stages: seq<Stage>, k: nat, ranks: Ranks, ghost before: map<Id, nat>,
                        stageById: map<Id, nat>, i: nat, previousRank: int)
    returns (problem: Option<Rejection>)
    requires RankAscending(order, ranks) && AssignedUpTo(stages, ranks, before, k)
    requires Walking(stages, ranks, before, stageById, k, i) && i < |stages[k].functionIds|
    requires previousRank == RankBefore(ranks, stages[k].functionIds, i)
    ensures problem.Some? ==> NoPlan(order, stages)
    ensures problem.None? ==> Placeable(stages[k].functionIds, ranks, stageById, i)
  {
    var id := stages[k].functionIds[i];
    if id !in ranks.rankById {
      WrongStage(order, ranks, stages, k);
      return Some(UnknownFunction);
    }
    if id in stageById {
      AlreadyPlaced(order, ranks, stages, before, stageById, k, i);
      return Some(PlacedTwice);
    }
    PreviousIsRanked(stages, ranks, before, stageById, k, i);
    if ranks.rankById[id] <= previousRank {
      OutOfOrder(order, ranks, stages, k, i);
      return Some(StageOutOfOrder);
    }
    return None;
  }

  ghost predicate Placeable(ids: seq<Id>, ranks: Ranks, stageById: map<Id, nat>, i: nat) {
    && i < |ids| && ids[i] in ranks.rankById && ids[i] !in stageById
    && (i > 0 ==> ids[i - 1] in ranks.rankById && SiteRank(ranks, ids[i - 1]) < SiteRank(ranks, ids[i]))
  }

  lemma {:induction false} PreviousIsRanked(stages: seq<Stage>, ranks: Ranks, before: map<Id, nat>,
      stageById: map<Id, nat>, k: nat, i: nat)
    requires Walking(stages, ranks, before, stageById, k, i) && i < |stages[k].functionIds|
    ensures i > 0 ==> stages[k].functionIds[i - 1] in ranks.rankById
  {
    assert i > 0 ==> stages[k].functionIds[..i][i - 1] == stages[k].functionIds[i - 1];
  }

  /** A stage that is not dense, nonempty and in source order belongs to no plan. */
  lemma {:induction false} WrongStage(order: seq<Id>, ranks: Ranks, stages: seq<Stage>, k: nat)
    requires RankAscending(order, ranks) && k < |stages|
    requires stages[k].index != k || stages[k].functionIds == [] || !RankAscending(stages[k].functionIds, ranks)
    ensures NoPlan(order, stages)
  {
    forall stage
      ensures !Spells(order, stage, stages)
    {
      if Spells(order, stage, stages) {
        SpelledStagesAreRight(order, ranks, stage, stages, k);
      }
    }
  }

  lemma {:induction false} OutOfOrder(order: seq<Id>, ranks: Ranks, stages: seq<Stage>, k: nat, i: nat)
    requires RankAscending(order, ranks) && k < |stages| && 0 < i < |stages[k].functionIds|
    requires stages[k].functionIds[i - 1] in ranks.rankById && stages[k].functionIds[i] in ranks.rankById
    requires SiteRank(ranks, stages[k].functionIds[i]) <= SiteRank(ranks, stages[k].functionIds[i - 1])
    ensures NoPlan(order, stages)
  {
    WrongStage(order, ranks, stages, k);
  }

  lemma {:induction false} AlreadyPlaced(order: seq<Id>, ranks: Ranks, stages: seq<Stage>, before: map<Id, nat>,
      stageById: map<Id, nat>, k: nat, i: nat)
    requires RankAscending(order, ranks) && AssignedUpTo(stages, ranks, before, k)
    requires Walking(stages, ranks, before, stageById, k, i) && i < |stages[k].functionIds|
    requires stages[k].functionIds[i] in stageById
    ensures NoPlan(order, stages)
  {
    var ids := stages[k].functionIds;
    forall stage
      ensures !Spells(order, stage, stages)
    {
      if Spells(order, stage, stages) {
        SpelledStagesAreRight(order, ranks, stage, stages, k);
        if ids[i] in before {
          SpelledMapAgrees(order, ranks, stages, before, stage, k);
        }
        assert false;
      }
    }
  }

  lemma {:induction false} WalkOne(stages: seq<Stage>, ranks: Ranks, before: map<Id, nat>, stageById: map<Id, nat>,
      k: nat, i: nat)
    requires Walking(stages, ranks, before, stageById, k, i) && i < |stages[k].functionIds|
    requires Placeable(stages[k].functionIds, ranks, stageById, i)
    ensures Walking(stages, ranks, before, stageById[stages[k].functionIds[i] := k], k, i + 1)
  {
    var ids := stages[k].functionIds;
    assert ids[..i + 1] == ids[..i] + [ids[i]];
    forall a, b | 0 <= a < b < i + 1
      ensures SiteRank(ranks, ids[a]) < SiteRank(ranks, ids[b])
    {
      assert b < i ==> SiteRank(ranks, ids[..i][a]) < SiteRank(ranks, ids[..i][b]);
      assert a < i - 1 ==> SiteRank(ranks, ids[..i][a]) < SiteRank(ranks, ids[..i][i - 1]);
    }
  }

  lemma {:induction false} StageWalked(stages: seq<Stage>, ranks: Ranks, before: map<Id, nat>, stageById: map<Id, nat>,
      k: nat)
    requires k < |stages| && AssignedUpTo(stages, ranks, before, k)
    requires Walking(stages, ranks, before, stageById, k, |stages[k].functionIds|)
    requires stages[k].index == k && stages[k].functionIds != []
    ensures AssignedUpTo(stages, ranks, stageById, k + 1)
  {
    var ids := stages[k].functionIds;
    assert ids[..|ids|] == ids;
    forall j: nat | j < k + 1
      ensures StageRight(stages, ranks, stageById, j)
    {
      if j < k {
        assert StageRight(stages, ranks, before, j);
      }
    }
  }

  /** `required` is one above the latest producer of every function, zero without producers. */
  ghost predicate RequiredRight(dependencies: seq<Dependency>, stageById: map<Id, nat>, required: map<Id, nat>, id: Id)
  {
    && id in required
    && (forall i :: 0 <= i < |dependencies| && dependencies[i].consumer == id ==>
          dependencies[i].producer in stageById && stageById[dependencies[i].producer] < required[id])
    && (required[id] == 0 || RequiredBy(dependencies, stageById, required[id], id))
  }

  ghost predicate RequiredBy(dependencies: seq<Dependency>, stageById: map<Id, nat>, stage: nat, id: Id) {
    exists i :: 0 <= i < |dependencies| && dependencies[i].consumer == id &&
                dependencies[i].producer in stageById && stageById[dependencies[i].producer] + 1 == stage
  }

  ghost predicate Forward(dependencies: seq<Dependency>, stageById: map<Id, nat>) {
    forall i :: 0 <= i < |dependencies| ==>
      && dependencies[i].producer in stageById && dependencies[i].consumer in stageById
      && stageById[dependencies[i].producer] < stageById[dependencies[i].consumer]
  }

  method RequireStages(dependencies: seq<Dependency>, ranks: Ranks, stageById: map<Id, nat>)
    returns (outcome: Result<map<Id, nat>, Rejection>)
    requires CanonicalDependencies(ranks, dependencies) && stageById.Keys == ranks.rankById.Keys
    ensures outcome.Ok? <==> Forward(dependencies, stageById)
    ensures outcome.Ok? ==> forall id :: id in stageById ==> RequiredRight(dependencies, stageById, outcome.value, id)
  {
    var required: map<Id, nat> := map id | id in stageById :: 0;
    for d := 0 to |dependencies|
      invariant required.Keys == stageById.Keys
      invariant Forward(dependencies[..d], stageById)
      invariant forall id :: id in stageById ==> RequiredRight(dependencies[..d], stageById, required, id)
    {
      assert KnownDependency(ranks, dependencies[d]);
      if stageById[dependencies[d].producer] >= stageById[dependencies[d].consumer] {
        return Err(BackwardDependency);
      }
      ForwardOne(dependencies, stageById, d);
      required := RequireNext(dependencies, stageById, required, d);
    }
    assert dependencies[..|dependencies|] == dependencies;
    return Ok(required);
  }

  lemma {:induction false} ForwardOne(dependencies: seq<Dependency>, stageById: map<Id, nat>, d: nat)
    requires d < |dependencies| && Forward(dependencies[..d], stageById)
    requires dependencies[d].producer in stageById && dependencies[d].consumer in stageById
    requires stageById[dependencies[d].producer] < stageById[dependencies[d].consumer]
    ensures Forward(dependencies[..d + 1], stageById)
  {
    assert dependencies[..d + 1] == dependencies[..d] + [dependencies[d]];
  }

  /** Raises the required stage of the consumer above its producer. */
  method RequireNext(dependencies: seq<Dependency>, stageById: map<Id, nat>, before: map<Id, nat>, d: nat)
    returns (required: map<Id, nat>)
    requires d < |dependencies| && dependencies[d].producer in stageById && dependencies[d].consumer in stageById
    requires before.Keys == stageById.Keys
    requires forall id :: id in stageById ==> RequiredRight(dependencies[..d], stageById, before, id)
    ensures required.Keys == stageById.Keys
    ensures forall id :: id in stageById ==> RequiredRight(dependencies[..d + 1], stageById, required, id)
  {
    var producerStage, consumer := stageById[dependencies[d].producer], dependencies[d].consumer;
    var stage := if before[consumer] < producerStage + 1 then producerStage + 1 else before[consumer];
    required := before[consumer := stage];
    forall id | id in stageById
      ensures RequiredRight(dependencies[..d + 1], stageById, required, id)
    {
      RequireOne(dependencies, stageById, before, required, d, id);
    }
  }

  lemma {:induction false} RequireOne(dependencies: seq<Dependency>, stageById: map<Id, nat>, before: map<Id, nat>,
      after: map<Id, nat>, d: nat, id: Id)
    requires d < |dependencies| && dependencies[d].producer in stageById && id in stageById
    requires before.Keys == after.Keys == stageById.Keys
    requires RequiredRight(dependencies[..d], stageById, before, id)
    requires var least := stageById[dependencies[d].producer] + 1;
             after[id] == if id == dependencies[d].consumer && before[id] < least then least else before[id]
    ensures RequiredRight(dependencies[..d + 1], stageById, after, id)
  {
    var shorter, longer := dependencies[..d], dependencies[..d + 1];
    assert longer == shorter + [dependencies[d]];
    if RequiredBy(shorter, stageById, before[id], id) {
      var i :| 0 <= i < |shorter| && shorter[i].consumer == id && shorter[i].producer in stageById &&
               stageById[shorter[i].producer] + 1 == before[id];
      assert longer[i] == shorter[i];
    }
    assert longer[d] == dependencies[d];
  }

  /** The check of the stages accepts exactly the valid plans. */
  method ValidateStages(stages: seq<Stage>, dependencies: seq<Dependency>, signatures: seq<Signature>, ranks: Ranks)
    returns (rejection: Option<Rejection>)
    requires Ranked(signatures, ranks) && CanonicalDependencies(ranks, dependencies)
    ensures rejection.None? <==> ValidPlan(Ids(signatures), EdgesOf(dependencies), stages)
  {
    OrderAscends(signatures, ranks);
    if |ranks.rankById| == 0 {
      EmptyBundle(stages, dependencies, signatures, ranks);
      if |stages| != 0 || |dependencies| != 0 {
        return Some(PlanForNothing);
      }
      return None;
    }
    var stageById: map<Id, nat> := map[];
    for k := 0 to |stages|
      invariant AssignedUpTo(stages, ranks, stageById, k)
    {
      var outcome := AssignStage(signatures, stages, k, ranks, stageById);
      if outcome.Err? {
        return Some(outcome.error);
      }
      stageById := outcome.value;
    }
    PlanMatchesWalk(stages, dependencies, signatures, ranks, stageById);
    if stageById.Keys != ranks.rankById.Keys {
      return Some(NotEveryFunctionPlaced);
    }
    var outcome := RequireStages(dependencies, ranks, stageById);
    if outcome.Err? {
      BackwardIsNoPlan(dependencies, ranks, stageById);
      return Some(outcome.error);
    }
    var required := outcome.value;
    RequiredIsMinimum(dependencies, ranks, stageById, required);
    if exists id :: id in stageById && stageById[id] != required[id] {
      return Some(NotMinimumStage);
    }
    return None;
  }

  lemma {:induction false} EmptyBundle(stages: seq<Stage>, dependencies: seq<Dependency>, signatures: seq<Signature>,
      ranks: Ranks)
    requires Ranked(signatures, ranks) && CanonicalDependencies(ranks, dependencies) && |ranks.rankById| == 0
    ensures dependencies == []
    ensures ValidPlan(Ids(signatures), EdgesOf(dependencies), stages) <==> stages == []
  {
    var order := Ids(signatures);
    assert dependencies != [] ==> KnownDependency(ranks, dependencies[0]);
    OrderAscends(signatures, ranks);
    assert ranks.rankById.Keys == {};
    assert forall id :: id in order ==> id in IdSet(order);
    assert forall id :: id in multiset(order) <==> id in order;
    assert multiset(order) == multiset{} && |multiset(order)| == |order|;
    if stages == [] {
      assert PlanBy(order, EdgesOf(dependencies), map[], stages);
    }
    forall stage | PlanBy(order, EdgesOf(dependencies), stage, stages)
      ensures stages == []
    {
      assert stages != [] ==> SpelledOut(order, stage, stages, 0);
    }
  }

  lemma {:induction false} PlanIsTheWalk(stages: seq<Stage>, edges: Edges, signatures: seq<Signature>, ranks: Ranks,
                       stageById: map<Id, nat>, stage: map<Id, nat>)
    requires Ranked(signatures, ranks) && AssignedUpTo(stages, ranks, stageById, |stages|)
    requires PlanBy(Ids(signatures), edges, stage, stages)
    ensures stage == stageById && stageById.Keys == ranks.rankById.Keys
  {
    OrderAscends(signatures, ranks);
    SpelledMapIsTheWalk(Ids(signatures), ranks, stages, stageById, stage);
  }

  /** After all stages are walked, a plan exists exactly when the recorded map is one. */
  lemma {:induction false} PlanMatchesWalk(stages: seq<Stage>, dependencies: seq<Dependency>,
      signatures: seq<Signature>, ranks: Ranks, stageById: map<Id, nat>)
    requires Ranked(signatures, ranks) && AssignedUpTo(stages, ranks, stageById, |stages|)
    ensures ValidPlan(Ids(signatures), EdgesOf(dependencies), stages) <==>
            stageById.Keys == ranks.rankById.Keys
              && MinimumStages(ranks.rankById.Keys, EdgesOf(dependencies), stageById)
  {
    var order, edges := Ids(signatures), EdgesOf(dependencies);
    assert IdSet(order) == ranks.rankById.Keys by { OrderAscends(signatures, ranks); }
    if ValidPlan(order, edges, stages) {
      var stage :| PlanBy(order, edges, stage, stages);
      PlanIsTheWalk(stages, edges, signatures, ranks, stageById, stage);
    }
    if stageById.Keys == ranks.rankById.Keys && MinimumStages(ranks.rankById.Keys, edges, stageById) {
      WalkedStagesAreSpelled(signatures, ranks, stages, stageById);
      assert PlanBy(order, edges, stageById, stages);
    }
  }

  lemma {:induction false} SpelledMapIsTheWalk(order: seq<Id>, ranks: Ranks, stages: seq<Stage>,
      stageById: map<Id, nat>, stage: map<Id, nat>)
    requires RankAscending(order, ranks) && Spells(order, stage, stages) && stage.Keys == IdSet(order)
    requires AssignedUpTo(stages, ranks, stageById, |stages|)
    ensures stage.Keys == stageById.Keys
    ensures forall id :: id in stageById ==> stage[id] == stageById[id]
  {
    SpelledMapAgrees(order, ranks, stages, stageById, stage, |stages|);
    forall id | id in stage
      ensures id in stageById
    {
      assert id in order && stage[id] < |stages|;
      assert SpelledOut(order, stage, stages, stage[id]);
      OnStageMembers(order, stage, stage[id]);
      assert StageRight(stages, ranks, stageById, stage[id]);
    }
  }

  lemma {:induction false} BackwardIsNoPlan(dependencies: seq<Dependency>, ranks: Ranks, stageById: map<Id, nat>)
    requires !Forward(dependencies, stageById)
    ensures !MinimumStages(ranks.rankById.Keys, EdgesOf(dependencies), stageById)
  {
    var i :| 0 <= i < |dependencies| &&
      !(dependencies[i].producer in stageById && dependencies[i].consumer in stageById
        && stageById[dependencies[i].producer] < stageById[dependencies[i].consumer]);
    var edges := EdgesOf(dependencies);
    assert dependencies[i] in dependencies;
    assert (dependencies[i].producer, dependencies[i].consumer) in edges;
    assert MinimumStages(ranks.rankById.Keys, edges, stageById) ==>
             OnMinimumStage(edges, stageById, dependencies[i].consumer);
  }

  lemma {:induction false} RequiredIsMinimum(dependencies: seq<Dependency>, ranks: Ranks, stageById: map<Id, nat>,
      required: map<Id, nat>)
    requires CanonicalDependencies(ranks, dependencies) && stageById.Keys == ranks.rankById.Keys
    requires Forward(dependencies, stageById)
    requires forall id :: id in stageById ==> RequiredRight(dependencies, stageById, required, id)
    ensures MinimumStages(ranks.rankById.Keys, EdgesOf(dependencies), stageById) <==>
            forall id :: id in stageById ==> id in required && stageById[id] == required[id]
  {
    var edges := EdgesOf(dependencies);
    forall edge | edge in edges
      ensures edge.0 in stageById && edge.1 in stageById && stageById[edge.0] < stageById[edge.1]
    {
      var d :| d in dependencies && (d.producer, d.consumer) == edge;
    }
    forall id | id in stageById
      ensures OnMinimumStage(edges, stageById, id) <==> stageById[id] == required[id]
    {
      RequiredForOne(dependencies, stageById, required, id);
    }
  }

  lemma {:induction false} RequiredForOne(dependencies: seq<Dependency>, stageById: map<Id, nat>,
      required: map<Id, nat>, id: Id)
    requires Forward(dependencies, stageById) && id in stageById
    requires RequiredRight(dependencies, stageById, required, id)
    ensures OnMinimumStage(EdgesOf(dependencies), stageById, id) <==> stageById[id] == required[id]
  {
    var edges := EdgesOf(dependencies);
    if OnMinimumStage(edges, stageById, id) {
      if stageById[id] > 0 {
        var producer :| (producer, id) in edges && producer in stageById && stageById[producer] + 1 == stageById[id];
        var d :| d in dependencies && d.producer == producer && d.consumer == id;
        var i :| 0 <= i < |dependencies| && dependencies[i] == d;
      }
      if required[id] > 0 {
        var i :| 0 <= i < |dependencies| && dependencies[i].consumer == id &&
                 dependencies[i].producer in stageById && stageById[dependencies[i].producer] + 1 == required[id];
      }
    }
    if stageById[id] == required[id] {
      forall producer | (producer, id) in edges
        ensures producer in stageById && stageById[producer] < stageById[id]
      {
        var d :| d in dependencies && d.producer == producer && d.consumer == id;
        var i :| 0 <= i < |dependencies| && dependencies[i] == d;
      }
      if required[id] > 0 {
        var i :| 0 <= i < |dependencies| && dependencies[i].consumer == id &&
                 dependencies[i].producer in stageById && stageById[dependencies[i].producer] + 1 == required[id];
        assert dependencies[i] in dependencies;
        assert (dependencies[i].producer, id) in edges;
      }
    }
  }

  /** What the bundle check accepts. */
  ghost predicate BundleValid(functions: seq<FunctionRecord>, dependencies: seq<Dependency>, stages: seq<Stage>) {
    && FunctionsValid(functions)
    && (forall ranks :: Ranked(Signatures(functions), ranks) ==> CanonicalDependencies(ranks, dependencies))
    && ValidPlan(Ids(Signatures(functions)), EdgesOf(dependencies), stages)
  }

  lemma {:induction false} RanksAreUnique(signatures: seq<Signature>, a: Ranks, b: Ranks)
    requires Ranked(signatures, a) && Ranked(signatures, b)
    ensures a == b
  {
    forall id | id in a.rankById
      ensures id in b.rankById && a.rankById[id] == b.rankById[id] && a.inputRankById[id] == b.inputRankById[id]
    {
      assert RankedAt(signatures, b, a.rankById[id]);
      assert RankedAt(signatures, a, a.rankById[id]);
    }
    forall id | id in b.rankById
      ensures id in a.rankById
    {
      assert RankedAt(signatures, a, b.rankById[id]);
    }
  }

  /** A bundle is created exactly for canonical functions and dependencies with the one valid plan. */
  method CreateSourceIrBundle(functions: seq<FunctionRecord>, stages: seq<Stage>, dependencies: seq<Dependency>)
    returns (rejection: Option<Rejection>)
    ensures rejection.None? <==> BundleValid(functions, dependencies, stages)
  {
    var ranked := ValidateFunctions(functions);
    if ranked.Err? {
      return Some(ranked.error);
    }
    var ranks := ranked.value;
    forall other | Ranked(Signatures(functions), other)
      ensures other == ranks
    {
      RanksAreUnique(Signatures(functions), other, ranks);
    }
    rejection := ValidateDependencies(dependencies, ranks);
    if rejection.Some? {
      return;
    }
    rejection := ValidateStages(stages, dependencies, Signatures(functions), ranks);
  }
}
