/**
 * The canonical order of dependencies: consumer position, then input position, then
 * producer position, with -1 for anything unknown.
 */
module DependencyOrder {
  import opened ByteOrder
  import opened DependencyGraph
  import opened Outcomes
  import opened PlanSpec
  import opened Sorting

  /** A function as far as dependencies refer to it: its identifier and its input names in order. */
  datatype Signature = Signature(id: Id, inputs: seq<Bytes>)

  datatype Ranks = Ranks(rankById: map<Id, nat>, inputRankById: map<Id, map<Bytes, nat>>)

  function Ids(signatures: seq<Signature>): seq<Id> {
    seq(|signatures|, i requires 0 <= i < |signatures| => signatures[i].id)
  }

  ghost predicate InputRanks(inputs: seq<Bytes>, ranks: map<Bytes, nat>) {
    && (forall j :: 0 <= j < |inputs| ==> inputs[j] in ranks && ranks[inputs[j]] == j)
    && (forall name :: name in ranks ==> ranks[name] < |inputs| && inputs[ranks[name]] == name)
  }

  ghost predicate RankedAt(signatures: seq<Signature>, ranks: Ranks, i: nat) {
    && i < |signatures|
    && signatures[i].id in ranks.rankById && ranks.rankById[signatures[i].id] == i
    && signatures[i].id in ranks.inputRankById
    && InputRanks(signatures[i].inputs, ranks.inputRankById[signatures[i].id])
  }

  /** The rank tables number exactly the listed functions and inputs by position. */
  ghost predicate Ranked(signatures: seq<Signature>, ranks: Ranks) {
    && (forall i: nat :: i < |signatures| ==> RankedAt(signatures, ranks, i))
    && (forall id :: id in ranks.rankById ==>
          ranks.rankById[id] < |signatures| && signatures[ranks.rankById[id]].id == id)
    && ranks.inputRankById.Keys == ranks.rankById.Keys
  }

  ghost predicate InputsNamed(inputs: seq<Bytes>) {
    && (forall j :: 0 <= j < |inputs| ==> inputs[j] != [])
    && NoRepeats(inputs)
  }

  /** Input positions by name; none when a name is empty or repeated. */
  method RankInputs(inputs: seq<Bytes>) returns (ranks: Option<map<Bytes, nat>>)
    ensures ranks.Some? <==> InputsNamed(inputs)
    ensures ranks.Some? ==> InputRanks(inputs, ranks.value)
  {
    var inputRanks: map<Bytes, nat> := map[];
    for j := 0 to |inputs|
      invariant InputRanks(inputs[..j], inputRanks)
      invariant InputsNamed(inputs[..j])
    {
      var name := inputs[j];
      if |name| == 0 || name in inputRanks {
        assert name in inputRanks ==> inputs[inputRanks[name]] == inputs[j];
        return None;
      }
      inputRanks := inputRanks[name := j];
    }
    assert inputs[..|inputs|] == inputs;
    return Some(inputRanks);
  }

  lemma {:induction false} RankOne(signatures: seq<Signature>, ranks: Ranks, next: Signature,
      inputRanks: map<Bytes, nat>)
    requires Ranked(signatures, ranks) && next.id !in ranks.rankById && InputRanks(next.inputs, inputRanks)
    ensures Ranked(signatures + [next],
                   Ranks(ranks.rankById[next.id := |signatures|], ranks.inputRankById[next.id := inputRanks]))
    ensures forall i :: 0 <= i < |signatures| ==> signatures[i].id != next.id
  {
    var ranks' := Ranks(ranks.rankById[next.id := |signatures|], ranks.inputRankById[next.id := inputRanks]);
    forall i: nat | i < |signatures|
      ensures RankedAt(signatures + [next], ranks', i) && signatures[i].id != next.id
    {
      assert RankedAt(signatures, ranks, i);
    }
  }

  function SiteRank(ranks: Ranks, id: Id): int {
    if id in ranks.rankById then ranks.rankById[id] else -1
  }

  function InputRank(ranks: Ranks, id: Id, input: Bytes): int {
    if id in ranks.inputRankById && input in ranks.inputRankById[id] then ranks.inputRankById[id][input] else -1
  }

  function CompareDependencies(ranks: Ranks, left: Dependency, right: Dependency): int {
    var consumers := SiteRank(ranks, left.consumer) - SiteRank(ranks, right.consumer);
    if consumers != 0 then consumers
    else
      var inputs := InputRank(ranks, left.consumer, left.input) - InputRank(ranks, right.consumer, right.input);
      if inputs != 0 then inputs
      else SiteRank(ranks, left.producer) - SiteRank(ranks, right.producer)
  }

  /** Both ends known, and the input one of the consumer's. */
  ghost predicate KnownEnds(ranks: Ranks, dependency: Dependency) {
    && dependency.producer in ranks.rankById
    && dependency.consumer in ranks.rankById
    && dependency.consumer in ranks.inputRankById
    && dependency.input in ranks.inputRankById[dependency.consumer]
  }

  ghost predicate KnownDependency(ranks: Ranks, dependency: Dependency) {
    KnownEnds(ranks, dependency) && dependency.producer != dependency.consumer
  }

  /** Known dependencies, each once, in strictly ascending canonical order. */
  ghost predicate CanonicalDependencies(ranks: Ranks, dependencies: seq<Dependency>) {
    && (forall i :: 0 <= i < |dependencies| ==> KnownDependency(ranks, dependencies[i]))
    && (forall i, j :: 0 <= i < j < |dependencies| ==> CompareDependencies(ranks, dependencies[i], dependencies[j]) < 0)
  }

  /** Where a dependency stands: the positions of its consumer, of the input in the consumer, and of its producer. */
  ghost predicate StandsAt(signatures: seq<Signature>, d: Dependency, consumer: nat, input: nat, producer: nat) {
    && consumer < |signatures| && signatures[consumer].id == d.consumer
    && producer < |signatures| && signatures[producer].id == d.producer
    && input < |signatures[consumer].inputs| && signatures[consumer].inputs[input] == d.input
  }

  /** Dependencies are ordered by the positions of consumer, input and producer, in this order, each ascending. */
  lemma {:induction false} CanonicalOrderIs(signatures: seq<Signature>, ranks: Ranks, a: Dependency, b: Dependency,
      consumerA: nat, inputA: nat, producerA: nat, consumerB: nat, inputB: nat, producerB: nat)
    requires Ranked(signatures, ranks)
    requires StandsAt(signatures, a, consumerA, inputA, producerA)
    requires StandsAt(signatures, b, consumerB, inputB, producerB)
    ensures CompareDependencies(ranks, a, b) < 0 <==>
            || consumerA < consumerB
            || (consumerA == consumerB && inputA < inputB)
            || (consumerA == consumerB && inputA == inputB && producerA < producerB)
  {
    assert RankedAt(signatures, ranks, consumerA) && RankedAt(signatures, ranks, consumerB);
    assert RankedAt(signatures, ranks, producerA) && RankedAt(signatures, ranks, producerB);
  }

  lemma {:induction false} CompareDependenciesIsTransitive(ranks: Ranks, a: Dependency, b: Dependency, c: Dependency)
    requires CompareDependencies(ranks, a, b) < 0 && CompareDependencies(ranks, b, c) < 0
    ensures CompareDependencies(ranks, a, c) < 0
  {
  }

  /** Neighbours in order are enough for the whole list to be in order. */
  lemma {:induction false} NeighboursOrderAll(ranks: Ranks, dependencies: seq<Dependency>, i: nat, j: nat)
    requires i < j < |dependencies|
    requires forall k :: 0 < k < |dependencies| ==> CompareDependencies(ranks, dependencies[k - 1], dependencies[k]) < 0
    ensures CompareDependencies(ranks, dependencies[i], dependencies[j]) < 0
    decreases j
  {
    if i < j - 1 {
      NeighboursOrderAll(ranks, dependencies, i, j - 1);
      CompareDependenciesIsTransitive(ranks, dependencies[i], dependencies[j - 1], dependencies[j]);
    }
  }

  /** On known dependencies only equal ones tie. */
  lemma {:induction false} KnownDependenciesTieOnlyWhenEqual(signatures: seq<Signature>, ranks: Ranks, a: Dependency,
      b: Dependency)
    requires Ranked(signatures, ranks) && KnownEnds(ranks, a) && KnownEnds(ranks, b)
    ensures CompareDependencies(ranks, a, b) == 0 <==> a == b
  {
    if CompareDependencies(ranks, a, b) == 0 {
      assert a.consumer == signatures[ranks.rankById[a.consumer]].id;
      assert a.consumer == b.consumer;
      assert RankedAt(signatures, ranks, ranks.rankById[a.consumer]);
      var inputs := signatures[ranks.rankById[a.consumer]].inputs;
      assert a.input == inputs[ranks.inputRankById[a.consumer][a.input]];
    }
  }

  function Earlier(ranks: Ranks): (Dependency, Dependency) -> bool {
    (a: Dependency, b: Dependency) => CompareDependencies(ranks, a, b) < 0
  }

  lemma {:induction false} DependencyOrderSorts(ranks: Ranks)
    ensures StrictWeakOrder(Earlier(ranks))
  {
  }

  /** Two lists in canonical order with the same members are the same list. */
  lemma {:induction false} CanonicalListIsUnique(signatures: seq<Signature>, ranks: Ranks, a: seq<Dependency>,
      b: seq<Dependency>)
    requires Ranked(signatures, ranks) && CanonicalDependencies(ranks, a) && CanonicalDependencies(ranks, b)
    requires forall d :: d in a <==> d in b
    ensures a == b
  {
    CanonicalHasNoRepeats(ranks, a);
    CanonicalHasNoRepeats(ranks, b);
    NoRepeatsCount(a);
    NoRepeatsCount(b);
    forall d
      ensures multiset(a)[d] == multiset(b)[d]
    {
      assert d in multiset(a) <==> d in a;
      assert d in multiset(b) <==> d in b;
    }
    assert multiset(a) == multiset(b);
    forall x, y | x in multiset(a) && y in multiset(a) && !Earlier(ranks)(x, y) && !Earlier(ranks)(y, x)
      ensures x == y
    {
      assert x in a && y in a;
      KnownDependenciesTieOnlyWhenEqual(signatures, ranks, x, y);
    }
    OrderedIsUnique(Earlier(ranks), a, b);
  }

  lemma {:induction false} CanonicalHasNoRepeats(ranks: Ranks, dependencies: seq<Dependency>)
    requires CanonicalDependencies(ranks, dependencies)
    ensures NoRepeats(dependencies) && Ordered(Earlier(ranks), dependencies)
  {
    forall i: nat, j: nat | i < j < |dependencies|
      ensures InOrder(Earlier(ranks), dependencies, i, j)
    {
    }
  }
}
