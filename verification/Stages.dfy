/**
 * Stage assignment: Kahn's algorithm over the ready heap, and a cycle report when it stalls.
 */
module Stages {
  import opened ByteOrder
  import opened CycleSearch
  import opened DependencyGraph
  import opened Outcomes
  import opened PlanSpec
  import opened ReadyHeap
  import opened Sorting

  /** The listed sites, each once, with distinct identifiers and in site order. */
  ghost predicate CanonicalSites(sites: seq<Site>, sitesById: map<Id, Site>) {
    && SiteTable(sites, sitesById)
    && NoRepeats(sites)
    && Ordered(Before, sites)
  }

  ghost predicate Incoming(edges: Edges, incoming: map<Id, set<Id>>) {
    forall producer, consumer ::
      (producer, consumer) in edges <==> consumer in incoming && producer in incoming[consumer]
  }

  lemma {:induction false} SiteIds(sites: seq<Site>, sitesById: map<Id, Site>)
    requires SiteTable(sites, sitesById)
    ensures IdSet(Names(sites)) == sitesById.Keys
  {
    forall id | id in sitesById
      ensures id in Names(sites)
    {
      var i :| 0 <= i < |sites| && sites[i] == sitesById[id];
      assert Names(sites)[i] == id;
    }
    forall id | id in Names(sites)
      ensures id in sitesById
    {
      var i :| 0 <= i < |Names(sites)| && Names(sites)[i] == id;
    }
  }

  method Neighbours(sites: seq<Site>, dependencies: seq<Dependency>, sitesById: map<Id, Site>)
    returns (incoming: map<Id, set<Id>>, outgoing: map<Id, set<Id>>)
    requires SiteTable(sites, sitesById) && Within(EdgesOf(dependencies), sitesById.Keys)
    ensures incoming.Keys == outgoing.Keys == sitesById.Keys
    ensures Incoming(EdgesOf(dependencies), incoming) && Adjacency(EdgesOf(dependencies), outgoing)
  {
    SiteIds(sites, sitesById);
    incoming := map id | id in Names(sites) :: {};
    outgoing := map id | id in Names(sites) :: {};
    assert incoming.Keys == IdSet(Names(sites)) && outgoing.Keys == IdSet(Names(sites));
    ghost var seen: Edges := {};
    assert EdgesOf(dependencies[..0]) == {};
    for d := 0 to |dependencies|
      invariant incoming.Keys == outgoing.Keys == sitesById.Keys
      invariant seen == EdgesOf(dependencies[..d])
      invariant Incoming(seen, incoming) && Adjacency(seen, outgoing)
    {
      EdgeOfNext(dependencies, d);
      ghost var next := EdgesOf(dependencies[..d + 1]);
      incoming, outgoing := AddEdge(incoming, outgoing, dependencies[d], seen, next);
      seen := next;
    }
    assert dependencies[..|dependencies|] == dependencies;
  }

  method AddEdge(incoming: map<Id, set<Id>>, outgoing: map<Id, set<Id>>, dependency: Dependency, ghost edges: Edges,
      ghost next: Edges)
    returns (told: map<Id, set<Id>>, tells: map<Id, set<Id>>)
    requires Incoming(edges, incoming) && Adjacency(edges, outgoing)
    requires dependency.consumer in incoming && dependency.producer in outgoing
    requires next == edges + {(dependency.producer, dependency.consumer)}
    ensures Incoming(next, told) && Adjacency(next, tells)
    ensures told.Keys == incoming.Keys && tells.Keys == outgoing.Keys
  {
    told := incoming[dependency.consumer := incoming[dependency.consumer] + {dependency.producer}];
    tells := outgoing[dependency.producer := outgoing[dependency.producer] + {dependency.consumer}];
  }

  lemma {:induction false} EdgeOfNext(dependencies: seq<Dependency>, d: nat)
    requires d < |dependencies|
    ensures EdgesOf(dependencies[..d + 1]) ==
            EdgesOf(dependencies[..d]) + {(dependencies[d].producer, dependencies[d].consumer)}
    ensures (dependencies[d].producer, dependencies[d].consumer) in EdgesOf(dependencies)
  {
    assert dependencies[..d + 1] == dependencies[..d] + [dependencies[d]];
    assert dependencies[d] in dependencies;
  }

  // ----- the state of Kahn's loop

  /** Unassigned producers are counted, plus one while the consumer still waits to be told about the latest. */
  ghost predicate CountRight(incoming: map<Id, set<Id>>, remaining: map<Id, int>, placed: set<Id>, pending: set<Id>,
      id: Id)
  {
    && id in remaining && id in incoming
    && remaining[id] == |incoming[id] - placed| + (if id in pending then 1 else 0)
  }

  ghost predicate CountsRight(incoming: map<Id, set<Id>>, remaining: map<Id, int>, placed: set<Id>, pending: set<Id>) {
    remaining.Keys == incoming.Keys
      && forall id :: id in incoming ==> CountRight(incoming, remaining, placed, pending, id)
  }

  ghost predicate IsReady(incoming: map<Id, set<Id>>, placed: set<Id>, pending: set<Id>, id: Id) {
    id in incoming && id !in placed && id !in pending && incoming[id] <= placed
  }

  /** The heap holds exactly the sites of `ready`, each once. */
  ghost predicate HeapHolds(heap: seq<Site>, ready: set<Id>, sitesById: map<Id, Site>) {
    && ready <= sitesById.Keys
    && (forall site :: site in multiset(heap) ==>
          multiset(heap)[site] == 1 && site.functionId in ready && sitesById[site.functionId] == site)
    && (forall id :: id in ready ==> sitesById[id] in multiset(heap))
  }

  lemma {:induction false} HeapGains(heap: seq<Site>, heap': seq<Site>, ready: set<Id>, sitesById: map<Id, Site>,
      site: Site)
    requires HeapHolds(heap, ready, sitesById) && multiset(heap') == multiset(heap) + multiset{site}
    requires site.functionId in sitesById && sitesById[site.functionId] == site && site.functionId !in ready
    ensures HeapHolds(heap', ready + {site.functionId}, sitesById)
  {
  }

  lemma {:induction false} HeapLoses(heap: seq<Site>, heap': seq<Site>, ready: set<Id>, sitesById: map<Id, Site>,
      site: Site)
    requires HeapHolds(heap, ready, sitesById) && multiset(heap') + multiset{site} == multiset(heap)
    requires forall id :: id in sitesById ==> sitesById[id].functionId == id
    ensures site.functionId in ready && sitesById[site.functionId] == site
    ensures HeapHolds(heap', ready - {site.functionId}, sitesById)
  {
    assert site in multiset(heap);
    assert multiset(heap') == multiset(heap) - multiset{site};
  }

  method StartReady(sites: seq<Site>, sitesById: map<Id, Site>, incoming: map<Id, set<Id>>)
    returns (remaining: map<Id, int>, ready: ReadySites, ghost readyIds: set<Id>)
    requires SiteTable(sites, sitesById) && NoRepeats(sites) && incoming.Keys == sitesById.Keys
    ensures fresh(ready) && ready.Valid()
    ensures CountsRight(incoming, remaining, {}, {})
    ensures HeapHolds(ready.heap, readyIds, sitesById)
    ensures forall id :: id in readyIds <==> IsReady(incoming, {}, {}, id)
  {
    remaining := map id | id in incoming :: |incoming[id]|;
    InitialCounts(incoming, remaining);
    ready := new ReadySites();
    readyIds := {};
    for i := 0 to |sites|
      invariant fresh(ready) && ready.Valid()
      invariant HeapHolds(ready.heap, readyIds, sitesById)
      invariant forall id :: id in readyIds <==> IsReady(incoming, {}, {}, id) && ListedBy(sites, i, id)
    {
      var site := sites[i];
      ListedNext(sites, sitesById, i);
      if remaining[site.functionId] == 0 {
        ghost var before := ready.heap;
        ready.Push(site);
        HeapGains(before, ready.heap, readyIds, sitesById, site);
        readyIds := readyIds + {site.functionId};
      }
    }
    AllListed(sites, sitesById);
  }

  lemma {:induction false} AllListed(sites: seq<Site>, sitesById: map<Id, Site>)
    requires SiteTable(sites, sitesById)
    ensures forall id :: id in sitesById ==> ListedBy(sites, |sites|, id)
  {
    forall id | id in sitesById
      ensures ListedBy(sites, |sites|, id)
    {
      var k :| 0 <= k < |sites| && sites[k] == sitesById[id];
    }
  }

  lemma {:induction false} InitialCounts(incoming: map<Id, set<Id>>, remaining: map<Id, int>)
    requires remaining.Keys == incoming.Keys && forall id :: id in incoming ==> remaining[id] == |incoming[id]|
    ensures CountsRight(incoming, remaining, {}, {})
    ensures forall id :: id in remaining ==> (remaining[id] == 0 <==> IsReady(incoming, {}, {}, id))
  {
    forall id | id in incoming
      ensures CountRight(incoming, remaining, {}, {}, id)
      ensures remaining[id] == 0 <==> IsReady(incoming, {}, {}, id)
    {
      NoneIsAll(incoming[id]);
    }
  }

  lemma {:induction false} NoneIsAll(producers: set<Id>)
    ensures producers - {} == producers
    ensures |producers| == 0 <==> producers <= {}
  {
    if producers <= {} {
      assert producers == {};
    }
  }

  ghost predicate ListedBy(sites: seq<Site>, i: nat, id: Id) {
    exists k :: 0 <= k < i && k < |sites| && sites[k].functionId == id
  }

  lemma {:induction false} ListedNext(sites: seq<Site>, sitesById: map<Id, Site>, i: nat)
    requires SiteTable(sites, sitesById) && NoRepeats(sites) && i < |sites|
    ensures forall id :: ListedBy(sites, i + 1, id) <==> ListedBy(sites, i, id) || id == sites[i].functionId
    ensures !ListedBy(sites, i, sites[i].functionId)
  {
    assert ListedBy(sites, i + 1, sites[i].functionId);
    forall id | ListedBy(sites, i, id)
      ensures ListedBy(sites, i + 1, id)
    {
      var k :| 0 <= k < i && sites[k].functionId == id;
    }
    forall k | 0 <= k < i
      ensures sites[k].functionId != sites[i].functionId
    {
    }
  }

  /** One more than the latest producer, or zero without producers. */
  method LeastStage(producers: set<Id>, stageById: map<Id, nat>) returns (stage: nat)
    requires producers <= stageById.Keys
    ensures forall producer :: producer in producers ==> stageById[producer] < stage
    ensures stage == 0 || exists producer :: producer in producers && stageById[producer] + 1 == stage
  {
    stage := 0;
    var rest := producers;
    while rest != {}
      invariant rest <= producers
      invariant forall producer :: producer in producers - rest ==> stageById[producer] < stage
      invariant stage == 0 || exists producer :: producer in producers && stageById[producer] + 1 == stage
      decreases rest
    {
      var predecessor :| predecessor in rest;
      if stageById[predecessor] + 1 > stage {
        stage := stageById[predecessor] + 1;
      }
      rest := rest - {predecessor};
    }
  }

  /** Everything placed so far is on its minimum stage, and closed under producers. */
  ghost predicate PlacedWell(edges: Edges, stageById: map<Id, nat>) {
    forall id :: id in stageById ==> OnMinimumStage(edges, stageById, id)
  }

  lemma {:induction false} PlaceOne(edges: Edges, incoming: map<Id, set<Id>>, stageById: map<Id, nat>, id: Id,
      stage: nat)
    requires Incoming(edges, incoming) && PlacedWell(edges, stageById)
    requires id in incoming && id !in stageById && incoming[id] <= stageById.Keys
    requires forall producer :: producer in incoming[id] ==> stageById[producer] < stage
    requires stage == 0 || exists producer :: producer in incoming[id] && stageById[producer] + 1 == stage
    ensures PlacedWell(edges, stageById[id := stage])
  {
    var after := stageById[id := stage];
    forall other | other in after
      ensures OnMinimumStage(edges, after, other)
    {
      if other == id {
        if stage > 0 {
          var producer :| producer in incoming[id] && stageById[producer] + 1 == stage;
          assert (producer, id) in edges && after[producer] + 1 == after[id];
        }
      } else {
        assert OnMinimumStage(edges, stageById, other);
        if after[other] > 0 {
          var producer :|
            (producer, other) in edges && producer in stageById && stageById[producer] + 1 == stageById[other];
          assert (producer, other) in edges && after[producer] + 1 == after[other];
        }
      }
    }
  }

  /** After a function is placed, all its consumers are still to be told, and none of them is placed. */
  lemma {:induction false} PlacedOwes(edges: Edges, incoming: map<Id, set<Id>>, outgoing: map<Id, set<Id>>,
      remaining: map<Id, int>, placed: set<Id>, id: Id)
    requires Incoming(edges, incoming) && Adjacency(edges, outgoing)
    requires id in outgoing && id !in placed
    requires CountsRight(incoming, remaining, placed, {})
    ensures CountsRight(incoming, remaining, placed + {id}, outgoing[id])
  {
    forall other | other in incoming
      ensures CountRight(incoming, remaining, placed + {id}, outgoing[id], other)
    {
      assert CountRight(incoming, remaining, placed, {}, other);
      assert other in outgoing[id] <==> (id, other) in edges;
      assert id in incoming[other] <==> (id, other) in edges;
      OneLess(incoming[other], placed, placed + {id}, id);
    }
  }

  lemma {:induction false} ConsumersUnplaced(edges: Edges, outgoing: map<Id, set<Id>>, stageById: map<Id, nat>, id: Id)
    requires Adjacency(edges, outgoing) && PlacedWell(edges, stageById)
    requires id in outgoing && id !in stageById && (id, id) !in edges
    ensures outgoing[id] !! stageById.Keys + {id}
  {
    forall consumer | consumer in outgoing[id]
      ensures consumer !in stageById.Keys + {id}
    {
      assert (id, consumer) in edges;
      assert consumer in stageById ==> OnMinimumStage(edges, stageById, consumer);
    }
  }

  lemma {:induction false} OneLess(producers: set<Id>, placed: set<Id>, placed': set<Id>, id: Id)
    requires id !in placed && placed' == placed + {id}
    ensures |producers - placed| == |producers - placed'| + (if id in producers then 1 else 0)
  {
    if id in producers {
      assert producers - placed == (producers - placed') + {id};
    } else {
      assert producers - placed == producers - placed';
    }
  }

  lemma {:induction false} TellConsumer(incoming: map<Id, set<Id>>, remaining: map<Id, int>, placed: set<Id>,
      pending: set<Id>, id: Id, count: int)
    requires CountsRight(incoming, remaining, placed, pending) && id in pending && id in incoming
    requires count == remaining[id] - 1
    ensures CountsRight(incoming, remaining[id := count], placed, pending - {id})
    ensures count == 0 <==> incoming[id] <= placed
  {
    assert CountRight(incoming, remaining, placed, pending, id);
    forall other | other in incoming
      ensures CountRight(incoming, remaining[id := count], placed, pending - {id}, other)
    {
      assert CountRight(incoming, remaining, placed, pending, other);
    }
    NoneLeft(incoming[id], placed);
  }

  lemma {:induction false} NoneLeft(producers: set<Id>, placed: set<Id>)
    ensures |producers - placed| == 0 <==> producers <= placed
  {
    if |producers - placed| == 0 {
      forall producer | producer in producers
        ensures producer in placed
      {
        assert producer !in producers - placed;
      }
    } else {
      var producer :| producer in producers - placed;
    }
  }

  method TellConsumers(consumers: seq<Site>, sitesById: map<Id, Site>, incoming: map<Id, set<Id>>, before: map<Id, int>,
                       ready: ReadySites, ghost placed: set<Id>, ghost pending: set<Id>, ghost beforeIds: set<Id>)
    returns (remaining: map<Id, int>, ghost readyIds: set<Id>)
    requires ready.Valid() && HeapHolds(ready.heap, beforeIds, sitesById)
    requires CountsRight(incoming, before, placed, pending) && pending <= incoming.Keys && pending !! placed
    requires forall id :: id in beforeIds <==> IsReady(incoming, placed, pending, id)
    requires ListsInOrder(consumers, pending)
    requires forall i :: 0 <= i < |consumers| ==>
               consumers[i].functionId in sitesById && sitesById[consumers[i].functionId] == consumers[i]
    modifies ready
    ensures ready.Valid() && HeapHolds(ready.heap, readyIds, sitesById)
    ensures CountsRight(incoming, remaining, placed, {})
    ensures forall id :: id in readyIds <==> IsReady(incoming, placed, {}, id)
  {
    remaining := before;
    readyIds := beforeIds;
    ghost var untold := pending;
    for i := 0 to |consumers|
      invariant ready.Valid() && HeapHolds(ready.heap, readyIds, sitesById)
      invariant untold <= pending && UntoldFrom(consumers, untold, i)
      invariant CountsRight(incoming, remaining, placed, untold)
      invariant forall id :: id in readyIds <==> IsReady(incoming, placed, untold, id)
    {
      var consumer := consumers[i];
      var id := consumer.functionId;
      var count := remaining[id] - 1;
      TellConsumer(incoming, remaining, placed, untold, id, count);
      remaining := remaining[id := count];
      ToldOne(consumers, pending, untold, i);
      ghost var waiting := untold;
      untold := untold - {id};
      ReadyAfter(incoming, placed, waiting, readyIds, id);
      if count == 0 {
        ghost var heap := ready.heap;
        ready.Push(consumer);
        HeapGains(heap, ready.heap, readyIds, sitesById, consumer);
        readyIds := readyIds + {id};
      }
    }
    NoneUntold(consumers, pending, untold);
  }

  lemma {:induction false} ReadyAfter(incoming: map<Id, set<Id>>, placed: set<Id>, untold: set<Id>, readyIds: set<Id>,
      told: Id)
    requires told in untold && told in incoming && told !in placed
    requires forall id :: id in readyIds <==> IsReady(incoming, placed, untold, id)
    ensures told !in readyIds
    ensures var after := if incoming[told] <= placed then readyIds + {told} else readyIds;
            forall id :: id in after <==> IsReady(incoming, placed, untold - {told}, id)
  {
  }

  ghost predicate UntoldFrom(consumers: seq<Site>, untold: set<Id>, from: nat) {
    from <= |consumers| && forall i :: 0 <= i < |consumers| ==> (consumers[i].functionId in untold <==> i >= from)
  }

  lemma {:induction false} ToldOne(consumers: seq<Site>, pending: set<Id>, untold: set<Id>, i: nat)
    requires ListsInOrder(consumers, pending) && UntoldFrom(consumers, untold, i) && i < |consumers|
    ensures consumers[i].functionId in pending
    ensures UntoldFrom(consumers, untold - {consumers[i].functionId}, i + 1)
  {
  }

  lemma {:induction false} NoneUntold(consumers: seq<Site>, pending: set<Id>, untold: set<Id>)
    requires ListsInOrder(consumers, pending) && untold <= pending && UntoldFrom(consumers, untold, |consumers|)
    ensures untold == {}
  {
    forall id | id in pending
      ensures id !in untold
    {
      assert Lists(consumers, id);
    }
  }

  lemma {:induction false} ReadyWithout(edges: Edges, incoming: map<Id, set<Id>>, outgoing: map<Id, set<Id>>,
      placed: set<Id>, readyIds: set<Id>, id: Id)
    requires Incoming(edges, incoming) && Adjacency(edges, outgoing) && id in outgoing && id !in placed
    requires forall other :: other in readyIds <==> IsReady(incoming, placed, {}, other)
    ensures forall other :: other in readyIds - {id} <==> IsReady(incoming, placed + {id}, outgoing[id], other)
  {
    forall other
      ensures other in readyIds - {id} <==> IsReady(incoming, placed + {id}, outgoing[id], other)
    {
      assert other in outgoing[id] <==> (id, other) in edges;
      assert other in incoming ==> (id in incoming[other] <==> (id, other) in edges);
    }
  }

  /** The placed sites, each once, in the order in which they left the heap. */
  ghost predicate Topological(topological: seq<Site>, stageById: map<Id, nat>, sitesById: map<Id, Site>) {
    && stageById.Keys <= sitesById.Keys
    && NoRepeats(topological)
    && (forall site :: site in topological <==> site.functionId in stageById && sitesById[site.functionId] == site)
  }

  lemma {:induction false} TopologicalGrows(topological: seq<Site>, stageById: map<Id, nat>, sitesById: map<Id, Site>,
      site: Site, stage: nat)
    requires Topological(topological, stageById, sitesById)
    requires site.functionId in sitesById && sitesById[site.functionId] == site && site.functionId !in stageById
    ensures Topological(topological + [site], stageById[site.functionId := stage], sitesById)
  {
    assert site !in topological;
  }

  lemma {:induction false} NothingReadyIsStuck(edges: Edges, incoming: map<Id, set<Id>>, placed: set<Id>)
    requires Incoming(edges, incoming) && Within(edges, incoming.Keys) && placed <= incoming.Keys
    requires forall id :: !IsReady(incoming, placed, {}, id)
    ensures placed == incoming.Keys || Stuck(edges, incoming.Keys - placed)
  {
    var waiting := incoming.Keys - placed;
    forall id | id in waiting
      ensures WaitsOn(edges, waiting, id)
    {
      assert !IsReady(incoming, placed, {}, id);
      var producer :| producer in incoming[id] && producer !in placed;
      assert (producer, id) in edges;
    }
    if waiting == {} {
      assert forall id :: id in incoming.Keys ==> id !in waiting;
    }
  }

  /** Everything the main loop maintains between two pops. */
  ghost predicate LoopState(edges: Edges, sitesById: map<Id, Site>, incoming: map<Id, set<Id>>, remaining: map<Id, int>,
                            stageById: map<Id, nat>, topological: seq<Site>, heap: seq<Site>, readyIds: set<Id>)
  {
    && CountsRight(incoming, remaining, stageById.Keys, {})
    && HeapHolds(heap, readyIds, sitesById)
    && (forall id :: id in readyIds <==> IsReady(incoming, stageById.Keys, {}, id))
    && PlacedWell(edges, stageById)
    && Topological(topological, stageById, sitesById)
  }

  /** Places one site that left the heap and tells its consumers. */
  method Place(site: Site, sites: seq<Site>, sitesById: map<Id, Site>, incoming: map<Id, set<Id>>,
      outgoing: map<Id, set<Id>>, before: map<Id, int>, placedBefore: map<Id, nat>, ready: ReadySites,
      ghost edges: Edges, ghost beforeIds: set<Id>, ghost topological: seq<Site>)
    returns (remaining: map<Id, int>, stageById: map<Id, nat>, ghost readyIds: set<Id>)
    requires SiteTable(sites, sitesById)
    requires incoming.Keys == outgoing.Keys == sitesById.Keys
    requires Incoming(edges, incoming) && Adjacency(edges, outgoing) && Within(edges, sitesById.Keys)
    requires ready.Valid() && HeapHolds(ready.heap, beforeIds - {site.functionId}, sitesById)
    requires beforeIds <= sitesById.Keys
    requires site.functionId in beforeIds && sitesById[site.functionId] == site
    requires forall id :: id in beforeIds <==> IsReady(incoming, placedBefore.Keys, {}, id)
    requires CountsRight(incoming, before, placedBefore.Keys, {})
    requires PlacedWell(edges, placedBefore) && Topological(topological, placedBefore, sitesById)
    modifies ready
    ensures ready.Valid()
    ensures LoopState(edges, sitesById, incoming, remaining, stageById, topological + [site], ready.heap, readyIds)
    ensures stageById.Keys == placedBefore.Keys + {site.functionId} && site.functionId !in placedBefore
  {
    var id := site.functionId;
    assert IsReady(incoming, placedBefore.Keys, {}, id);
    var stage := LeastStage(incoming[id], placedBefore);
    stageById := placedBefore[id := stage];
    PlacingGrows(edges, sitesById, incoming, placedBefore, topological, site, stage);
    PlacingOwes(edges, sitesById, incoming, outgoing, before, placedBefore, beforeIds, id);
    var consumers := SortedConsumers(outgoing[id], sites, sitesById);
    remaining, readyIds := TellConsumers(consumers, sitesById, incoming, before, ready,
                                         placedBefore.Keys + {id}, outgoing[id], beforeIds - {id});
  }

  lemma {:induction false} PlacingGrows(edges: Edges, sitesById: map<Id, Site>, incoming: map<Id, set<Id>>,
      stageById: map<Id, nat>, topological: seq<Site>, site: Site, stage: nat)
    requires Incoming(edges, incoming) && site.functionId in sitesById && sitesById[site.functionId] == site
    requires IsReady(incoming, stageById.Keys, {}, site.functionId)
    requires PlacedWell(edges, stageById) && Topological(topological, stageById, sitesById)
    requires forall producer :: producer in incoming[site.functionId] ==> stageById[producer] < stage
    requires stage == 0 || exists producer :: producer in incoming[site.functionId] && stageById[producer] + 1 == stage
    ensures var after := stageById[site.functionId := stage];
            && after.Keys == stageById.Keys + {site.functionId}
            && PlacedWell(edges, after) && Topological(topological + [site], after, sitesById)
  {
    PlaceOne(edges, incoming, stageById, site.functionId, stage);
    TopologicalGrows(topological, stageById, sitesById, site, stage);
  }

  lemma {:induction false} PlacingOwes(edges: Edges, sitesById: map<Id, Site>, incoming: map<Id, set<Id>>,
      outgoing: map<Id, set<Id>>, remaining: map<Id, int>, stageById: map<Id, nat>, readyIds: set<Id>, id: Id)
    requires incoming.Keys == outgoing.Keys == sitesById.Keys
    requires Incoming(edges, incoming) && Adjacency(edges, outgoing) && Within(edges, sitesById.Keys)
    requires IsReady(incoming, stageById.Keys, {}, id) && PlacedWell(edges, stageById)
    requires forall other :: other in readyIds <==> IsReady(incoming, stageById.Keys, {}, other)
    requires CountsRight(incoming, remaining, stageById.Keys, {})
    ensures CountsRight(incoming, remaining, stageById.Keys + {id}, outgoing[id])
    ensures outgoing[id] !! stageById.Keys + {id} && outgoing[id] <= sitesById.Keys
    ensures forall other :: other in readyIds - {id} <==> IsReady(incoming, stageById.Keys + {id}, outgoing[id], other)
  {
    assert (id, id) !in edges;
    PlacedOwes(edges, incoming, outgoing, remaining, stageById.Keys, id);
    ConsumersUnplaced(edges, outgoing, stageById, id);
    ReadyWithout(edges, incoming, outgoing, stageById.Keys, readyIds, id);
    ConsumersAreSites(edges, outgoing, sitesById, id);
  }

  lemma {:induction false} ConsumersAreSites(edges: Edges, outgoing: map<Id, set<Id>>, sitesById: map<Id, Site>, id: Id)
    requires Adjacency(edges, outgoing) && Within(edges, sitesById.Keys) && id in outgoing
    ensures outgoing[id] <= sitesById.Keys
  {
    forall consumer | consumer in outgoing[id]
      ensures consumer in sitesById
    {
      assert (id, consumer) in edges;
    }
  }

  /**
   * Kahn's loop: places functions whose producers are all placed, least site first. What it
   * cannot place waits for itself.
   */
  method AssignStages(sites: seq<Site>, sitesById: map<Id, Site>, incoming: map<Id, set<Id>>,
      outgoing: map<Id, set<Id>>, ghost edges: Edges)
    returns (topological: seq<Site>, stageById: map<Id, nat>)
    requires CanonicalSites(sites, sitesById)
    requires incoming.Keys == outgoing.Keys == sitesById.Keys
    requires Incoming(edges, incoming) && Adjacency(edges, outgoing) && Within(edges, sitesById.Keys)
    ensures PlacedWell(edges, stageById) && Topological(topological, stageById, sitesById)
    ensures stageById.Keys == sitesById.Keys || Stuck(edges, sitesById.Keys - stageById.Keys)
  {
    ghost var readyIds: set<Id>;
    var remaining, ready, startIds := StartReady(sites, sitesById, incoming);
    readyIds := startIds;
    topological := [];
    stageById := map[];
    while |ready.heap| > 0
      invariant ready.Valid() && fresh(ready)
      invariant LoopState(edges, sitesById, incoming, remaining, stageById, topological, ready.heap, readyIds)
      decreases sitesById.Keys - stageById.Keys
    {
      ghost var heap := ready.heap;
      var popped := ready.Pop();
      var site := popped.value;
      HeapLoses(heap, ready.heap, readyIds, sitesById, site);
      ghost var placed := stageById.Keys;
      remaining, stageById, readyIds :=
        Place(site, sites, sitesById, incoming, outgoing, remaining, stageById, ready, edges, readyIds, topological);
      topological := topological + [site];
      assert site.functionId in sitesById.Keys - placed;
    }
    assert forall id :: id in readyIds ==> sitesById[id] in multiset(ready.heap);
    NothingReadyIsStuck(edges, incoming, stageById.Keys);
  }
}
