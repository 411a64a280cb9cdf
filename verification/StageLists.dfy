/**
 * Writing a stage assignment down as the list of stages.
 */
module StageLists {
  import opened ByteOrder
  import opened CycleSearch
  import opened DependencyGraph
  import opened PlanSpec
  import opened Sorting
  import opened Stages

  ghost function SitesOn(sites: seq<Site>, stageById: map<Id, nat>, k: nat): seq<Site> {
    if sites == [] then []
    else (if sites[0].functionId in stageById && stageById[sites[0].functionId] == k then [sites[0]] else [])
         + SitesOn(sites[1..], stageById, k)
  }

  lemma {:induction false} NamesOfSitesOn(sites: seq<Site>, stageById: map<Id, nat>, k: nat)
    ensures Names(SitesOn(sites, stageById, k)) == OnStage(Names(sites), stageById, k)
  {
    if sites == [] {
      assert Names(sites) == [];
    } else {
      NamesOfSitesOn(sites[1..], stageById, k);
      NamesOfTail(sites);
      NamesOfCons(sites[0], SitesOn(sites[1..], stageById, k));
    }
  }

  lemma {:induction false} NamesOfTail(sites: seq<Site>)
    requires sites != []
    ensures Names(sites)[1..] == Names(sites[1..]) && Names(sites)[0] == sites[0].functionId
  {
  }

  lemma {:induction false} NamesOfCons(site: Site, rest: seq<Site>)
    ensures Names([site] + rest) == [site.functionId] + Names(rest)
  {
  }

  lemma {:induction false} SitesOnMembers(sites: seq<Site>, stageById: map<Id, nat>, k: nat)
    ensures forall site :: site in SitesOn(sites, stageById, k) <==>
                             site in sites && site.functionId in stageById && stageById[site.functionId] == k
  {
    if sites != [] {
      SitesOnMembers(sites[1..], stageById, k);
      assert sites == [sites[0]] + sites[1..];
    }
  }

  lemma {:induction false} SitesOnInOrder(sites: seq<Site>, stageById: map<Id, nat>, k: nat)
    requires NoRepeats(sites) && Ordered(Before, sites)
    ensures NoRepeats(SitesOn(sites, stageById, k)) && Ordered(Before, SitesOn(sites, stageById, k))
  {
    if sites != [] {
      OrderedTail(Before, sites);
      SitesOnInOrder(sites[1..], stageById, k);
      var rest := SitesOn(sites[1..], stageById, k);
      SitesOnMembers(sites[1..], stageById, k);
      if sites[0].functionId in stageById && stageById[sites[0].functionId] == k {
        LeadInOrder(sites, rest);
      } else {
        assert SitesOn(sites, stageById, k) == rest;
      }
    }
  }

  lemma {:induction false} LeadInOrder(sites: seq<Site>, some: seq<Site>)
    requires sites != [] && NoRepeats(sites) && NoRepeats(some) && Ordered(Before, some)
    requires forall site :: site in multiset(sites[1..]) ==> !Before(site, sites[0])
    requires forall site :: site in some ==> site in sites[1..]
    ensures NoRepeats([sites[0]] + some) && Ordered(Before, [sites[0]] + some)
  {
    forall y | y in multiset(some)
      ensures !Before(y, sites[0])
    {
      assert y in some;
      assert y in multiset(sites[1..]);
    }
    OrderedCons(Before, sites[0], some);
    assert sites[0] !in some;
  }

  lemma {:induction false} SitesAreSeparated(sites: seq<Site>, sitesById: map<Id, Site>, some: seq<Site>)
    requires SiteTable(sites, sitesById)
    requires forall site :: site in some ==> site in sites
    ensures Separates(Before, multiset(some))
  {
    forall x, y | x in multiset(some) && y in multiset(some) && !Before(x, y) && !Before(y, x)
      ensures x == y
    {
      SiteOrderIsTotal(x, y, x);
      assert x in some && y in some;
      SameSite(sites, sitesById, x, y);
    }
  }

  lemma {:induction false} SameMultiset<T>(a: seq<T>, b: seq<T>)
    requires NoRepeats(a) && NoRepeats(b) && forall x :: x in a <==> x in b
    ensures multiset(a) == multiset(b)
  {
    NoRepeatsCount(a);
    NoRepeatsCount(b);
    forall x
      ensures multiset(a)[x] == multiset(b)[x]
    {
      assert x in multiset(a) <==> x in a;
      assert x in multiset(b) <==> x in b;
    }
  }

  /** Sorting a group in any order gives the stage in site order. */
  lemma {:induction false} SortedGroup(sites: seq<Site>, sitesById: map<Id, Site>, stageById: map<Id, nat>,
      group: seq<Site>, k: nat)
    requires CanonicalSites(sites, sitesById) && NoRepeats(group)
    requires forall site ::
             site in group <==> site in sites && site.functionId in stageById && stageById[site.functionId] == k
    ensures Names(Sort(Before, group)) == OnStage(Names(sites), stageById, k)
  {
    var listed := SitesOn(sites, stageById, k);
    SitesOnMembers(sites, stageById, k);
    SitesOnInOrder(sites, stageById, k);
    SameMultiset(group, listed);
    SortKeepsElements(Before, group);
    SiteOrderSorts();
    SortOrders(Before, group);
    SitesAreSeparated(sites, sitesById, listed);
    OrderedIsUnique(Before, listed, Sort(Before, group));
    NamesOfSitesOn(sites, stageById, k);
  }

  ghost predicate Ascending(indexes: seq<nat>) {
    forall i, j :: 0 <= i < j < |indexes| ==> indexes[i] < indexes[j]
  }

  predicate Lower(a: nat, b: nat) {
    a < b
  }

  method SortedIndexes(keys: set<nat>) returns (indexes: seq<nat>)
    ensures Ascending(indexes)
    ensures forall k :: k in keys <==> k in indexes
  {
    var found: seq<nat> := [];
    var rest := keys;
    while rest != {}
      invariant rest <= keys && NoRepeats(found)
      invariant forall k :: k in keys - rest <==> k in found
      decreases rest
    {
      var k :| k in rest;
      assert k !in found;
      found := found + [k];
      rest := rest - {k};
    }
    indexes := Sort(Lower, found);
    SortKeepsNoRepeats(Lower, found);
    SortOrders(Lower, found);
    forall i, j | 0 <= i < j < |indexes|
      ensures indexes[i] < indexes[j]
    {
      assert InOrder(Lower, indexes, i, j);
      assert indexes[i] != indexes[j];
    }
  }

  lemma {:induction false} AtLeastPosition(indexes: seq<nat>, i: nat)
    requires Ascending(indexes) && i < |indexes|
    ensures indexes[i] >= i
  {
    if i > 0 {
      AtLeastPosition(indexes, i - 1);
      assert indexes[i - 1] < indexes[i];
    }
  }

  /** Ascending indexes without gaps below them count up from zero. */
  lemma {:induction false} DenseIndexes(indexes: seq<nat>, i: nat)
    requires Ascending(indexes) && i < |indexes|
    requires forall k: nat, j :: 0 <= j < |indexes| && k < indexes[j] ==> k in indexes
    ensures indexes[i] == i
  {
    AtLeastPosition(indexes, i);
    if indexes[i] > i {
      assert i in indexes;
      var j :| 0 <= j < |indexes| && indexes[j] == i;
      if j < i {
        DenseIndexes(indexes, j);
      }
    }
  }

  ghost predicate GroupedRight(grouped: map<nat, seq<Site>>, listed: seq<Site>, stageById: map<Id, nat>, k: nat) {
    && (k in grouped ==> grouped[k] != [] && NoRepeats(grouped[k]))
    && forall site :: (k in grouped && site in grouped[k]) <==>
                        (site in listed && site.functionId in stageById && stageById[site.functionId] == k)
  }

  method GroupByStage(topological: seq<Site>, stageById: map<Id, nat>) returns (grouped: map<nat, seq<Site>>)
    requires NoRepeats(topological) && forall site :: site in topological ==> site.functionId in stageById
    ensures forall k :: GroupedRight(grouped, topological, stageById, k)
  {
    grouped := map[];
    for i := 0 to |topological|
      invariant forall k :: GroupedRight(grouped, topological[..i], stageById, k)
    {
      var site := topological[i];
      var stage := stageById[site.functionId];
      var entries := if stage in grouped then grouped[stage] else [];
      ghost var before, listed := grouped, topological[..i];
      grouped := grouped[stage := entries + [site]];
      assert topological[..i + 1] == listed + [site] && site !in listed;
      GroupGains(before, grouped, listed, site, stageById);
    }
    assert topological[..|topological|] == topological;
  }

  lemma {:induction false} GroupGains(grouped: map<nat, seq<Site>>, grouped': map<nat, seq<Site>>, listed: seq<Site>,
      site: Site, stageById: map<Id, nat>)
    requires site !in listed && site.functionId in stageById
    requires forall k :: GroupedRight(grouped, listed, stageById, k)
    requires var stage := stageById[site.functionId];
             grouped' == grouped[stage := (if stage in grouped then grouped[stage] else []) + [site]]
    ensures forall k :: GroupedRight(grouped', listed + [site], stageById, k)
  {
    forall k: nat
      ensures GroupedRight(grouped', listed + [site], stageById, k)
    {
      assert GroupedRight(grouped, listed, stageById, k);
    }
  }

  /** Groups the placed sites, sorts the groups by index and each group by site order. */
  method ListStages(topological: seq<Site>, stageById: map<Id, nat>, sites: seq<Site>, sitesById: map<Id, Site>,
                    ghost edges: Edges)
    returns (stages: seq<Stage>)
    requires CanonicalSites(sites, sitesById) && Topological(topological, stageById, sitesById)
    requires stageById.Keys == sitesById.Keys && MinimumStages(stageById.Keys, edges, stageById)
    ensures Spells(Names(sites), stageById, stages)
  {
    var grouped := GroupByStage(topological, stageById);
    GroupsAreStages(sites, sitesById, topological, stageById, grouped, edges);
    var indexes := SortedIndexes(grouped.Keys);
    IndexesCountUp(indexes, grouped);
    stages := [];
    for i := 0 to |indexes|
      invariant |stages| == i
      invariant forall k: nat :: k < i ==> SpelledOut(Names(sites), stageById, stages, k)
    {
      assert indexes[i] in indexes && indexes[i] == i;
      var entries := Sort(Before, grouped[indexes[i]]);
      SortedGroup(sites, sitesById, stageById, grouped[i], i);
      SortKeepsElements(Before, grouped[i]);
      SpellsOneMore(sites, stageById, stages, Stage(indexes[i], Names(entries)));
      stages := stages + [Stage(indexes[i], Names(entries))];
    }
    AllWithin(sites, sitesById, stageById, indexes);
  }

  lemma {:induction false} SpellsOneMore(sites: seq<Site>, stageById: map<Id, nat>, stages: seq<Stage>, stage: Stage)
    requires forall k: nat :: k < |stages| ==> SpelledOut(Names(sites), stageById, stages, k)
    requires stage == Stage(|stages|, OnStage(Names(sites), stageById, |stages|)) && stage.functionIds != []
    ensures forall k: nat :: k <= |stages| ==> SpelledOut(Names(sites), stageById, stages + [stage], k)
  {
    forall k: nat | k <= |stages|
      ensures SpelledOut(Names(sites), stageById, stages + [stage], k)
    {
      assert k < |stages| ==> SpelledOut(Names(sites), stageById, stages, k);
    }
  }

  lemma {:induction false} AllWithin(sites: seq<Site>, sitesById: map<Id, Site>, stageById: map<Id, nat>,
      indexes: seq<nat>)
    requires SiteTable(sites, sitesById) && stageById.Keys == sitesById.Keys
    requires forall i :: 0 <= i < |indexes| ==> indexes[i] == i
    requires forall id :: id in stageById ==> stageById[id] in indexes
    ensures forall id :: id in Names(sites) ==> id in stageById && stageById[id] < |indexes|
  {
    SiteIds(sites, sitesById);
    forall id | id in Names(sites)
      ensures id in stageById && stageById[id] < |indexes|
    {
      assert id in IdSet(Names(sites));
    }
  }

  lemma {:induction false} GroupsAreStages(sites: seq<Site>, sitesById: map<Id, Site>, topological: seq<Site>,
      stageById: map<Id, nat>, grouped: map<nat, seq<Site>>, edges: Edges)
    requires SiteTable(sites, sitesById) && Topological(topological, stageById, sitesById)
    requires stageById.Keys == sitesById.Keys && MinimumStages(stageById.Keys, edges, stageById)
    requires forall k :: GroupedRight(grouped, topological, stageById, k)
    ensures forall k :: k in grouped ==> NoRepeats(grouped[k]) && grouped[k] != []
    ensures forall k, site :: k in grouped ==> (site in grouped[k] <==>
                                  site in sites && site.functionId in stageById && stageById[site.functionId] == k)
    ensures forall id :: id in stageById ==> stageById[id] in grouped
    ensures forall k: nat, j: nat :: j in grouped && k <= j ==> k in grouped
  {
    forall site
      ensures site in topological <==> site in sites
    {
      if site in sites {
        var i :| 0 <= i < |sites| && sites[i] == site;
      }
    }
    forall id | id in stageById
      ensures stageById[id] in grouped
    {
      assert GroupedRight(grouped, topological, stageById, stageById[id]);
      assert sitesById[id] in topological;
    }
    forall k: nat, j: nat | j in grouped && k <= j
      ensures k in grouped
    {
      assert GroupedRight(grouped, topological, stageById, j);
      var site := grouped[j][0];
      assert site in grouped[j];
      StagesAreDense(stageById.Keys, edges, stageById, site.functionId, k);
      var other :| other in stageById && stageById[other] == k;
    }
    forall k | k in grouped
      ensures GroupedRight(grouped, topological, stageById, k)
    {
    }
  }

  lemma {:induction false} IndexesCountUp(indexes: seq<nat>, grouped: map<nat, seq<Site>>)
    requires Ascending(indexes) && forall k :: k in grouped <==> k in indexes
    requires forall k: nat, j: nat :: j in grouped && k <= j ==> k in grouped
    ensures forall i :: 0 <= i < |indexes| ==> indexes[i] == i
  {
    forall i | 0 <= i < |indexes|
      ensures indexes[i] == i
    {
      forall k: nat, j | 0 <= j < |indexes| && k < indexes[j]
        ensures k in indexes
      {
        assert indexes[j] in indexes;
      }
      DenseIndexes(indexes, i);
    }
  }
}
