/**
 * Building the execution plan of a program: provenance of every input, canonical
 * dependencies, stages.
 */
module ExecutionPlan {
  import opened ByteOrder
  import opened BundleIr
  import opened CycleSearch
  import opened DependencyGraph
  import opened DependencyOrder
  import opened Outcomes
  import opened PlanRun
  import opened PlanSpec
  import opened Provenance
  import opened Sorting
  import opened Stages
  import opened StageCheck
  import opened StageLists

  /** One interpolated input: its name, and its expression in the view of the consuming site. */
  datatype InputUse = InputUse(name: Bytes, view: View, expression: Expr)

  datatype Descriptor = Descriptor(functionId: Id, path: Bytes, start: nat, uses: seq<InputUse>)

  datatype Plan = Plan(dependencies: seq<Dependency>, stages: seq<Stage>)

  datatype PlanError =
    | InvalidDescriptors
    | ProvenanceBudget
    | ProvenanceCycle(symbols: seq<Symbol>)
    | DependencyCycle(walk: seq<Id>)

  function InputNames(descriptor: Descriptor): seq<Bytes> {
    seq(|descriptor.uses|, i requires 0 <= i < |descriptor.uses| => descriptor.uses[i].name)
  }

  function SiteOf(descriptor: Descriptor): Site {
    Site(descriptor.functionId, descriptor.path, descriptor.start, InputNames(descriptor))
  }

  predicate DescriptorBefore(left: Descriptor, right: Descriptor) {
    Before(SiteOf(left), SiteOf(right))
  }

  function SitesOf(descriptors: seq<Descriptor>): seq<Site> {
    seq(|descriptors|, i requires 0 <= i < |descriptors| => SiteOf(descriptors[i]))
  }

  function SiteSignatures(sites: seq<Site>): seq<Signature> {
    seq(|sites|, i requires 0 <= i < |sites| => Signature(sites[i].functionId, sites[i].inputs))
  }

  ghost predicate DescriptorValid(descriptor: Descriptor) {
    descriptor.functionId != [] && descriptor.path != [] && InputsNamed(InputNames(descriptor))
  }

  ghost predicate DescriptorsValid(descriptors: seq<Descriptor>) {
    && (forall i :: 0 <= i < |descriptors| ==> DescriptorValid(descriptors[i]))
    && (forall i, j :: 0 <= i < j < |descriptors| ==> descriptors[i].functionId != descriptors[j].functionId)
  }

  ghost predicate Draws(use: InputUse, producer: Id) {
    ExprReaches(use.view, use.expression, producer, {})
  }

  /** The consumer has an input of that name whose expression may draw on the producer. */
  ghost predicate DependsOn(descriptors: seq<Descriptor>, dependency: Dependency) {
    exists i :: 0 <= i < |descriptors| && UsedBy(descriptors[i], |descriptors[i].uses|, dependency)
  }

  /** One of the first `n` inputs makes the dependency. */
  ghost predicate UsedBy(descriptor: Descriptor, n: nat, d: Dependency) {
    descriptor.functionId == d.consumer &&
    exists j :: 0 <= j < n && j < |descriptor.uses| && descriptor.uses[j].name == d.input
      && Draws(descriptor.uses[j], d.producer)
  }

  /** Site leaves are the sites of the program. */
  ghost predicate LeavesKnown(descriptors: seq<Descriptor>) {
    forall i, j, producer ::
      0 <= i < |descriptors| && 0 <= j < |descriptors[i].uses| && Draws(descriptors[i].uses[j], producer) ==>
      IsFunction(descriptors, producer)
  }

  ghost predicate IsFunction(descriptors: seq<Descriptor>, id: Id) {
    exists i :: 0 <= i < |descriptors| && descriptors[i].functionId == id
  }

  method ValidateDescriptors(descriptors: seq<Descriptor>) returns (ranks: Option<Ranks>)
    ensures ranks.Some? <==> DescriptorsValid(descriptors)
    ensures ranks.Some? ==> Ranked(SiteSignatures(SitesOf(descriptors)), ranks.value)
  {
    var tables := Ranks(map[], map[]);
    for i := 0 to |descriptors|
      invariant DescriptorsValid(descriptors[..i])
      invariant Ranked(SiteSignatures(SitesOf(descriptors[..i])), tables)
    {
      var descriptor := descriptors[i];
      if |descriptor.functionId| == 0 || |descriptor.path| == 0 {
        return None;
      }
      if descriptor.functionId in tables.rankById {
        DescribedTwice(descriptors, tables, i);
        return None;
      }
      var inputRanks := RankInputs(InputNames(descriptor));
      if inputRanks.None? {
        return None;
      }
      DescribeOne(descriptors, tables, i, inputRanks.value);
      tables := Ranks(tables.rankById[descriptor.functionId := i],
                      tables.inputRankById[descriptor.functionId := inputRanks.value]);
    }
    assert descriptors[..|descriptors|] == descriptors;
    return Some(tables);
  }

  lemma {:induction false} DescribedTwice(descriptors: seq<Descriptor>, tables: Ranks, i: nat)
    requires i < |descriptors| && Ranked(SiteSignatures(SitesOf(descriptors[..i])), tables)
    requires descriptors[i].functionId in tables.rankById
    ensures !DescriptorsValid(descriptors)
  {
    var earlier := tables.rankById[descriptors[i].functionId];
    assert SiteSignatures(SitesOf(descriptors[..i]))[earlier].id == descriptors[earlier].functionId;
  }

  lemma {:induction false} DescribeOne(descriptors: seq<Descriptor>, tables: Ranks, i: nat, inputRanks: map<Bytes, nat>)
    requires i < |descriptors| && Ranked(SiteSignatures(SitesOf(descriptors[..i])), tables)
    requires DescriptorsValid(descriptors[..i]) && DescriptorValid(descriptors[i])
    requires descriptors[i].functionId !in tables.rankById && InputRanks(InputNames(descriptors[i]), inputRanks)
    ensures var id := descriptors[i].functionId;
            Ranked(SiteSignatures(SitesOf(descriptors[..i + 1])),
                   Ranks(tables.rankById[id := i], tables.inputRankById[id := inputRanks]))
    ensures DescriptorsValid(descriptors[..i + 1])
  {
    var before := SiteSignatures(SitesOf(descriptors[..i]));
    var next := Signature(descriptors[i].functionId, InputNames(descriptors[i]));
    RankOne(before, tables, next, inputRanks);
    assert SiteSignatures(SitesOf(descriptors[..i + 1])) == before + [next];
    assert descriptors[..i + 1] == descriptors[..i] + [descriptors[i]];
    forall k | 0 <= k < i
      ensures descriptors[k].functionId != next.id
    {
      assert before[k].id == descriptors[k].functionId;
    }
  }

  // ----- collecting the labelled edges

  /** `found` holds exactly the dependencies of the first `n` consumers. */
  ghost predicate Collected(descriptors: seq<Descriptor>, n: nat, found: set<Dependency>) {
    n <= |descriptors| && forall d :: d in found <==> DependsOn(descriptors[..n], d)
  }

  ghost predicate UsesCollected(descriptor: Descriptor, n: nat, before: set<Dependency>, found: set<Dependency>) {
    && n <= |descriptor.uses|
    && forall d :: d in found <==> d in before || UsedBy(descriptor, n, d)
  }

  /** Adds one labelled edge per producer, charging one unit of work for each. */
  method CollectProducers(resolver: ProvenanceResolver, consumer: Id, input: Bytes, producers: set<Id>,
      before: set<Dependency>)
    returns (within: bool, found: set<Dependency>)
    requires resolver.work <= resolver.maximumWork
    modifies resolver`work
    ensures within ==> forall d :: d in found <==>
                         d in before || (d.consumer == consumer && d.input == input && d.producer in producers)
    ensures within <==> old(resolver.work) + |producers| <= resolver.maximumWork
    ensures resolver.work == if within then old(resolver.work) + |producers| else resolver.maximumWork + 1
  {
    found := before;
    var rest := producers;
    while rest != {}
      invariant rest <= producers
      invariant resolver.work + |rest| == old(resolver.work) + |producers| && resolver.work <= resolver.maximumWork
      invariant forall d :: d in found <==>
                  d in before || (d.consumer == consumer && d.input == input && d.producer in producers - rest)
      decreases rest
    {
      var producer :| producer in rest;
      within := resolver.ConsumeWork();
      if !within {
        return;
      }
      found := found + {Dependency(producer, consumer, input)};
      rest := rest - {producer};
    }
    within := true;
  }

  // ----- the cost of a program

  ghost function FunctionSet(descriptors: seq<Descriptor>): set<Id> {
    set i | 0 <= i < |descriptors| :: descriptors[i].functionId
  }

  /** The work for the first `n` inputs of a site: resolving each, and an edge for every producer. */
  ghost function UsesCost(descriptor: Descriptor, n: nat, maximumDepth: nat, m: nat): nat
    requires n <= |descriptor.uses|
  {
    if n == 0 then 0
    else
      var use := descriptor.uses[n - 1];
      UsesCost(descriptor, n - 1, maximumDepth, m) + Cost(use.view, use.expression, maximumDepth + 1, m) + m
  }

  ghost function ProgramCost(descriptors: seq<Descriptor>, n: nat, maximumDepth: nat, m: nat): nat
    requires n <= |descriptors|
  {
    if n == 0 then 0
    else
      ProgramCost(descriptors, n - 1, maximumDepth, m)
      + UsesCost(descriptors[n - 1], |descriptors[n - 1].uses|, maximumDepth, m)
  }

  lemma {:induction false} UsesCostGrows(descriptor: Descriptor, n: nat, maximumDepth: nat, m: nat)
    requires n <= |descriptor.uses|
    ensures UsesCost(descriptor, n, maximumDepth, m) <= UsesCost(descriptor, |descriptor.uses|, maximumDepth, m)
    decreases |descriptor.uses| - n
  {
    if n < |descriptor.uses| {
      UsesCostGrows(descriptor, n + 1, maximumDepth, m);
    }
  }

  lemma {:induction false} ProgramCostGrows(descriptors: seq<Descriptor>, n: nat, maximumDepth: nat, m: nat)
    requires n <= |descriptors|
    ensures ProgramCost(descriptors, n, maximumDepth, m) <= ProgramCost(descriptors, |descriptors|, maximumDepth, m)
    decreases |descriptors| - n
  {
    if n < |descriptors| {
      ProgramCostGrows(descriptors, n + 1, maximumDepth, m);
    }
  }

  /** Some input of the site can be followed deeper than the limit. */
  ghost predicate HasDeepUse(descriptor: Descriptor, maximumDepth: nat) {
    exists j :: 0 <= j < |descriptor.uses|
      && Descends(descriptor.uses[j].view, descriptor.uses[j].expression, maximumDepth + 1)
  }

  /** What can exhaust the provenance budget of a program. */
  ghost predicate ExceedsLimits(descriptors: seq<Descriptor>, maximumDepth: nat, maximumWork: nat) {
    || (exists i :: 0 <= i < |descriptors| && HasDeepUse(descriptors[i], maximumDepth))
    || ProgramCost(descriptors, |descriptors|, maximumDepth, |FunctionSet(descriptors)|) > maximumWork
  }

  ghost predicate UsesReachOnly(descriptor: Descriptor, sites: set<Id>) {
    forall j :: 0 <= j < |descriptor.uses| ==>
      ReachesOnly(descriptor.uses[j].view, descriptor.uses[j].expression, sites)
  }

  lemma {:induction false} KnownLeavesReachOnly(descriptors: seq<Descriptor>, i: nat)
    requires LeavesKnown(descriptors) && i < |descriptors|
    ensures UsesReachOnly(descriptors[i], FunctionSet(descriptors))
  {
    forall j, id | 0 <= j < |descriptors[i].uses| && Draws(descriptors[i].uses[j], id)
      ensures id in FunctionSet(descriptors)
    {
      assert IsFunction(descriptors, id);
    }
  }

  method CollectUses(resolver: ProvenanceResolver, descriptor: Descriptor, before: set<Dependency>,
      ghost sites: set<Id>)
    returns (outcome: Result<set<Dependency>, PlanError>)
    requires resolver.activeSymbols == [] && resolver.ignoredSymbols == {}
    requires resolver.work <= resolver.maximumWork && UsesReachOnly(descriptor, sites)
    modifies resolver
    ensures resolver.activeSymbols == [] && resolver.ignoredSymbols == {}
    ensures outcome.Ok? ==> UsesCollected(descriptor, |descriptor.uses|, before, outcome.value)
    ensures outcome.Ok? ==> UsesGrounded(descriptor, |descriptor.uses|)
    ensures outcome.Err? ==> outcome.error.ProvenanceBudget? ||
                             (outcome.error.ProvenanceCycle? && InProvenanceCycle(descriptor, outcome.error.symbols))
    ensures resolver.Charged(old(resolver.work), resolver.work,
            UsesCost(descriptor, |descriptor.uses|, resolver.maximumDepth, |sites|),
                             outcome == Err(ProvenanceBudget), HasDeepUse(descriptor, resolver.maximumDepth))
  {
    var found := before;
    for j := 0 to |descriptor.uses|
      invariant resolver.activeSymbols == [] && resolver.ignoredSymbols == {}
      invariant UsesCollected(descriptor, j, before, found) && UsesGrounded(descriptor, j)
      invariant resolver.Charged(old(resolver.work), resolver.work,
                UsesCost(descriptor, j, resolver.maximumDepth, |sites|), false, false)
    {
      var use := descriptor.uses[j];
      UsesCostGrows(descriptor, j + 1, resolver.maximumDepth, |sites|);
      var answer := resolver.ForExpression(use.view, use.expression, sites);
      if answer.Err? {
        match answer.error {
          case Budget => return Err(ProvenanceBudget);
          case Cycle(symbols) => return Err(ProvenanceCycle(symbols));
        }
      }
      FewProducers(use, answer.value, sites);
      var within, more := CollectProducers(resolver, descriptor.functionId, use.name, answer.value, found);
      if !within {
        return Err(ProvenanceBudget);
      }
      OneMoreUse(descriptor, j, before, found, more, answer.value);
      found := more;
    }
    return Ok(found);
  }

  lemma {:induction false} FewProducers(use: InputUse, producers: set<Id>, sites: set<Id>)
    requires forall id :: id in producers <==> Draws(use, id)
    requires ReachesOnly(use.view, use.expression, sites)
    ensures |producers| <= |sites|
  {
    assert producers <= sites;
    SubsetIsSmaller(producers, sites);
  }

  /** No initializers run in circles below the first `n` inputs of the site. */
  ghost predicate UsesGrounded(descriptor: Descriptor, n: nat) {
    forall j :: 0 <= j < n && j < |descriptor.uses| ==>
      ExprGrounded(descriptor.uses[j].view, descriptor.uses[j].expression)
  }

  ghost predicate AllUsesGrounded(descriptors: seq<Descriptor>, n: nat) {
    forall i :: 0 <= i < n && i < |descriptors| ==> UsesGrounded(descriptors[i], |descriptors[i].uses|)
  }

  ghost predicate InProvenanceCycle(descriptor: Descriptor, symbols: seq<Symbol>) {
    exists j :: 0 <= j < |descriptor.uses| && IsInitializerCycle(descriptor.uses[j].view, symbols)
  }

  /** Where reference loops use no initializer, no provenance cycle can be what is reported. */
  lemma {:induction false} AssignmentLoopsAreNotReported(descriptor: Descriptor, symbols: seq<Symbol>)
    requires forall j :: 0 <= j < |descriptor.uses| ==> LoopsOnlyByAssignment(descriptor.uses[j].view)
    ensures !InProvenanceCycle(descriptor, symbols)
  {
    forall j | 0 <= j < |descriptor.uses|
      ensures !IsInitializerCycle(descriptor.uses[j].view, symbols)
    {
      AssignmentLoopsAreNoCycles(descriptor.uses[j].view, symbols);
    }
  }

  lemma {:induction false} OneMoreUse(descriptor: Descriptor, j: nat, before: set<Dependency>, found: set<Dependency>,
      more: set<Dependency>, producers: set<Id>)
    requires j < |descriptor.uses| && UsesCollected(descriptor, j, before, found)
    requires forall id :: id in producers <==> Draws(descriptor.uses[j], id)
    requires forall d :: d in more <==>
               d in found || (d.consumer == descriptor.functionId && d.input == descriptor.uses[j].name
                 && d.producer in producers)
    ensures UsesCollected(descriptor, j + 1, before, more)
  {
    forall d
      ensures UsedBy(descriptor, j + 1, d) <==>
              UsedBy(descriptor, j, d)
                || (d.consumer == descriptor.functionId && d.input == descriptor.uses[j].name
                   && d.producer in producers)
    {
    }
  }

  lemma {:induction false} OneMoreConsumer(descriptors: seq<Descriptor>, n: nat, before: set<Dependency>,
      found: set<Dependency>)
    requires n < |descriptors| && Collected(descriptors, n, before)
    requires UsesCollected(descriptors[n], |descriptors[n].uses|, before, found)
    ensures Collected(descriptors, n + 1, found)
  {
    var shorter, longer := descriptors[..n], descriptors[..n + 1];
    forall d
      ensures DependsOn(longer, d) <==> DependsOn(shorter, d) || UsedBy(descriptors[n], |descriptors[n].uses|, d)
    {
      if i :| 0 <= i < |longer| && UsedBy(longer[i], |longer[i].uses|, d) {
        assert i < n ==> shorter[i] == longer[i];
      }
      if i :| 0 <= i < |shorter| && UsedBy(shorter[i], |shorter[i].uses|, d) {
        assert longer[i] == shorter[i];
      }
      assert longer[n] == descriptors[n];
    }
  }

  /** Lists a set of dependencies in canonical order. */
  method ListDependencies(found: set<Dependency>, signatures: seq<Signature>, ranks: Ranks)
    returns (dependencies: seq<Dependency>)
    requires Ranked(signatures, ranks) && forall d :: d in found ==> KnownEnds(ranks, d)
    ensures forall d :: d in dependencies <==> d in found
    ensures forall i, j ::
            0 <= i < j < |dependencies| ==> CompareDependencies(ranks, dependencies[i], dependencies[j]) < 0
  {
    var listed: seq<Dependency> := [];
    var rest := found;
    while rest != {}
      invariant rest <= found && NoRepeats(listed)
      invariant forall d :: d in found - rest <==> d in listed
      decreases rest
    {
      var d :| d in rest;
      assert d !in listed;
      listed := listed + [d];
      rest := rest - {d};
    }
    dependencies := Sort(Earlier(ranks), listed);
    SortedDependencies(listed, dependencies, signatures, ranks);
  }

  lemma {:induction false} SortedDependencies(listed: seq<Dependency>, sorted: seq<Dependency>,
      signatures: seq<Signature>, ranks: Ranks)
    requires sorted == Sort(Earlier(ranks), listed)
    requires Ranked(signatures, ranks) && NoRepeats(listed) && forall d :: d in listed ==> KnownEnds(ranks, d)
    ensures forall d :: d in sorted <==> d in listed
    ensures forall i, j :: 0 <= i < j < |sorted| ==> CompareDependencies(ranks, sorted[i], sorted[j]) < 0
  {
    DependencyOrderSorts(ranks);
    SortKeepsNoRepeats(Earlier(ranks), listed);
    SortOrders(Earlier(ranks), listed);
    forall i, j | 0 <= i < j < |sorted|
      ensures CompareDependencies(ranks, sorted[i], sorted[j]) < 0
    {
      assert InOrder(Earlier(ranks), sorted, i, j);
      assert sorted[i] in sorted && sorted[j] in sorted;
      KnownDependenciesTieOnlyWhenEqual(signatures, ranks, sorted[i], sorted[j]);
    }
  }

  // ----- stages

  /** Stages for an acyclic graph, a real cycle otherwise. */
  method CreateStages(sites: seq<Site>, dependencies: seq<Dependency>, sitesById: map<Id, Site>)
    returns (outcome: Result<seq<Stage>, seq<Id>>)
    requires CanonicalSites(sites, sitesById) && Within(EdgesOf(dependencies), sitesById.Keys)
    ensures outcome.Ok? ==> ValidPlan(Names(sites), EdgesOf(dependencies), outcome.value)
    ensures outcome.Err? ==> IsClosedWalk(EdgesOf(dependencies), outcome.error)
    ensures outcome.Ok? <==> !HasCycle(EdgesOf(dependencies))
  {
    ghost var edges := EdgesOf(dependencies);
    var incoming, outgoing := Neighbours(sites, dependencies, sitesById);
    var topological, stageById := AssignStages(sites, sitesById, incoming, outgoing, edges);
    PlacedCount(sites, sitesById, topological, stageById);
    if |topological| != |sites| {
      var report, finished := FindDependencyCycle(sites, outgoing, sitesById, edges);
      if report.Unknown? {
        StuckGraphIsNotFinished(edges, sitesById.Keys - stageById.Keys, finished);
        assert false;
      }
      return Err(report.walk);
    }
    SiteIds(sites, sitesById);
    assert MinimumStages(stageById.Keys, edges, stageById);
    MinimumStageIsLongestChain(stageById.Keys, edges, stageById);
    var stages := ListStages(topological, stageById, sites, sitesById, edges);
    assert PlanBy(Names(sites), edges, stageById, stages);
    return Ok(stages);
  }

  lemma {:induction false} PlacedCount(sites: seq<Site>, sitesById: map<Id, Site>, topological: seq<Site>,
      stageById: map<Id, nat>)
    requires CanonicalSites(sites, sitesById) && Topological(topological, stageById, sitesById)
    ensures |topological| == |sites| <==> stageById.Keys == sitesById.Keys
  {
    NoRepeatsCount(sites);
    NoRepeatsCount(topological);
    assert |multiset(sites)| == |sites| && |multiset(topological)| == |topological|;
    forall site | site in topological
      ensures site in sites
    {
      assert sitesById[site.functionId] in sites;
    }
    PlacedAreSites(sites, topological);
    if stageById.Keys == sitesById.Keys {
      forall site | site in sites
        ensures site in topological
      {
        var i :| 0 <= i < |sites| && sites[i] == site;
      }
      PlacedAreSites(topological, sites);
    }
    if |topological| == |sites| {
      assert multiset(topological) == multiset(sites);
      forall id | id in sitesById
        ensures id in stageById
      {
        assert sitesById[id] in multiset(sites);
        assert sitesById[id] in topological;
      }
    }
  }

  lemma {:induction false} PlacedAreSites(larger: seq<Site>, smaller: seq<Site>)
    requires NoRepeats(larger) && NoRepeats(smaller) && forall site :: site in smaller ==> site in larger
    ensures multiset(smaller) <= multiset(larger)
    ensures |smaller| <= |larger|
    ensures |smaller| == |larger| ==> multiset(smaller) == multiset(larger)
  {
    NoRepeatsCount(larger);
    NoRepeatsCount(smaller);
    forall site
      ensures multiset(smaller)[site] <= multiset(larger)[site]
    {
      assert site in multiset(smaller) <==> site in smaller;
      assert site in multiset(larger) <==> site in larger;
    }
    var rest := multiset(larger) - multiset(smaller);
    assert multiset(larger) == multiset(smaller) + rest;
    assert |multiset(larger)| == |multiset(smaller)| + |rest|;
  }

  // ----- the whole plan

  function Canonical(descriptors: seq<Descriptor>): seq<Descriptor> {
    Sort(DescriptorBefore, descriptors)
  }

  ghost function PlanSignatures(descriptors: seq<Descriptor>): seq<Signature> {
    SiteSignatures(SitesOf(Canonical(descriptors)))
  }

  /** The dependencies are exactly the true ones in canonical order, and the stages their one valid plan. */
  ghost predicate PlannedBy(descriptors: seq<Descriptor>, plan: Plan) {
    && (forall d :: d in plan.dependencies <==> DependsOn(descriptors, d))
    && (forall ranks :: Ranked(PlanSignatures(descriptors), ranks) ==> CanonicalDependencies(ranks, plan.dependencies))
    && ValidPlan(Ids(PlanSignatures(descriptors)), EdgesOf(plan.dependencies), plan.stages)
  }

  lemma {:induction false} DescriptorOrderSorts()
    ensures StrictWeakOrder(DescriptorBefore)
  {
    forall a, b {:trigger DescriptorBefore(a, b), DescriptorBefore(b, a)}
      ensures !(DescriptorBefore(a, b) && DescriptorBefore(b, a))
    {
      SiteOrderIsTotal(SiteOf(a), SiteOf(b), SiteOf(a));
    }
    forall a, b, c {:trigger DescriptorBefore(b, a), DescriptorBefore(c, b)}
      | !DescriptorBefore(b, a) && !DescriptorBefore(c, b)
      ensures !DescriptorBefore(c, a)
    {
      SiteOrderIsTotal(SiteOf(a), SiteOf(b), SiteOf(c));
    }
  }

  lemma {:induction false} SameMembersDependAlike(a: seq<Descriptor>, b: seq<Descriptor>)
    requires multiset(a) == multiset(b)
    ensures forall d :: DependsOn(a, d) <==> DependsOn(b, d)
    ensures forall id :: IsFunction(a, id) <==> IsFunction(b, id)
    ensures LeavesKnown(a) ==> LeavesKnown(b)
  {
    MembersCarryOver(a, b);
    MembersCarryOver(b, a);
    if LeavesKnown(a) {
      forall i, j, producer | 0 <= i < |b| && 0 <= j < |b[i].uses| && Draws(b[i].uses[j], producer)
        ensures IsFunction(b, producer)
      {
        assert b[i] in multiset(a);
        var k :| 0 <= k < |a| && a[k] == b[i];
        assert Draws(a[k].uses[j], producer);
        assert IsFunction(a, producer);
      }
    }
  }

  lemma {:induction false} MembersCarryOver(a: seq<Descriptor>, b: seq<Descriptor>)
    requires multiset(a) == multiset(b)
    ensures forall d :: DependsOn(a, d) ==> DependsOn(b, d)
    ensures forall id :: IsFunction(a, id) ==> IsFunction(b, id)
  {
    forall i | 0 <= i < |a|
      ensures a[i] in b
    {
      assert a[i] in multiset(b);
    }
    forall d | DependsOn(a, d)
      ensures DependsOn(b, d)
    {
      var i :| 0 <= i < |a| && UsedBy(a[i], |a[i].uses|, d);
      var k :| 0 <= k < |b| && b[k] == a[i];
    }
    forall id | IsFunction(a, id)
      ensures IsFunction(b, id)
    {
      var i :| 0 <= i < |a| && a[i].functionId == id;
      var k :| 0 <= k < |b| && b[k] == a[i];
    }
  }

  method IndexSites(sites: seq<Site>) returns (sitesById: map<Id, Site>)
    requires forall i, j :: 0 <= i < j < |sites| ==> sites[i].functionId != sites[j].functionId
    ensures SiteTable(sites, sitesById)
  {
    sitesById := map[];
    for i := 0 to |sites|
      invariant SiteTable(sites[..i], sitesById)
    {
      sitesById := sitesById[sites[i].functionId := sites[i]];
      assert sites[..i + 1] == sites[..i] + [sites[i]];
    }
    assert sites[..|sites|] == sites;
  }

  lemma {:induction false} CanonicalIsCanonical(descriptors: seq<Descriptor>, sitesById: map<Id, Site>)
    requires DescriptorsValid(Canonical(descriptors)) && SiteTable(SitesOf(Canonical(descriptors)), sitesById)
    ensures CanonicalSites(SitesOf(Canonical(descriptors)), sitesById)
  {
    var sorted := Canonical(descriptors);
    var sites := SitesOf(sorted);
    DescriptorOrderSorts();
    SortOrders(DescriptorBefore, descriptors);
    forall i: nat, j: nat | i < j < |sites|
      ensures InOrder(Before, sites, i, j)
    {
      assert InOrder(DescriptorBefore, sorted, i, j);
    }
    forall i, j | 0 <= i < j < |sites|
      ensures sites[i] != sites[j]
    {
      assert sorted[i].functionId != sorted[j].functionId;
    }
  }

  lemma {:induction false} TrueDependenciesAreKnown(sorted: seq<Descriptor>, ranks: Ranks, sitesById: map<Id, Site>,
      found: set<Dependency>)
    requires Ranked(SiteSignatures(SitesOf(sorted)), ranks) && LeavesKnown(sorted)
    requires SiteTable(SitesOf(sorted), sitesById)
    requires forall d :: d in found ==> DependsOn(sorted, d)
    ensures forall d :: d in found ==> KnownEnds(ranks, d)
    ensures forall d :: d in found ==> d.producer in sitesById && d.consumer in sitesById
  {
    forall d | d in found
      ensures KnownEnds(ranks, d) && d.producer in sitesById && d.consumer in sitesById
    {
      var i :| 0 <= i < |sorted| && UsedBy(sorted[i], |sorted[i].uses|, d);
      var j :| 0 <= j < |sorted[i].uses| && sorted[i].uses[j].name == d.input && Draws(sorted[i].uses[j], d.producer);
      assert RankedAt(SiteSignatures(SitesOf(sorted)), ranks, i);
      assert InputNames(sorted[i])[j] == d.input;
      assert IsFunction(sorted, d.producer);
      var k :| 0 <= k < |sorted| && sorted[k].functionId == d.producer;
      assert RankedAt(SiteSignatures(SitesOf(sorted)), ranks, k);
      assert SitesOf(sorted)[i].functionId == d.consumer && SitesOf(sorted)[k].functionId == d.producer;
    }
  }

  /** Provenance of every input of every site, in site order. */
  method CollectDependencies(sorted: seq<Descriptor>, maximumDepth: nat, maximumWork: nat)
    returns (outcome: Result<set<Dependency>, PlanError>)
    requires LeavesKnown(sorted)
    ensures outcome.Ok? ==> forall d :: d in outcome.value <==> DependsOn(sorted, d)
    ensures outcome.Ok? ==> AllUsesGrounded(sorted, |sorted|)
    ensures outcome.Err? ==> outcome.error.ProvenanceBudget? ||
                             (outcome.error.ProvenanceCycle?
                               && exists i :: 0 <= i < |sorted| && InProvenanceCycle(sorted[i], outcome.error.symbols))
    ensures outcome == Err(ProvenanceBudget) ==> ExceedsLimits(sorted, maximumDepth, maximumWork)
  {
    var resolver := new ProvenanceResolver(maximumDepth, maximumWork);
    var found: set<Dependency> := {};
    ghost var sites := FunctionSet(sorted);
    for n := 0 to |sorted|
      invariant fresh(resolver) && resolver.activeSymbols == [] && resolver.ignoredSymbols == {}
      invariant resolver.Charged(0, resolver.work, ProgramCost(sorted, n, maximumDepth, |sites|), false, false)
      invariant Collected(sorted, n, found) && AllUsesGrounded(sorted, n)
    {
      KnownLeavesReachOnly(sorted, n);
      ProgramCostGrows(sorted, n + 1, maximumDepth, |sites|);
      outcome := CollectUses(resolver, sorted[n], found, sites);
      if outcome.Err? {
        return;
      }
      OneMoreConsumer(sorted, n, found, outcome.value);
      found := outcome.value;
    }
    assert sorted[..|sorted|] == sorted;
    return Ok(found);
  }

  /**
   * The plan of a program: when it succeeds, its dependencies are exactly what the inputs
   * draw on, and when it reports a cycle, there is one.
   */
  method BuildSemaExecutionPlan(descriptors: seq<Descriptor>, maximumDepth: nat, maximumWork: nat)
    returns (outcome: Result<Plan, PlanError>)
    requires LeavesKnown(descriptors)
    ensures outcome.Ok? ==> PlannedBy(descriptors, outcome.value)
    ensures outcome.Ok? ==> AllUsesGrounded(Canonical(descriptors), |Canonical(descriptors)|)
    ensures outcome.Err? && outcome.error.InvalidDescriptors? <==> !DescriptorsValid(Canonical(descriptors))
    ensures outcome == Err(ProvenanceBudget) ==> ExceedsLimits(Canonical(descriptors), maximumDepth, maximumWork)
    ensures outcome.Err? && outcome.error.DependencyCycle? ==>
              exists dependencies :: (forall d :: d in dependencies <==> DependsOn(descriptors, d)) &&
                                     IsClosedWalk(EdgesOf(dependencies), outcome.error.walk)
    ensures outcome.Err? && outcome.error.ProvenanceCycle? ==>
              exists i :: 0 <= i < |Canonical(descriptors)|
                && InProvenanceCycle(Canonical(descriptors)[i], outcome.error.symbols)
  {
    var sorted := Canonical(descriptors);
    SortKeepsElements(DescriptorBefore, descriptors);
    SameMembersDependAlike(descriptors, sorted);
    var ranked := ValidateDescriptors(sorted);
    if ranked.None? {
      return Err(InvalidDescriptors);
    }
    var collected := CollectDependencies(sorted, maximumDepth, maximumWork);
    if collected.Err? {
      return Err(collected.error);
    }
    outcome := StagePlan(descriptors, sorted, ranked.value, collected.value);
  }

  method StagePlan(descriptors: seq<Descriptor>, sorted: seq<Descriptor>, ranks: Ranks, found: set<Dependency>)
    returns (outcome: Result<Plan, PlanError>)
    requires sorted == Canonical(descriptors) && DescriptorsValid(sorted) && LeavesKnown(sorted)
    requires Ranked(SiteSignatures(SitesOf(sorted)), ranks)
    requires forall d :: d in found <==> DependsOn(sorted, d)
    requires forall d :: DependsOn(sorted, d) <==> DependsOn(descriptors, d)
    ensures outcome.Ok? ==> PlannedBy(descriptors, outcome.value)
    ensures outcome.Err? ==>
              outcome.error.DependencyCycle? &&
              exists dependencies :: (forall d :: d in dependencies <==> DependsOn(descriptors, d)) &&
                                     IsClosedWalk(EdgesOf(dependencies), outcome.error.walk)
  {
    var sites := SitesOf(sorted);
    var sitesById := IndexSites(sites);
    CanonicalIsCanonical(descriptors, sitesById);
    TrueDependenciesAreKnown(sorted, ranks, sitesById, found);
    var dependencies := ListDependencies(found, SiteSignatures(sites), ranks);
    assert Within(EdgesOf(dependencies), sitesById.Keys);
    var staged := CreateStages(sites, dependencies, sitesById);
    if staged.Err? {
      return Err(DependencyCycle(staged.error));
    }
    NoSelfDependency(dependencies);
    PlanIsCanonical(descriptors, ranks, dependencies);
    assert Names(sites) == Ids(SiteSignatures(sites));
    return Ok(Plan(dependencies, staged.value));
  }

  lemma {:induction false} NoSelfDependency(dependencies: seq<Dependency>)
    requires !HasCycle(EdgesOf(dependencies))
    ensures forall d :: d in dependencies ==> d.producer != d.consumer
  {
    forall d | d in dependencies
      ensures d.producer != d.consumer
    {
      var walk := [d.producer, d.consumer];
      assert (d.producer, d.consumer) in EdgesOf(dependencies);
      assert Linked(EdgesOf(dependencies), walk, 0);
      assert IsWalk(EdgesOf(dependencies), walk);
      assert !IsClosedWalk(EdgesOf(dependencies), walk);
    }
  }

  lemma {:induction false} PlanIsCanonical(descriptors: seq<Descriptor>, ranks: Ranks, dependencies: seq<Dependency>)
    requires Ranked(PlanSignatures(descriptors), ranks)
    requires forall d :: d in dependencies ==> KnownEnds(ranks, d) && d.producer != d.consumer
    requires forall i, j ::
             0 <= i < j < |dependencies| ==> CompareDependencies(ranks, dependencies[i], dependencies[j]) < 0
    ensures forall other :: Ranked(PlanSignatures(descriptors), other) ==> CanonicalDependencies(other, dependencies)
  {
    forall other | Ranked(PlanSignatures(descriptors), other)
      ensures CanonicalDependencies(other, dependencies)
    {
      RanksAreUnique(PlanSignatures(descriptors), other, ranks);
    }
  }

  // ----- what follows about the plan

  /** The plan does not depend on the order in which the sites were discovered. */
  lemma {:induction false} PlanIgnoresDiscoveryOrder(a: seq<Descriptor>, b: seq<Descriptor>, planA: Plan, planB: Plan,
      ranks: Ranks)
    requires multiset(a) == multiset(b) && DescriptorsValid(a)
    requires PlannedBy(a, planA) && PlannedBy(b, planB)
    requires Ranked(PlanSignatures(a), ranks)
    ensures planA == planB
  {
    SameMembersDependAlike(a, b);
    DescriptorOrderSorts();
    ValidDescriptorsAreSeparated(a);
    SortIgnoresOrder(DescriptorBefore, a, b);
    CanonicalListIsUnique(PlanSignatures(a), ranks, planA.dependencies, planB.dependencies);
    ValidPlanIsUnique(Ids(PlanSignatures(a)), EdgesOf(planA.dependencies), planA.stages, planB.stages);
  }

  lemma {:induction false} ValidDescriptorsAreSeparated(descriptors: seq<Descriptor>)
    requires DescriptorsValid(descriptors)
    ensures Separates(DescriptorBefore, multiset(descriptors))
  {
    forall x, y | x in multiset(descriptors) && y in multiset(descriptors) && !DescriptorBefore(x, y)
      && !DescriptorBefore(y, x)
      ensures x == y
    {
      SiteOrderIsTotal(SiteOf(x), SiteOf(y), SiteOf(x));
      var i :| 0 <= i < |descriptors| && descriptors[i] == x;
      var j :| 0 <= j < |descriptors| && descriptors[j] == y;
    }
  }

  /**
   * Whatever the planner returns, the bundle check accepts for records of the same functions,
   * and the runtime's check accepts unless there are none; each function then runs exactly once,
   * on the stage numbered by its longest dependency chain.
   */
  lemma {:induction false} PlannedBundleIsAccepted(descriptors: seq<Descriptor>, plan: Plan,
      functions: seq<FunctionRecord>)
    requires PlannedBy(descriptors, plan)
    requires FunctionsValid(functions) && Signatures(functions) == PlanSignatures(descriptors)
    ensures BundleValid(functions, plan.dependencies, plan.stages)
    ensures RuntimeAccepts(plan.stages, plan.dependencies) <==> functions != []
    ensures NoRepeats(AllIds(plan.stages))
    ensures forall id :: id in AllIds(plan.stages) <==> id in Ids(Signatures(functions))
    ensures forall id, k :: id in Ids(Signatures(functions)) && 0 <= k < |plan.stages| ==>
              (Places(plan.stages, id, k) <==> LongestChain(EdgesOf(plan.dependencies), id, k))
  {
    var order := Ids(Signatures(functions));
    forall i, j | 0 <= i < j < |order|
      ensures order[i] != order[j]
    {
      assert functions[i].id != functions[j].id;
    }
    BundlePlanIsRunnable(order, plan.dependencies, plan.stages);
    ValidPlanStagesAreLongestChains(order, EdgesOf(plan.dependencies), plan.stages);
    assert |order| == |functions|;
  }
}
