/**
 * Depth-first search for a dependency cycle with an explicit stack of frames.
 */
module CycleSearch {
  import opened ByteOrder
  import opened DependencyGraph
  import opened Outcomes
  import opened Sorting

  /** The lookup table holds exactly the listed sites, each under its own identifier. */
  ghost predicate SiteTable(sites: seq<Site>, sitesById: map<Id, Site>) {
    && (forall i :: 0 <= i < |sites| ==> sites[i].functionId in sitesById && sitesById[sites[i].functionId] == sites[i])
    && (forall id :: id in sitesById ==> sitesById[id] in sites && sitesById[id].functionId == id)
  }

  /** The adjacency map spells out the edges. */
  ghost predicate Adjacency(edges: Edges, outgoing: map<Id, set<Id>>) {
    forall producer, consumer ::
      (producer, consumer) in edges <==> producer in outgoing && consumer in outgoing[producer]
  }

  /** The sites of `ids`, each once, in site order. */
  ghost predicate ListsInOrder(list: seq<Site>, ids: set<Id>) {
    && NoRepeats(list)
    && Ordered(Before, list)
    && (forall i, j :: 0 <= i < j < |list| ==> list[i].functionId != list[j].functionId)
    && (forall i :: 0 <= i < |list| ==> list[i].functionId in ids)
    && (forall id :: id in ids ==> Lists(list, id))
  }

  ghost predicate Lists(list: seq<Site>, id: Id) {
    exists i :: 0 <= i < |list| && list[i].functionId == id
  }

  lemma {:induction false} SiteOrderSorts()
    ensures StrictWeakOrder(Before)
  {
    forall a, b {:trigger Before(a, b), Before(b, a)}
      ensures !(Before(a, b) && Before(b, a))
    {
      SiteOrderIsTotal(a, b, a);
    }
    forall a, b, c {:trigger Before(b, a), Before(c, b)} | !Before(b, a) && !Before(c, b)
      ensures !Before(c, a)
    {
      SiteOrderIsTotal(a, b, c);
    }
  }

  method SortedConsumers(ids: set<Id>, sites: seq<Site>, sitesById: map<Id, Site>) returns (consumers: seq<Site>)
    requires SiteTable(sites, sitesById) && ids <= sitesById.Keys
    ensures ListsInOrder(consumers, ids)
    ensures forall i :: 0 <= i < |consumers| ==> consumers[i] in sites
  {
    var rest := ids;
    var found: seq<Site> := [];
    while rest != {}
      invariant rest <= ids
      invariant forall id :: id in ids - rest <==> Lists(found, id)
      invariant forall i :: 0 <= i < |found| ==> found[i] in sites
      invariant forall i, j :: 0 <= i < j < |found| ==> found[i].functionId != found[j].functionId
      decreases rest
    {
      var id :| id in rest;
      ghost var before := found;
      found := found + [sitesById[id]];
      assert found[|before|].functionId == id;
      forall other
        ensures Lists(found, other) <==> Lists(before, other) || other == id
      {
        if Lists(before, other) {
          var i :| 0 <= i < |before| && before[i].functionId == other;
          assert found[i].functionId == other;
        }
      }
      forall i | 0 <= i < |before|
        ensures before[i].functionId != id
      {
        assert Lists(before, before[i].functionId);
      }
      rest := rest - {id};
    }
    consumers := Sort(Before, found);
    SortedListing(found, consumers, ids, sites, sitesById);
  }

  lemma {:induction false} SortedListing(found: seq<Site>, sorted: seq<Site>, ids: set<Id>, sites: seq<Site>,
      sitesById: map<Id, Site>)
    requires SiteTable(sites, sitesById)
    requires forall i, j :: 0 <= i < j < |found| ==> found[i].functionId != found[j].functionId
    requires forall i :: 0 <= i < |found| ==> found[i] in sites
    requires forall id :: id in ids <==> Lists(found, id)
    requires sorted == Sort(Before, found)
    ensures ListsInOrder(sorted, ids)
    ensures forall i :: 0 <= i < |sorted| ==> sorted[i] in sites
  {
    SiteOrderSorts();
    SortOrders(Before, found);
    SortKeepsNoRepeats(Before, found);
    forall i | 0 <= i < |sorted|
      ensures sorted[i] in found && sorted[i] in sites && Lists(found, sorted[i].functionId)
    {
      assert sorted[i] in sorted;
      var k :| 0 <= k < |found| && found[k] == sorted[i];
    }
    forall id | id in ids
      ensures Lists(sorted, id)
    {
      assert Lists(found, id);
      var k :| 0 <= k < |found| && found[k].functionId == id;
      assert found[k] in sorted;
      var i :| 0 <= i < |sorted| && sorted[i] == found[k];
    }
    forall i, j | 0 <= i < j < |sorted|
      ensures sorted[i].functionId != sorted[j].functionId
    {
      if sorted[i].functionId == sorted[j].functionId {
        SameSite(sites, sitesById, sorted[i], sorted[j]);
      }
    }
  }

  lemma {:induction false} SameSite(sites: seq<Site>, sitesById: map<Id, Site>, a: Site, b: Site)
    requires SiteTable(sites, sitesById) && a in sites && b in sites && a.functionId == b.functionId
    ensures a == b
  {
    var i :| 0 <= i < |sites| && sites[i] == a;
    var j :| 0 <= j < |sites| && sites[j] == b;
  }

  datatype Mark = Active | Complete

  datatype Frame = Frame(site: Site, consumers: seq<Site>, next: nat)

  ghost predicate ConsumerTable(edges: Edges, consumersById: map<Id, seq<Site>>) {
    && Within(edges, consumersById.Keys)
    && (forall producer, consumer :: producer in consumersById ==>
          ((producer, consumer) in edges <==> Lists(consumersById[producer], consumer)))
  }

  /**
   * Frame `i` explores the consumers of `stack[i]`: all before `next` are finished, except
   * that the last one taken is the function the following frame explores.
   */
  ghost predicate FrameFits(consumersById: map<Id, seq<Site>>, stack: seq<Id>, frames: seq<Frame>, finished: seq<Id>,
      i: nat)
  {
    && i < |frames| == |stack|
    && stack[i] == frames[i].site.functionId
    && stack[i] in consumersById
    && frames[i].consumers == consumersById[stack[i]]
    && frames[i].next <= |frames[i].consumers|
    && (i + 1 < |frames| ==> frames[i].next > 0 && frames[i].consumers[frames[i].next - 1].functionId == stack[i + 1])
    && TakenAreFinished(frames[i], finished, if i + 1 < |frames| then 1 else 0)
  }

  ghost predicate TakenAreFinished(frame: Frame, finished: seq<Id>, except: nat)
  {
    forall k :: 0 <= k < frame.next - except && k < |frame.consumers| ==> frame.consumers[k].functionId in finished
  }

  /** Active while on the stack, complete once finished, unmarked before. */
  ghost predicate MarkedRight(state: map<Id, Mark>, stack: seq<Id>, finished: seq<Id>, id: Id) {
    && (id in state <==> id in stack || id in finished)
    && (id in stack ==> id in state && state[id] == Active)
    && (id in finished ==> id in state && state[id] == Complete)
  }

  ghost predicate Marks(state: map<Id, Mark>, stack: seq<Id>, finished: seq<Id>) {
    forall id :: MarkedRight(state, stack, finished, id)
  }

  ghost predicate Searching(edges: Edges, consumersById: map<Id, seq<Site>>, state: map<Id, Mark>,
                            stack: seq<Id>, frames: seq<Frame>, finished: seq<Id>)
  {
    && |frames| == |stack|
    && (forall i: nat :: i < |frames| ==> FrameFits(consumersById, stack, frames, finished, i))
    && Marks(state, stack, finished)
    && Distinct(stack) && Distinct(finished)
    && ConsumersFirst(edges, finished)
    && state.Keys <= consumersById.Keys
  }

  lemma {:induction false} FinishTop(edges: Edges, consumersById: map<Id, seq<Site>>, state: map<Id, Mark>,
                  stack: seq<Id>, frames: seq<Frame>, finished: seq<Id>)
    requires ConsumerTable(edges, consumersById)
    requires Searching(edges, consumersById, state, stack, frames, finished)
    requires frames != [] && frames[|frames| - 1].next == |frames[|frames| - 1].consumers|
    ensures var id := stack[|stack| - 1];
            Searching(edges, consumersById, state[id := Complete], stack[..|stack| - 1], frames[..|frames| - 1],
              finished + [id])
  {
    var top := |frames| - 1;
    var id := stack[top];
    var finished' := finished + [id];
    var stack', frames' := stack[..top], frames[..top];
    assert FrameFits(consumersById, stack, frames, finished, top);
    forall i: nat | i < |frames'|
      ensures FrameFits(consumersById, stack', frames', finished', i)
    {
      assert FrameFits(consumersById, stack, frames, finished, i);
      forall k | 0 <= k < frames'[i].next - (if i + 1 < |frames'| then 1 else 0)
        ensures frames'[i].consumers[k].functionId in finished'
      {
        if k < frames[i].next - 1 {
          assert frames[i].consumers[k].functionId in finished;
        } else {
          assert frames[i].consumers[k].functionId == id == finished'[|finished|];
        }
      }
    }
    FinishedGrows(edges, consumersById, finished, id);
    FinishMarks(state, stack, finished);
  }

  lemma {:induction false} FinishMarks(state: map<Id, Mark>, stack: seq<Id>, finished: seq<Id>)
    requires Marks(state, stack, finished) && Distinct(stack) && Distinct(finished) && stack != []
    ensures var id := stack[|stack| - 1];
            Marks(state[id := Complete], stack[..|stack| - 1], finished + [id]) &&
            Distinct(stack[..|stack| - 1]) && Distinct(finished + [id])
  {
    var id := stack[|stack| - 1];
    assert MarkedRight(state, stack, finished, id);
    assert stack == stack[..|stack| - 1] + [id];
    var state', stack', finished' := state[id := Complete], stack[..|stack| - 1], finished + [id];
    forall other
      ensures MarkedRight(state', stack', finished', other)
    {
      assert MarkedRight(state, stack, finished, other);
    }
  }

  lemma {:induction false} FinishedGrows(edges: Edges, consumersById: map<Id, seq<Site>>, finished: seq<Id>, id: Id)
    requires ConsumerTable(edges, consumersById) && id in consumersById && ConsumersFirst(edges, finished)
    requires forall k :: 0 <= k < |consumersById[id]| ==> consumersById[id][k].functionId in finished
    ensures ConsumersFirst(edges, finished + [id])
  {
    var finished' := finished + [id];
    forall i: nat | i < |finished'|
      ensures AfterConsumers(edges, finished', i)
    {
      if i < |finished| {
        assert AfterConsumers(edges, finished, i);
        assert finished'[..i] == finished[..i];
      } else {
        assert finished'[..i] == finished;
        forall consumer | (id, consumer) in edges
          ensures consumer in finished
        {
          assert Lists(consumersById[id], consumer);
        }
      }
    }
  }

  lemma {:induction false} SkipFinished(edges: Edges, consumersById: map<Id, seq<Site>>, state: map<Id, Mark>,
                     stack: seq<Id>, frames: seq<Frame>, finished: seq<Id>, advanced: Frame)
    requires Searching(edges, consumersById, state, stack, frames, finished)
    requires frames != []
    requires var top := frames[|frames| - 1];
             top.next < |top.consumers| && top.consumers[top.next].functionId in finished &&
             advanced == top.(next := top.next + 1)
    ensures Searching(edges, consumersById, state, stack, frames[|frames| - 1 := advanced], finished)
  {
    var frames' := frames[|frames| - 1 := advanced];
    forall i: nat | i < |frames'|
      ensures FrameFits(consumersById, stack, frames', finished, i)
    {
      assert FrameFits(consumersById, stack, frames, finished, i);
    }
  }

  lemma {:induction false} EnterConsumer(edges: Edges, consumersById: map<Id, seq<Site>>, state: map<Id, Mark>,
                      stack: seq<Id>, frames: seq<Frame>, finished: seq<Id>, advanced: Frame, consumer: Site)
    requires ConsumerTable(edges, consumersById)
    requires Searching(edges, consumersById, state, stack, frames, finished)
    requires consumer.functionId !in state && consumer.functionId in consumersById
    requires frames != [] ==>
               var top := frames[|frames| - 1];
               top.next < |top.consumers| && top.consumers[top.next] == consumer
                 && advanced == top.(next := top.next + 1)
    ensures var frames' := if frames == [] then [] else frames[|frames| - 1 := advanced];
            Searching(edges, consumersById, state[consumer.functionId := Active], stack + [consumer.functionId],
                      frames' + [Frame(consumer, consumersById[consumer.functionId], 0)], finished)
  {
    var id := consumer.functionId;
    var stack' := stack + [id];
    var frames' := (if frames == [] then [] else frames[|frames| - 1 := advanced])
      + [Frame(consumer, consumersById[id], 0)];
    forall i: nat | i < |frames'|
      ensures FrameFits(consumersById, stack', frames', finished, i)
    {
      if i < |frames| {
        assert FrameFits(consumersById, stack, frames, finished, i);
      }
    }
    assert MarkedRight(state, stack, finished, id);
    var state' := state[id := Active];
    forall other
      ensures MarkedRight(state', stack', finished, other)
    {
      assert MarkedRight(state, stack, finished, other);
    }
  }

  /** Meeting an active function closes a walk along the stack. */
  lemma {:induction false} ActiveClosesWalk(edges: Edges, consumersById: map<Id, seq<Site>>, state: map<Id, Mark>,
                         stack: seq<Id>, frames: seq<Frame>, finished: seq<Id>, start: nat)
    requires ConsumerTable(edges, consumersById)
    requires Searching(edges, consumersById, state, stack, frames, finished)
    requires frames != [] && start < |stack|
    requires var top := frames[|frames| - 1];
             top.next < |top.consumers| && top.consumers[top.next].functionId == stack[start]
    ensures IsClosedWalk(edges, stack[start..] + [stack[start]])
  {
    var walk := stack[start..] + [stack[start]];
    forall i | 0 <= i < |walk| - 1
      ensures Linked(edges, walk, i)
    {
      var at := start + i;
      assert FrameFits(consumersById, stack, frames, finished, at);
      var taken := if at + 1 < |frames| then frames[at].next - 1 else frames[at].next;
      assert frames[at].consumers[taken].functionId == walk[i + 1];
      assert Lists(consumersById[stack[at]], walk[i + 1]);
    }
  }

  /** Consumers not yet taken, over all frames. */
  ghost function Untaken(frames: seq<Frame>): nat {
    if frames == [] then 0
    else Untaken(frames[..|frames| - 1]) + Left(frames[|frames| - 1])
  }

  ghost function Left(frame: Frame): nat {
    if frame.next <= |frame.consumers| then |frame.consumers| - frame.next else 0
  }

  function IndexOf(stack: seq<Id>, id: Id): (at: nat)
    requires id in stack
    ensures at < |stack| && stack[at] == id
    ensures forall earlier :: 0 <= earlier < at ==> stack[earlier] != id
  {
    if stack[0] == id then 0 else 1 + IndexOf(stack[1..], id)
  }

  /** What the search reports: the closed walk it met, or the placeholder used when there is none. */
  datatype CycleReport = Cycle(walk: seq<Id>) | Unknown

  /**
   * One turn of the search loop: finish the top frame, skip a finished consumer, enter a new
   * one, or meet an active one, which closes a cycle.
   */
  method Advance(consumersById: map<Id, seq<Site>>, before: map<Id, Mark>, beforeStack: seq<Id>,
      beforeFrames: seq<Frame>, ghost edges: Edges, ghost beforeFinished: seq<Id>)
    returns (state: map<Id, Mark>, stack: seq<Id>, frames: seq<Frame>, report: CycleReport, ghost finished: seq<Id>)
    requires ConsumerTable(edges, consumersById) && beforeFrames != []
    requires Searching(edges, consumersById, before, beforeStack, beforeFrames, beforeFinished)
    ensures report.Cycle? ==> IsClosedWalk(edges, report.walk)
    ensures report.Unknown? ==> Searching(edges, consumersById, state, stack, frames, finished)
    ensures report.Unknown? ==> beforeFinished <= finished && before.Keys <= state.Keys
    ensures report.Unknown? ==>
              || before.Keys < state.Keys
              || Untaken(frames) < Untaken(beforeFrames)
              || (Untaken(frames) == Untaken(beforeFrames) && |frames| < |beforeFrames|)
  {
    state, stack, frames, finished, report := before, beforeStack, beforeFrames, beforeFinished, Unknown;
    var frame := frames[|frames| - 1];
    assert FrameFits(consumersById, stack, frames, finished, |frames| - 1);
    if frame.next >= |frame.consumers| {
      assert MarkedRight(state, stack, finished, frame.site.functionId);
      FinishTop(edges, consumersById, state, stack, frames, finished);
      finished := finished + [stack[|stack| - 1]];
      frames := frames[..|frames| - 1];
      stack := stack[..|stack| - 1];
      state := state[frame.site.functionId := Complete];
      return;
    }
    var consumer := frame.consumers[frame.next];
    var advanced := frame.(next := frame.next + 1);
    TakeOne(frames, advanced);
    ConsumerIsKnown(edges, consumersById, stack, frames, finished);
    assert MarkedRight(state, stack, finished, consumer.functionId);
    if consumer.functionId in state && state[consumer.functionId] == Active {
      var start := IndexOf(stack, consumer.functionId);
      ActiveClosesWalk(edges, consumersById, state, stack, frames, finished, start);
      report := Cycle(stack[start..] + [consumer.functionId]);
    } else if consumer.functionId in state {
      SkipFinished(edges, consumersById, state, stack, frames, finished, advanced);
      frames := frames[|frames| - 1 := advanced];
    } else {
      EnterConsumer(edges, consumersById, state, stack, frames, finished, advanced, consumer);
      state := state[consumer.functionId := Active];
      stack := stack + [consumer.functionId];
      frames := frames[|frames| - 1 := advanced] + [Frame(consumer, consumersById[consumer.functionId], 0)];
    }
  }

  /** Explores everything reachable from `root` that is not finished yet, unless a cycle shows up. */
  method ExploreFrom(root: Site, consumersById: map<Id, seq<Site>>, marked: map<Id, Mark>,
                     ghost edges: Edges, ghost before: seq<Id>)
    returns (state: map<Id, Mark>, report: CycleReport, ghost finished: seq<Id>)
    requires ConsumerTable(edges, consumersById) && root.functionId in consumersById
    requires Searching(edges, consumersById, marked, [], [], before) && root.functionId !in marked
    ensures report.Cycle? ==> IsClosedWalk(edges, report.walk)
    ensures report.Unknown? ==> Searching(edges, consumersById, state, [], [], finished)
    ensures report.Unknown? ==> before <= finished && root.functionId in finished
  {
    finished := before;
    StartSearch(edges, consumersById, marked, before, root);
    var frames: seq<Frame> := [Frame(root, consumersById[root.functionId], 0)];
    state := marked[root.functionId := Active];
    var stack := [root.functionId];
    while frames != []
      invariant Searching(edges, consumersById, state, stack, frames, finished)
      invariant before <= finished
      invariant root.functionId in state
      decreases Unmarked(consumersById, state), Untaken(frames), |frames|
    {
      ghost var known := state;
      state, stack, frames, report, finished := Advance(consumersById, state, stack, frames, edges, finished);
      if report.Cycle? {
        return;
      }
      UnmarkedShrinks(consumersById, known, state);
    }
    assert MarkedRight(state, [], finished, root.functionId);
    report := Unknown;
  }

  lemma {:induction false} StartSearch(edges: Edges, consumersById: map<Id, seq<Site>>, state: map<Id, Mark>,
      finished: seq<Id>, root: Site)
    requires ConsumerTable(edges, consumersById) && root.functionId in consumersById
    requires Searching(edges, consumersById, state, [], [], finished) && root.functionId !in state
    ensures Searching(edges, consumersById, state[root.functionId := Active], [root.functionId],
                      [Frame(root, consumersById[root.functionId], 0)], finished)
  {
    EnterConsumer(edges, consumersById, state, [], [], finished, Frame(root, [], 0), root);
    assert [] + [root.functionId] == [root.functionId];
    var frames := [Frame(root, consumersById[root.functionId], 0)];
    assert [] + frames == frames;
  }

  ghost function Unmarked(consumersById: map<Id, seq<Site>>, state: map<Id, Mark>): nat {
    |consumersById.Keys - state.Keys|
  }

  lemma {:induction false} UnmarkedShrinks(consumersById: map<Id, seq<Site>>, before: map<Id, Mark>,
      after: map<Id, Mark>)
    requires before.Keys <= after.Keys <= consumersById.Keys
    ensures before.Keys == after.Keys ==> Unmarked(consumersById, after) == Unmarked(consumersById, before)
    ensures before.Keys != after.Keys ==> Unmarked(consumersById, after) < Unmarked(consumersById, before)
  {
    if before.Keys != after.Keys {
      SubsetIsSmaller(consumersById.Keys - after.Keys, consumersById.Keys - before.Keys);
      var id :| id in after.Keys && id !in before.Keys;
      assert id in consumersById.Keys - before.Keys;
    }
  }

  /** Every walk reported is a real cycle, and the placeholder means that there is no cycle at all. */
  method FindDependencyCycle(sites: seq<Site>, outgoing: map<Id, set<Id>>, sitesById: map<Id, Site>, ghost edges: Edges)
    returns (report: CycleReport, ghost finished: seq<Id>)
    requires SiteTable(sites, sitesById) && Adjacency(edges, outgoing) && outgoing.Keys == sitesById.Keys
    requires Within(edges, sitesById.Keys)
    ensures report.Cycle? ==> IsClosedWalk(edges, report.walk)
    ensures report.Unknown? ==> !HasCycle(edges)
    ensures report.Unknown? ==> Distinct(finished) && ConsumersFirst(edges, finished)
    ensures report.Unknown? ==> forall id :: id in sitesById ==> id in finished
  {
    var consumersById := ConsumersOfAll(sites, outgoing, sitesById, edges);
    var state: map<Id, Mark> := map[];
    finished := [];
    for r := 0 to |sites|
      invariant Searching(edges, consumersById, state, [], [], finished)
      invariant forall i :: 0 <= i < r ==> sites[i].functionId in finished
    {
      var root := sites[r];
      assert MarkedRight(state, [], finished, root.functionId);
      if root.functionId in state {
        continue;
      }
      ghost var before := finished;
      state, report, finished := ExploreFrom(root, consumersById, state, edges, finished);
      if report.Cycle? {
        return;
      }
      PrefixKeeps(before, finished);
    }
    forall id | id in sitesById
      ensures id in finished
    {
      var k :| 0 <= k < |sites| && sites[k] == sitesById[id];
    }
    FinishedGraphHasNoCycle(sitesById.Keys, edges, finished);
    report := Unknown;
  }

  lemma {:induction false} PrefixKeeps(before: seq<Id>, after: seq<Id>)
    requires before <= after
    ensures forall id :: id in before ==> id in after
  {
    forall id | id in before
      ensures id in after
    {
      var k :| 0 <= k < |before| && before[k] == id;
      assert after[k] == id;
    }
  }

  lemma {:induction false} TakeOne(frames: seq<Frame>, advanced: Frame)
    requires frames != [] && frames[|frames| - 1].next < |frames[|frames| - 1].consumers|
    requires advanced == frames[|frames| - 1].(next := frames[|frames| - 1].next + 1)
    ensures Untaken(frames[|frames| - 1 := advanced]) < Untaken(frames)
  {
    assert frames[|frames| - 1 := advanced][..|frames| - 1] == frames[..|frames| - 1];
  }

  lemma {:induction false} ConsumerIsKnown(edges: Edges, consumersById: map<Id, seq<Site>>, stack: seq<Id>,
      frames: seq<Frame>, finished: seq<Id>)
    requires ConsumerTable(edges, consumersById) && frames != []
    requires FrameFits(consumersById, stack, frames, finished, |frames| - 1)
    requires frames[|frames| - 1].next < |frames[|frames| - 1].consumers|
    ensures frames[|frames| - 1].consumers[frames[|frames| - 1].next].functionId in consumersById
  {
    var top := frames[|frames| - 1];
    var id := top.consumers[top.next].functionId;
    assert Lists(consumersById[stack[|stack| - 1]], id);
    assert (stack[|stack| - 1], id) in edges;
  }

  method ConsumersOfAll(sites: seq<Site>, outgoing: map<Id, set<Id>>, sitesById: map<Id, Site>, ghost edges: Edges)
    returns (consumersById: map<Id, seq<Site>>)
    requires SiteTable(sites, sitesById) && Adjacency(edges, outgoing) && outgoing.Keys == sitesById.Keys
    requires Within(edges, sitesById.Keys)
    ensures ConsumerTable(edges, consumersById) && consumersById.Keys == sitesById.Keys
  {
    consumersById := map[];
    for i := 0 to |sites|
      invariant consumersById.Keys <= sitesById.Keys
      invariant forall k :: 0 <= k < i ==> sites[k].functionId in consumersById
      invariant forall id :: id in consumersById ==> ListsInOrder(consumersById[id], outgoing[id])
    {
      var id := sites[i].functionId;
      forall consumer | consumer in outgoing[id]
        ensures consumer in sitesById
      {
        assert (id, consumer) in edges;
      }
      var consumers := SortedConsumers(outgoing[id], sites, sitesById);
      consumersById := consumersById[id := consumers];
    }
    forall id | id in sitesById
      ensures id in consumersById
    {
      var k :| 0 <= k < |sites| && sites[k] == sitesById[id];
    }
  }
}
