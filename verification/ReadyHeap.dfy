/**
 * The binary heap of ready sites: an array sifted in place, least site at the root.
 */
module ReadyHeap {
  import opened ByteOrder
  import opened Outcomes

  /** Entry `i` does not come before entry `j`. */
  ghost predicate NotBefore(heap: seq<Site>, i: int, j: int) {
    0 <= i < |heap| && 0 <= j < |heap| && !Before(heap[i], heap[j])
  }

  ghost predicate FitsParent(heap: seq<Site>, i: int) {
    0 < i && NotBefore(heap, i, (i - 1) / 2)
  }

  ghost predicate FitsGrandparent(heap: seq<Site>, i: int) {
    2 < i && NotBefore(heap, i, ((i - 1) / 2 - 1) / 2)
  }

  /** No parent comes after its child. */
  ghost predicate HeapOrdered(heap: seq<Site>) {
    forall i :: 0 < i < |heap| ==> FitsParent(heap, i)
  }

  /**
   * Heap order everywhere except around `hole`: the entry at `hole` may be misplaced
   * against its parent (`up`) or its children (`!up`), but every child of `hole` is
   * already in order with the parent of `hole`.
   */
  ghost predicate OrderedAround(heap: seq<Site>, hole: nat, up: bool)
  {
    && hole < |heap|
    && (forall i :: 0 < i < |heap| && (if up then i != hole else (i - 1) / 2 != hole) ==> FitsParent(heap, i))
    && (hole > 0 ==> forall i :: 0 < i < |heap| && (i - 1) / 2 == hole ==> FitsGrandparent(heap, i))
  }

  lemma {:induction false} RootIsLeast(heap: seq<Site>, i: nat)
    requires HeapOrdered(heap) && i < |heap|
    ensures !Before(heap[i], heap[0])
  {
    if i == 0 {
      SiteOrderIsTotal(heap[0], heap[0], heap[0]);
    } else {
      RootIsLeast(heap, (i - 1) / 2);
      assert FitsParent(heap, i);
      SiteOrderIsTotal(heap[0], heap[(i - 1) / 2], heap[i]);
    }
  }

  lemma {:induction false} MoveParentDown(heap: seq<Site>, hole: nat, site: Site)
    requires 0 < hole < |heap| && OrderedAround(heap[hole := site], hole, true)
    requires Before(site, heap[(hole - 1) / 2])
    ensures OrderedAround(heap[hole := heap[(hole - 1) / 2]][(hole - 1) / 2 := site], (hole - 1) / 2, true)
  {
    var parent := (hole - 1) / 2;
    var was := heap[hole := site];
    var next := heap[hole := heap[parent]][parent := site];
    forall i | 0 < i < |next| && i != parent
      ensures FitsParent(next, i)
    {
      if i == hole {
        SiteOrderIsTotal(site, heap[parent], site);
      } else if (i - 1) / 2 == hole {
        assert FitsGrandparent(was, i);
      } else {
        assert FitsParent(was, i);
        SiteOrderIsTotal(site, heap[parent], heap[i]);
      }
    }
    if parent > 0 {
      var grandparent := (parent - 1) / 2;
      forall i | 0 < i < |next| && (i - 1) / 2 == parent
        ensures FitsGrandparent(next, i)
      {
        assert FitsParent(was, parent);
        if i != hole {
          assert FitsParent(was, i);
          SiteOrderIsTotal(heap[grandparent], heap[parent], heap[i]);
        }
      }
    }
  }

  lemma {:induction false} MoveChildUp(heap: seq<Site>, hole: nat, child: nat, last: Site)
    requires 0 < child < |heap| && (child - 1) / 2 == hole
    requires OrderedAround(heap[hole := last], hole, false)
    requires forall i :: 0 < i < |heap| && (i - 1) / 2 == hole ==> NotBefore(heap, i, child)
    requires Before(heap[child], last)
    ensures OrderedAround(heap[hole := heap[child]][child := last], child, false)
  {
    var was := heap[hole := last];
    var next := heap[hole := heap[child]][child := last];
    forall i | 0 < i < |next| && (i - 1) / 2 != child
      ensures FitsParent(next, i)
    {
      if i == child {
        SiteOrderIsTotal(heap[child], last, last);
      } else if i == hole {
        assert FitsGrandparent(was, child);
      } else if (i - 1) / 2 == hole {
        assert NotBefore(heap, i, child);
      } else {
        assert FitsParent(was, i);
      }
    }
    forall i | 0 < i < |next| && (i - 1) / 2 == child
      ensures FitsGrandparent(next, i)
    {
      assert FitsParent(was, i);
    }
  }

  lemma {:induction false} LastFitsHere(heap: seq<Site>, hole: nat, child: nat, last: Site)
    requires 0 < child < |heap| && (child - 1) / 2 == hole
    requires OrderedAround(heap[hole := last], hole, false)
    requires forall i :: 0 < i < |heap| && (i - 1) / 2 == hole ==> NotBefore(heap, i, child)
    requires !Before(heap[child], last)
    ensures HeapOrdered(heap[hole := last])
  {
    var next := heap[hole := last];
    forall i | 0 < i < |next|
      ensures FitsParent(next, i)
    {
      if (i - 1) / 2 == hole {
        assert NotBefore(heap, i, child);
        SiteOrderIsTotal(last, heap[child], heap[i]);
      } else {
        assert FitsParent(heap[hole := last], i);
      }
    }
  }

  /** Overwriting `hole` with entry `from` and moving the hole there carries `site` along. */
  lemma {:induction false} HoleMoves(heap: seq<Site>, hole: nat, from: nat, site: Site)
    requires hole < |heap| && from < |heap| && hole != from
    ensures multiset(heap[hole := heap[from]][from := site]) == multiset(heap[hole := site])
  {
    var filled := heap[hole := heap[from]];
    assert multiset(filled[from := site]) == multiset(filled) - multiset{heap[from]} + multiset{site};
  }

  class ReadySites {
    var heap: seq<Site>

    ghost predicate Valid()
      reads this
    {
      HeapOrdered(heap)
    }

    constructor ()
      ensures Valid() && heap == []
    {
      heap := [];
    }

    /** Appends the site and sifts it towards the root. */
    method Push(site: Site)
      requires Valid()
      modifies this
      ensures Valid()
      ensures multiset(heap) == multiset(old(heap)) + multiset{site}
    {
      ghost var all := multiset(heap) + multiset{site};
      AppendKeepsOrder(heap, site);
      heap := heap + [site];
      var index := |heap| - 1;
      assert heap[index := site] == heap;
      while index > 0
        invariant 0 <= index < |heap|
        invariant OrderedAround(heap[index := site], index, true)
        invariant multiset(heap[index := site]) == all
      {
        var parent := (index - 1) / 2;
        var parentSite := heap[parent];
        var order := CompareSites(parentSite, site);
        PairFacts(parentSite, site);
        if order <= 0 {
          break;
        }
        MoveParentDown(heap, index, site);
        HoleMoves(heap, index, parent, site);
        heap := heap[index := parentSite];
        index := parent;
      }
      SettleUp(heap, index, site);
      heap := heap[index := site];
    }

    /** Removes the root, moves the last entry into the hole and sifts it down; nothing when empty. */
    method Pop() returns (first: Option<Site>)
      requires Valid()
      modifies this
      ensures Valid()
      ensures first.None? <==> old(heap) == []
      ensures first.None? ==> heap == []
      ensures first.Some? ==> multiset(heap) + multiset{first.value} == multiset(old(heap))
      ensures first.Some? ==> forall site :: site in multiset(old(heap)) ==> !Before(site, first.value)
    {
      if heap == [] {
        return None;
      }
      first := Some(heap[0]);
      AllAfterRoot(heap);
      RootReplaced(heap);
      var last := heap[|heap| - 1];
      ghost var rest := multiset(heap) - multiset{heap[0]};
      assert rest + multiset{heap[0]} == multiset(heap);
      heap := heap[..|heap| - 1];
      if |heap| > 0 {
        SiftDown(last);
      }
    }

    /** The child of `hole` that neither child comes before: the right one only when strictly less. */
    method LesserChild(hole: nat) returns (child: nat)
      requires 2 * hole + 1 < |heap|
      ensures child < |heap| && (child == 2 * hole + 1 || child == 2 * hole + 2)
      ensures forall i :: 0 < i < |heap| && (i - 1) / 2 == hole ==> NotBefore(heap, i, child)
    {
      child := 2 * hole + 1;
      var right := child + 1;
      if right < |heap| {
        var sides := CompareSites(heap[right], heap[child]);
        SiteOrderIsTotal(heap[right], heap[child], heap[right]);
        if sides < 0 {
          child := right;
        }
      }
      SiteOrderIsTotal(heap[child], heap[child], heap[child]);
    }

    /** The root is a hole; entries move up into it until `last` fits, children never before their parent. */
    method SiftDown(last: Site)
      requires |heap| > 0 && OrderedAround(heap[0 := last], 0, false)
      modifies this
      ensures Valid()
      ensures multiset(heap) == old(multiset(heap[0 := last]))
    {
      ghost var rest := multiset(heap[0 := last]);
      var index := 0;
      while index < |heap|
        invariant 0 <= index < |heap|
        invariant OrderedAround(heap[index := last], index, false)
        invariant multiset(heap[index := last]) == rest
        decreases |heap| - index
      {
        var left := index * 2 + 1;
        if left >= |heap| {
          NoChildren(heap, index, last);
          break;
        }
        var child := LesserChild(index);
        var childSite := heap[child];
        var order := CompareSites(last, childSite);
        PairFacts(last, childSite);
        if order <= 0 {
          LastFitsHere(heap, index, child, last);
          break;
        }
        MoveChildUp(heap, index, child, last);
        HoleMoves(heap, index, child, last);
        heap := heap[index := childSite];
        index := child;
      }
      heap := heap[index := last];
    }
  }

  lemma {:induction false} AppendKeepsOrder(heap: seq<Site>, site: Site)
    requires HeapOrdered(heap)
    ensures OrderedAround((heap + [site])[|heap| := site], |heap|, true)
  {
    var next := (heap + [site])[|heap| := site];
    forall i | 0 < i < |next| && i != |heap|
      ensures FitsParent(next, i)
    {
      assert FitsParent(heap, i);
    }
  }

  lemma {:induction false} SettleUp(heap: seq<Site>, index: nat, site: Site)
    requires index < |heap| && OrderedAround(heap[index := site], index, true)
    requires index > 0 ==> !Before(site, heap[(index - 1) / 2])
    ensures HeapOrdered(heap[index := site])
  {
    var next := heap[index := site];
    forall i | 0 < i < |next|
      ensures FitsParent(next, i)
    {
    }
  }

  lemma {:induction false} AllAfterRoot(heap: seq<Site>)
    requires HeapOrdered(heap) && heap != []
    ensures forall site :: site in multiset(heap) ==> !Before(site, heap[0])
  {
    forall site | site in multiset(heap)
      ensures !Before(site, heap[0])
    {
      var i :| 0 <= i < |heap| && heap[i] == site;
      RootIsLeast(heap, i);
    }
  }

  lemma {:induction false} RootReplaced(heap: seq<Site>)
    requires HeapOrdered(heap) && heap != []
    ensures |heap| == 1 ==> multiset(heap) == multiset{heap[0]}
    ensures |heap| > 1 ==>
              var rest := heap[..|heap| - 1][0 := heap[|heap| - 1]];
              multiset(rest) == multiset(heap) - multiset{heap[0]} && OrderedAround(rest, 0, false)
  {
    assert heap == heap[..|heap| - 1] + [heap[|heap| - 1]];
    if |heap| > 1 {
      var rest := heap[..|heap| - 1][0 := heap[|heap| - 1]];
      forall i | 0 < i < |rest| && (i - 1) / 2 != 0
        ensures FitsParent(rest, i)
      {
        assert FitsParent(heap, i);
      }
    }
  }

  lemma {:induction false} NoChildren(heap: seq<Site>, hole: nat, last: Site)
    requires hole < |heap| <= 2 * hole + 1
    requires OrderedAround(heap[hole := last], hole, false)
    ensures HeapOrdered(heap[hole := last])
  {
  }
}
