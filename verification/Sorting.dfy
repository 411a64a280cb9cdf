/**
 * Stable sorting by a comparator, as the language's own array sort does it, with
 * the facts its callers rely on: a permutation, in order, and the only one of its
 * kind when the comparator separates the elements.
 */
module Sorting {

  ghost predicate StrictWeakOrder<T(!new)>(less: (T, T) -> bool) {
    && (forall a, b {:trigger less(a, b), less(b, a)} :: !(less(a, b) && less(b, a)))
    && (forall a, b, c {:trigger less(b, a), less(c, b)} :: !less(b, a) && !less(c, b) ==> !less(c, a))
  }

  predicate InOrder<T>(less: (T, T) -> bool, s: seq<T>, i: nat, j: nat) {
    i < j < |s| && !less(s[j], s[i])
  }

  ghost predicate Ordered<T>(less: (T, T) -> bool, s: seq<T>) {
    forall i: nat, j: nat :: i < j < |s| ==> InOrder(less, s, i, j)
  }

  function Insert<T>(less: (T, T) -> bool, x: T, s: seq<T>): seq<T> {
    if s == [] then [x]
    else if !less(s[0], x) then [x] + s
    else [s[0]] + Insert(less, x, s[1..])
  }

  function Sort<T>(less: (T, T) -> bool, s: seq<T>): seq<T> {
    if s == [] then [] else Insert(less, s[0], Sort(less, s[1..]))
  }

  lemma {:induction false} InsertKeepsElements<T>(less: (T, T) -> bool, x: T, s: seq<T>)
    ensures multiset(Insert(less, x, s)) == multiset{x} + multiset(s)
  {
    if s != [] {
      assert s == [s[0]] + s[1..];
      InsertKeepsElements(less, x, s[1..]);
    }
  }

  lemma {:induction false} SortKeepsElements<T>(less: (T, T) -> bool, s: seq<T>)
    ensures multiset(Sort(less, s)) == multiset(s)
    ensures |Sort(less, s)| == |s|
  {
    if s != [] {
      assert s == [s[0]] + s[1..];
      SortKeepsElements(less, s[1..]);
      InsertKeepsElements(less, s[0], Sort(less, s[1..]));
    }
    assert |multiset(Sort(less, s))| == |multiset(s)|;
  }

  lemma {:induction false} OrderedTail<T>(less: (T, T) -> bool, s: seq<T>)
    requires s != [] && Ordered(less, s)
    ensures Ordered(less, s[1..])
    ensures forall x :: x in multiset(s[1..]) ==> !less(x, s[0])
  {
    var t := s[1..];
    forall i: nat, j: nat | i < j < |t|
      ensures InOrder(less, t, i, j)
    {
      assert InOrder(less, s, i + 1, j + 1);
    }
    forall x | x in multiset(t)
      ensures !less(x, s[0])
    {
      var i :| 0 <= i < |t| && t[i] == x;
      assert InOrder(less, s, 0, i + 1);
    }
  }

  lemma {:induction false} OrderedCons<T>(less: (T, T) -> bool, x: T, t: seq<T>)
    requires Ordered(less, t)
    requires forall y :: y in multiset(t) ==> !less(y, x)
    ensures Ordered(less, [x] + t)
  {
    var s := [x] + t;
    forall i: nat, j: nat | i < j < |s|
      ensures InOrder(less, s, i, j)
    {
      assert s[j] == t[j - 1] && t[j - 1] in multiset(t);
      if i > 0 {
        assert InOrder(less, t, i - 1, j - 1);
      }
    }
  }

  lemma {:induction false} InsertKeepsOrder<T(!new)>(less: (T, T) -> bool, x: T, s: seq<T>)
    requires StrictWeakOrder(less) && Ordered(less, s)
    ensures Ordered(less, Insert(less, x, s))
  {
    if s != [] {
      OrderedTail(less, s);
      if !less(s[0], x) {
        forall y | y in multiset(s)
          ensures !less(y, x)
        {
          assert s == [s[0]] + s[1..];
          assert y == s[0] || (y in multiset(s[1..]) && !less(y, s[0]));
        }
        OrderedCons(less, x, s);
      } else {
        InsertKeepsOrder(less, x, s[1..]);
        InsertKeepsElements(less, x, s[1..]);
        OrderedCons(less, s[0], Insert(less, x, s[1..]));
      }
    }
  }

  lemma {:induction false} SortOrders<T(!new)>(less: (T, T) -> bool, s: seq<T>)
    requires StrictWeakOrder(less)
    ensures Ordered(less, Sort(less, s))
  {
    if s != [] {
      SortOrders(less, s[1..]);
      InsertKeepsOrder(less, s[0], Sort(less, s[1..]));
    }
  }

  /** The comparator orders any two different elements one way or the other. */
  ghost predicate Separates<T>(less: (T, T) -> bool, elements: multiset<T>) {
    forall x, y :: x in elements && y in elements && !less(x, y) && !less(y, x) ==> x == y
  }

  lemma {:induction false} OrderedIsUnique<T>(less: (T, T) -> bool, a: seq<T>, b: seq<T>)
    requires Ordered(less, a) && Ordered(less, b) && multiset(a) == multiset(b)
    requires Separates(less, multiset(a))
    ensures a == b
  {
    assert |multiset(a)| == |a| && |multiset(b)| == |b|;
    if a != [] {
      HeadsAgree(less, a, b);
      assert a == [a[0]] + a[1..] && b == [b[0]] + b[1..];
      assert multiset(a[1..]) == multiset(a) - multiset{a[0]};
      assert multiset(b[1..]) == multiset(b) - multiset{b[0]};
      OrderedIsUnique(less, a[1..], b[1..]);
    }
  }

  lemma {:induction false} HeadsAgree<T>(less: (T, T) -> bool, a: seq<T>, b: seq<T>)
    requires a != [] && b != [] && Ordered(less, a) && Ordered(less, b) && multiset(a) == multiset(b)
    requires Separates(less, multiset(a))
    ensures a[0] == b[0]
    ensures Ordered(less, a[1..]) && Ordered(less, b[1..])
  {
    OrderedTail(less, a);
    OrderedTail(less, b);
    assert a == [a[0]] + a[1..] && b == [b[0]] + b[1..];
    assert b[0] in multiset(a) && a[0] in multiset(b);
  }

  /** Sorting forgets the order of the input whenever the comparator separates its elements. */
  lemma {:induction false} SortIgnoresOrder<T(!new)>(less: (T, T) -> bool, a: seq<T>, b: seq<T>)
    requires StrictWeakOrder(less) && multiset(a) == multiset(b) && Separates(less, multiset(a))
    ensures Sort(less, a) == Sort(less, b)
  {
    SortKeepsElements(less, a);
    SortKeepsElements(less, b);
    SortOrders(less, a);
    SortOrders(less, b);
    OrderedIsUnique(less, Sort(less, a), Sort(less, b));
  }

  ghost predicate NoRepeats<T>(s: seq<T>) {
    forall i, j :: 0 <= i < j < |s| ==> s[i] != s[j]
  }

  lemma {:induction false} NoRepeatsCount<T>(s: seq<T>)
    ensures NoRepeats(s) <==> forall x :: x in multiset(s) ==> multiset(s)[x] == 1
  {
    if s != [] {
      var t := s[1..];
      assert s == [s[0]] + t;
      NoRepeatsCount(t);
      assert multiset(s) == multiset{s[0]} + multiset(t);
      if NoRepeats(s) {
        assert s[0] !in t;
      } else if NoRepeats(t) {
        RepeatIsOfTheHead(s);
        assert multiset(s)[s[0]] > 1;
      } else {
        var x :| x in multiset(t) && multiset(t)[x] != 1;
        assert multiset(s)[x] > 1;
      }
    }
  }

  lemma {:induction false} RepeatIsOfTheHead<T>(s: seq<T>)
    requires s != [] && NoRepeats(s[1..]) && !NoRepeats(s)
    ensures s[0] in s[1..]
  {
    var t := s[1..];
    if s[0] !in t {
      forall i, j | 0 <= i < j < |s|
        ensures s[i] != s[j]
      {
        assert s[j] == t[j - 1] && (i > 0 ==> s[i] == t[i - 1]);
      }
    }
  }

  lemma {:induction false} SortKeepsNoRepeats<T>(less: (T, T) -> bool, s: seq<T>)
    requires NoRepeats(s)
    ensures NoRepeats(Sort(less, s))
    ensures forall x :: x in s <==> x in Sort(less, s)
  {
    SortKeepsElements(less, s);
    NoRepeatsCount(s);
    NoRepeatsCount(Sort(less, s));
    forall x
      ensures x in s <==> x in Sort(less, s)
    {
      assert x in s <==> x in multiset(s);
    }
  }
}
