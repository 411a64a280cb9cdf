/**
 * The releases under an artifact root: their listing order, the release before the current one,
 * and which releases a prune may remove. A digest stands for the number its hexadecimal spells.
 */
module Releases {
  import opened Outcomes
  import Sorting

  type Digest = nat

  /** A release directory; one that cannot be read or does not match its name is not valid. */
  datatype Entry = Entry(digest: Digest, createdAt: int, valid: bool)

  /** Valid entries first; among those the newer first, then the greater digest; invalid ones by digest. */
  predicate ListedBefore(a: Entry, b: Entry) {
    if a.valid != b.valid then a.valid
    else if !a.valid then a.digest < b.digest
    else if a.createdAt != b.createdAt then a.createdAt > b.createdAt
    else a.digest > b.digest
  }

  /** Created later, or at the same time with the greater digest. */
  ghost predicate Newer(a: Entry, b: Entry) {
    a.createdAt > b.createdAt || (a.createdAt == b.createdAt && a.digest > b.digest)
  }

  /** Every valid entry comes before every invalid one, the valid ones newest first, the invalid ones by digest. */
  ghost predicate NewestFirst(entries: seq<Entry>) {
    forall i, j :: 0 <= i < j < |entries| ==>
      && (entries[j].valid ==> entries[i].valid && Newer(entries[i], entries[j]))
      && (!entries[i].valid ==> entries[i].digest < entries[j].digest)
  }

  lemma {:induction false} ListedMeansNewestFirst(entries: seq<Entry>)
    requires DistinctDigests(entries)
    ensures Sorting.Ordered(ListedBefore, entries) <==> NewestFirst(entries)
  {
    forall i: nat, j: nat | i < j < |entries|
      ensures Sorting.InOrder(ListedBefore, entries, i, j) <==>
              (entries[j].valid ==> entries[i].valid && Newer(entries[i], entries[j]))
              && (!entries[i].valid ==> entries[i].digest < entries[j].digest)
    {
      assert entries[i].digest != entries[j].digest;
    }
  }

  ghost predicate DistinctDigests(entries: seq<Entry>) {
    forall i, j :: 0 <= i < j < |entries| ==> entries[i].digest != entries[j].digest
  }

  function ScanReleases(found: seq<Entry>): seq<Entry> {
    Sorting.Sort(ListedBefore, found)
  }

  /** The listing holds what was found, in an order that no two different directories share a place in. */
  lemma {:induction false} ListingIsDetermined(found: seq<Entry>, again: seq<Entry>)
    requires multiset(found) == multiset(again) && DistinctDigests(found)
    ensures ScanReleases(found) == ScanReleases(again) && multiset(ScanReleases(found)) == multiset(found)
    ensures NewestFirst(ScanReleases(found)) && DistinctDigests(ScanReleases(found))
  {
    assert Sorting.StrictWeakOrder(ListedBefore);
    forall x, y | x in multiset(found) && y in multiset(found) && !ListedBefore(x, y) && !ListedBefore(y, x)
      ensures x == y
    {
      assert x in found && y in found;
    }
    Sorting.SortIgnoresOrder(ListedBefore, found, again);
    Sorting.SortKeepsElements(ListedBefore, found);
    Sorting.SortOrders(ListedBefore, found);
    DistinctDigestsSurvive(found, ScanReleases(found));
    ListedMeansNewestFirst(ScanReleases(found));
  }

  lemma {:induction false} DistinctDigestsSurvive(a: seq<Entry>, b: seq<Entry>)
    requires multiset(a) == multiset(b) && DistinctDigests(a)
    ensures DistinctDigests(b)
  {
    assert Sorting.NoRepeats(a);
    Sorting.NoRepeatsCount(a);
    Sorting.NoRepeatsCount(b);
    forall i, j | 0 <= i < j < |b|
      ensures b[i].digest != b[j].digest
    {
      assert b[i] in multiset(a) && b[j] in multiset(a);
      assert b[i] != b[j];
    }
  }

  function FirstValid(entries: seq<Entry>): Option<Entry> {
    if entries == [] then None else if entries[0].valid then Some(entries[0]) else FirstValid(entries[1..])
  }

  /** The first valid entry listed after the current one, which must itself be listed and valid. */
  function PreviousRelease(entries: seq<Entry>, current: Digest): Option<Entry> {
    if entries == [] then None
    else if entries[0].digest == current then (if entries[0].valid then FirstValid(entries[1..]) else None)
    else PreviousRelease(entries[1..], current)
  }

  lemma {:induction false} FirstValidIs(entries: seq<Entry>)
    ensures FirstValid(entries).None? ==> forall i :: 0 <= i < |entries| ==> !entries[i].valid
    ensures FirstValid(entries).Some? ==>
              exists k :: 0 <= k < |entries| && FirstValid(entries) == Some(entries[k]) && entries[k].valid
                && forall i :: 0 <= i < k ==> !entries[i].valid
  {
    if entries != [] && !entries[0].valid {
      FirstValidIs(entries[1..]);
      assert entries == [entries[0]] + entries[1..];
      if k :|
        && 0 <= k < |entries| - 1 && FirstValid(entries[1..]) == Some(entries[1..][k]) && entries[1..][k].valid
        && forall i :: 0 <= i < k ==> !entries[1..][i].valid
      {
        assert FirstValid(entries) == Some(entries[k + 1]);
      }
    }
  }

  ghost predicate Older(entry: Entry, current: Entry) {
    entry.valid && current.valid && Newer(current, entry)
  }

  lemma {:induction false} PreviousIsAt(entries: seq<Entry>, c: nat)
    requires c < |entries| && DistinctDigests(entries)
    ensures PreviousRelease(entries, entries[c].digest) == if entries[c].valid then FirstValid(entries[c + 1..])
            else None
  {
    if c > 0 {
      assert entries[0].digest != entries[c].digest;
      assert entries[1..][c - 1] == entries[c] && entries[1..][c..] == entries[c + 1..];
      PreviousIsAt(entries[1..], c - 1);
    }
  }

  /** In a listing the previous release is the newest valid release that is older than the current one. */
  lemma {:induction false} PreviousIsNewestOlder(entries: seq<Entry>, c: nat)
    requires NewestFirst(entries) && DistinctDigests(entries) && c < |entries|
    ensures var previous := PreviousRelease(entries, entries[c].digest);
            && (previous.None? ==> forall e :: e in entries ==> !Older(e, entries[c]))
            && (previous.Some? ==>
                 && previous.value in entries && Older(previous.value, entries[c])
                 && forall e :: e in entries && Older(e, entries[c]) ==>
                    e == previous.value || Newer(previous.value, e))
  {
    var rest := entries[c + 1..];
    PreviousIsAt(entries, c);
    FirstValidIs(rest);
    forall e | e in entries && Older(e, entries[c])
      ensures e in rest
    {
      var i :| 0 <= i < |entries| && entries[i] == e;
      assert i < c ==> Newer(entries[i], entries[c]);
      assert rest[i - c - 1] == e;
    }
    if entries[c].valid && FirstValid(rest).Some? {
      var k :| 0 <= k < |rest| && FirstValid(rest) == Some(rest[k]) && rest[k].valid
        && forall i :: 0 <= i < k ==> !rest[i].valid;
      assert rest[k] == entries[c + 1 + k] && Newer(entries[c], entries[c + 1 + k]);
      forall e | e in rest && e.valid
        ensures e == rest[k] || Newer(rest[k], e)
      {
        var i :| 0 <= i < |rest| && rest[i] == e;
        assert k < i ==> Newer(entries[c + 1 + k], entries[c + 1 + i]);
      }
    }
  }

  // ----- what a prune may remove

  function ValidOnly(entries: seq<Entry>): seq<Entry> {
    if entries == [] then [] else (if entries[0].valid then [entries[0]] else []) + ValidOnly(entries[1..])
  }

  predicate Prunable(entry: Entry, position: nat, current: Digest, keep: Option<nat>, cutoff: Option<int>) {
    && entry.digest != current
    && (keep.Some? ==> position >= keep.value)
    && (cutoff.Some? ==> entry.createdAt < cutoff.value)
  }

  function SelectFrom(valid: seq<Entry>, position: nat, current: Digest, keep: Option<nat>,
      cutoff: Option<int>): seq<Digest>
    requires position <= |valid|
    decreases |valid| - position
  {
    if position == |valid| then []
    else (if Prunable(valid[position], position, current, keep, cutoff) then [valid[position].digest] else [])
         + SelectFrom(valid, position + 1, current, keep, cutoff)
  }

  /** The digests a prune considers; it refuses when the current release is not listed as valid. */
  function Candidates(entries: seq<Entry>, current: Digest, keep: Option<nat>, cutoff: Option<int>): Option<seq<Digest>>
  {
    var valid := ValidOnly(entries);
    if exists i :: 0 <= i < |valid| && valid[i].digest == current
      then Some(SelectFrom(valid, 0, current, keep, cutoff)) else None
  }

  lemma {:induction false} ValidOnlyHolds(entries: seq<Entry>)
    ensures forall e :: e in ValidOnly(entries) <==> e in entries && e.valid
    ensures DistinctDigests(entries) ==> DistinctDigests(ValidOnly(entries))
  {
    if entries != [] {
      assert entries == [entries[0]] + entries[1..];
      ValidOnlyHolds(entries[1..]);
      if DistinctDigests(entries) {
        var rest := ValidOnly(entries[1..]);
        forall i | 0 <= i < |rest|
          ensures rest[i].digest != entries[0].digest
        {
          assert rest[i] in entries[1..];
        }
      }
    }
  }

  ghost predicate Distinct(digests: seq<Digest>) {
    forall i, j :: 0 <= i < j < |digests| ==> digests[i] != digests[j]
  }

  /** The digest belongs to a prunable entry at or after the position. */
  ghost predicate Selected(valid: seq<Entry>, position: nat, current: Digest, keep: Option<nat>, cutoff: Option<int>,
      d: Digest)
  {
    exists i: nat :: position <= i < |valid| && valid[i].digest == d && Prunable(valid[i], i, current, keep, cutoff)
  }

  lemma {:induction false} SelectionIs(valid: seq<Entry>, position: nat, current: Digest, keep: Option<nat>,
      cutoff: Option<int>)
    requires position <= |valid| && DistinctDigests(valid)
    ensures forall d ::
            d in SelectFrom(valid, position, current, keep, cutoff) <==>
            Selected(valid, position, current, keep, cutoff, d)
    ensures Distinct(SelectFrom(valid, position, current, keep, cutoff))
    decreases |valid| - position
  {
    if position < |valid| {
      var rest := SelectFrom(valid, position + 1, current, keep, cutoff);
      SelectionIs(valid, position + 1, current, keep, cutoff);
      forall k | 0 <= k < |rest|
        ensures rest[k] != valid[position].digest
      {
        assert Selected(valid, position + 1, current, keep, cutoff, rest[k]);
      }
      forall d
        ensures Selected(valid, position, current, keep, cutoff, d) <==>
                (d == valid[position].digest && Prunable(valid[position], position, current, keep, cutoff))
                || Selected(valid, position + 1, current, keep, cutoff, d)
      {
      }
    }
  }

  lemma {:induction false} CandidatesAreSelected(entries: seq<Entry>, current: Digest, keep: Option<nat>,
      cutoff: Option<int>)
    requires DistinctDigests(entries)
    ensures var candidates := Candidates(entries, current, keep, cutoff);
            && (candidates.Some? <==> exists e :: e in entries && e.valid && e.digest == current)
            && (candidates.Some? ==>
                 && Distinct(candidates.value) && current !in candidates.value
                 && forall d :: d in candidates.value <==> Selected(ValidOnly(entries), 0, current, keep, cutoff, d))
  {
    ValidOnlyHolds(entries);
    var valid := ValidOnly(entries);
    SelectionIs(valid, 0, current, keep, cutoff);
    if e :| e in entries && e.valid && e.digest == current {
      assert e in valid;
    }
    if i :| 0 <= i < |valid| && valid[i].digest == current {
      assert valid[i] in valid;
    }
  }

  /** The positions before `i` that hold valid entries. */
  ghost function ValidBefore(entries: seq<Entry>, i: nat): set<nat>
    requires i <= |entries|
  {
    set j: nat | j < i && entries[j].valid
  }

  lemma {:induction false} ValidOnlyOneMore(entries: seq<Entry>, i: nat)
    requires i < |entries|
    ensures ValidOnly(entries[..i + 1]) == ValidOnly(entries[..i]) + (if entries[i].valid then [entries[i]] else [])
    decreases i
  {
    var longer := entries[..i + 1];
    assert entries[..i + 1][1..] == entries[1..][..i];
    if i > 0 {
      assert entries[..i][1..] == entries[1..][..i - 1];
      ValidOnlyOneMore(entries[1..], i - 1);
    }
  }

  /** A valid entry stands among the valid ones at the number of valid entries listed before it. */
  lemma {:induction false} PlaceAmongValid(entries: seq<Entry>, i: nat)
    requires i <= |entries|
    ensures |ValidOnly(entries[..i])| == |ValidBefore(entries, i)| && ValidOnly(entries[..i]) <= ValidOnly(entries)
    ensures i < |entries| && entries[i].valid ==>
              |ValidBefore(entries, i)| < |ValidOnly(entries)|
                && ValidOnly(entries)[|ValidBefore(entries, i)|] == entries[i]
  {
    CountValid(entries, i);
    ValidPrefix(entries, i);
    if i < |entries| {
      ValidOnlyOneMore(entries, i);
      ValidPrefix(entries, i + 1);
    }
  }

  lemma {:induction false} CountValid(entries: seq<Entry>, i: nat)
    requires i <= |entries|
    ensures |ValidOnly(entries[..i])| == |ValidBefore(entries, i)|
  {
    if i > 0 {
      CountValid(entries, i - 1);
      ValidOnlyOneMore(entries, i - 1);
      assert ValidBefore(entries, i) == ValidBefore(entries, i - 1) + (if entries[i - 1].valid then {i - 1} else {});
    } else {
      assert ValidBefore(entries, 0) == {};
    }
  }

  lemma {:induction false} ValidPrefix(entries: seq<Entry>, i: nat)
    requires i <= |entries|
    ensures ValidOnly(entries[..i]) <= ValidOnly(entries)
    decreases |entries| - i
  {
    if i < |entries| {
      ValidPrefix(entries, i + 1);
      ValidOnlyOneMore(entries, i);
    } else {
      assert entries[..i] == entries;
    }
  }

  /** What prune removes, told from the listing: valid, not current, not among the newest to keep, and old enough. */
  ghost predicate MayGo(entries: seq<Entry>, i: nat, current: Digest, keep: Option<nat>, cutoff: Option<int>) {
    && i < |entries| && entries[i].valid && entries[i].digest != current
    && (keep.Some? ==> |ValidBefore(entries, i)| >= keep.value)
    && (cutoff.Some? ==> entries[i].createdAt < cutoff.value)
  }

  /**
   * Prune refuses exactly when the current release is not listed as valid; otherwise its candidates are,
   * each once, exactly the listed releases that may go.
   */
  lemma {:induction false} CandidatesAreExact(entries: seq<Entry>, current: Digest, keep: Option<nat>,
      cutoff: Option<int>)
    requires DistinctDigests(entries)
    ensures var candidates := Candidates(entries, current, keep, cutoff);
            && (candidates.Some? <==> exists e :: e in entries && e.valid && e.digest == current)
            && (candidates.Some? ==>
                 && Distinct(candidates.value)
                 && forall d :: d in candidates.value <==>
                      exists i: nat :: MayGo(entries, i, current, keep, cutoff) && entries[i].digest == d)
  {
    CandidatesAreSelected(entries, current, keep, cutoff);
    var valid := ValidOnly(entries);
    forall d
      ensures Selected(valid, 0, current, keep, cutoff, d) <==>
              exists i: nat :: MayGo(entries, i, current, keep, cutoff) && entries[i].digest == d
    {
      SelectedMayGo(entries, current, keep, cutoff, d);
    }
  }

  lemma {:induction false} SelectedMayGo(entries: seq<Entry>, current: Digest, keep: Option<nat>, cutoff: Option<int>,
      d: Digest)
    requires DistinctDigests(entries)
    ensures Selected(ValidOnly(entries), 0, current, keep, cutoff, d) <==>
            exists i: nat :: MayGo(entries, i, current, keep, cutoff) && entries[i].digest == d
  {
    var valid := ValidOnly(entries);
    ValidOnlyHolds(entries);
    if Selected(valid, 0, current, keep, cutoff, d) {
      var k: nat :| k < |valid| && valid[k].digest == d && Prunable(valid[k], k, current, keep, cutoff);
      assert valid[k] in valid;
      var i: nat :| i < |entries| && entries[i] == valid[k];
      PlaceAmongValid(entries, i);
      assert valid[|ValidBefore(entries, i)|] == valid[k];
      assert |ValidBefore(entries, i)| == k;
      assert MayGo(entries, i, current, keep, cutoff);
    }
    if i: nat :| MayGo(entries, i, current, keep, cutoff) && entries[i].digest == d {
      PlaceAmongValid(entries, i);
      assert Prunable(valid[|ValidBefore(entries, i)|], |ValidBefore(entries, i)|, current, keep, cutoff);
    }
  }

  /** So every candidate is a valid release of the listing. */
  lemma {:induction false} CandidatesAreListed(entries: seq<Entry>, current: Digest, keep: Option<nat>,
      cutoff: Option<int>, d: Digest)
    requires DistinctDigests(entries) && Candidates(entries, current, keep, cutoff).Some?
    requires d in Candidates(entries, current, keep, cutoff).value
    ensures d != current && exists e :: e in entries && e.valid && e.digest == d
  {
    CandidatesAreExact(entries, current, keep, cutoff);
    var i: nat :| MayGo(entries, i, current, keep, cutoff) && entries[i].digest == d;
    assert entries[i] in entries;
  }
}
