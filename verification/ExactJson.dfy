/**
 * The on-disk serializer: object members in the order of their names' UTF-8 bytes, two-space
 * indentation, one trailing line feed, and negative zero written as such.
 */
module ExactJson {
  import opened ByteOrder
  import opened Json
  import opened JsonText
  import opened JsValues
  import opened Outcomes
  import opened SemanticJson
  import opened Unicode
  import Sorting

  /** What the serializer accepts: finite numbers, and strings and names that pass its surrogate check. */
  predicate Serializable(v: Json) {
    match v
    case JNumber(n) => IsFinite(n)
    case JString(s) => LooselyFormed(s)
    case JArray(items) => forall i :: 0 <= i < |items| ==> Serializable(items[i])
    case JObject(members) =>
      forall i :: 0 <= i < |members| ==> LooselyFormed(members[i].name) && Serializable(members[i].value)
    case _ => true
  }

  /** The value with the members of every object in the order the serializer writes them. */
  function SortAll(v: Json): Json
    decreases v
  {
    match v
    case JArray(items) => JArray(SortItems(items))
    case JObject(members) => JObject(Sorting.Sort(MemberBefore, SortMembers(members)))
    case _ => v
  }

  function SortItems(items: seq<Json>): (r: seq<Json>)
    ensures |r| == |items|
    decreases items
  {
    if items == [] then [] else [SortAll(items[0])] + SortItems(items[1..])
  }

  function SortMembers(members: seq<Member>): (r: seq<Member>)
    ensures |r| == |members|
    decreases members
  {
    if members == [] then [] else [Member(members[0].name, SortAll(members[0].value))] + SortMembers(members[1..])
  }

  /** The text of a value, or an error for a value the serializer refuses. */
  function StringifyExactJson(numerals: Numerals, v: Json): Option<JsString> {
    if Serializable(v) then Some(Serialize(numerals, SortAll(v), Indented, 0) + [10]) else None
  }

  // ----- the written value is the given value in canonical order

  ghost predicate InNameOrder(v: Json) {
    match v
    case JArray(items) => forall i :: 0 <= i < |items| ==> InNameOrder(items[i])
    case JObject(members) =>
      NamesAscend(members) && forall i :: 0 <= i < |members| ==> InNameOrder(members[i].value)
    case _ => true
  }

  lemma {:induction false} SortItemAt(items: seq<Json>, i: nat)
    requires i < |items|
    ensures SortItems(items)[i] == SortAll(items[i])
  {
    if i > 0 { SortItemAt(items[1..], i - 1); }
  }

  lemma {:induction false} SortMemberAt(members: seq<Member>, i: nat)
    requires i < |members|
    ensures SortMembers(members)[i] == Member(members[i].name, SortAll(members[i].value))
  {
    if i > 0 { SortMemberAt(members[1..], i - 1); }
  }

  /** Each written member comes from a member of the source object, and the other way round. */
  lemma {:induction false} WrittenMembers(members: seq<Member>)
    ensures var t := Sorting.Sort(MemberBefore, SortMembers(members));
            && (forall k :: 0 <= k < |t| ==> exists i :: 0 <= i < |members| && t[k] == SortMembers(members)[i])
            && (forall i :: 0 <= i < |members| ==> SortMembers(members)[i] in t)
  {
    var s := SortMembers(members);
    var t := Sorting.Sort(MemberBefore, s);
    Sorting.SortKeepsElements(MemberBefore, s);
    forall k | 0 <= k < |t|
      ensures exists i :: 0 <= i < |members| && t[k] == s[i]
    {
      assert t[k] in multiset(t);
      assert t[k] in s;
    }
    forall i | 0 <= i < |members|
      ensures s[i] in t
    {
      assert s[i] in multiset(s);
    }
  }

  lemma {:induction false} SortAllKeepsValue(v: Json)
    ensures SameJson(v, SortAll(v)) && InNameOrder(SortAll(v))
    decreases v
  {
    match v
    case JArray(items) =>
      forall i | 0 <= i < |items|
        ensures SameJson(items[i], SortItems(items)[i]) && InNameOrder(SortItems(items)[i])
      {
        SortItemAt(items, i);
        SortAllKeepsValue(items[i]);
      }
    case JObject(members) =>
      forall i | 0 <= i < |members|
        ensures SameJson(members[i].value, SortAll(members[i].value)) && InNameOrder(SortAll(members[i].value))
      {
        SortAllKeepsValue(members[i].value);
      }
      SortedObjectKeepsValue(members);
    case _ =>
  }

  lemma {:induction false} SortedObjectKeepsValue(members: seq<Member>)
    requires forall i ::
             0 <= i < |members| ==>
             SameJson(members[i].value, SortAll(members[i].value)) && InNameOrder(SortAll(members[i].value))
    ensures SameJson(JObject(members), SortAll(JObject(members))) && InNameOrder(SortAll(JObject(members)))
  {
    var t := Sorting.Sort(MemberBefore, SortMembers(members));
    SortedNamesAscend(SortMembers(members));
    WrittenMembers(members);
    forall i | 0 <= i < |members|
      ensures HasSame(members[i], t)
    {
      SortMemberAt(members, i);
      var k :| 0 <= k < |t| && t[k] == SortMembers(members)[i];
    }
    forall k | 0 <= k < |t|
      ensures HasName(t[k].name, members) && InNameOrder(t[k].value)
    {
      var i :| 0 <= i < |members| && t[k] == SortMembers(members)[i];
      SortMemberAt(members, i);
    }
  }

  lemma {:induction false} SerializableIsFinite(v: Json)
    requires Serializable(v)
    ensures FiniteNumbers(SortAll(v))
    decreases v
  {
    match v
    case JArray(items) =>
      forall i | 0 <= i < |items|
        ensures FiniteNumbers(SortItems(items)[i])
      {
        SortItemAt(items, i);
        SerializableIsFinite(items[i]);
      }
    case JObject(members) =>
      var t := Sorting.Sort(MemberBefore, SortMembers(members));
      WrittenMembers(members);
      forall k | 0 <= k < |t|
        ensures FiniteNumbers(t[k].value)
      {
        var i :| 0 <= i < |members| && t[k] == SortMembers(members)[i];
        SortMemberAt(members, i);
        SerializableIsFinite(members[i].value);
      }
    case _ =>
  }

  /**
   * Reading the written text gives a value equal to the original up to member order, numbers by
   * their bits (so negative zero survives), with the members of every object in name order.
   */
  lemma {:induction false} WrittenTextReadsBack(numerals: Numerals, v: Json)
    requires Faithful(numerals) && Serializable(v)
    ensures var text := StringifyExactJson(numerals, v).value;
            ReadJson(numerals, text) == Some(SortAll(v)) && SameJson(v, SortAll(v)) && InNameOrder(SortAll(v))
  {
    SerializableIsFinite(v);
    SortAllKeepsValue(v);
    SerializedReadsBack(numerals, SortAll(v), Indented, [10]);
  }

  // ----- different values have different texts

  lemma {:induction false} SameOrderMeansSameValues(v: Json, w: Json)
    requires SortAll(v) == SortAll(w)
    ensures SameJson(v, w)
    decreases v
  {
    match v
    case JArray(items) =>
      assert SortItems(items) == SortItems(w.items);
      forall i | 0 <= i < |items|
        ensures SameJson(items[i], w.items[i])
      {
        SortItemAt(items, i);
        SortItemAt(w.items, i);
        SameOrderMeansSameValues(items[i], w.items[i]);
      }
    case JObject(members) =>
      forall i | 0 <= i < |members|
        ensures HasSame(members[i], w.members)
      {
        var j := SharedMember(members, w.members, i);
        SameOrderMeansSameValues(members[i].value, w.members[j].value);
      }
      forall j | 0 <= j < |w.members|
        ensures HasName(w.members[j].name, members)
      {
        var i := SharedMember(w.members, members, j);
      }
    case _ =>
  }

  lemma {:induction false} SharedMember(a: seq<Member>, b: seq<Member>, i: nat) returns (j: nat)
    requires Sorting.Sort(MemberBefore, SortMembers(a)) == Sorting.Sort(MemberBefore, SortMembers(b)) && i < |a|
    ensures j < |b| && b[j].name == a[i].name && SortAll(b[j].value) == SortAll(a[i].value)
  {
    var x := SortMembers(a)[i];
    SortMemberAt(a, i);
    Sorting.SortKeepsElements(MemberBefore, SortMembers(a));
    Sorting.SortKeepsElements(MemberBefore, SortMembers(b));
    assert x in multiset(SortMembers(a));
    assert x in SortMembers(b);
    j :| 0 <= j < |b| && SortMembers(b)[j] == x;
    SortMemberAt(b, j);
  }

  lemma {:induction false} WrittenTextsAreInjective(numerals: Numerals, v: Json, w: Json)
    requires Faithful(numerals) && Serializable(v) && Serializable(w)
    requires StringifyExactJson(numerals, v) == StringifyExactJson(numerals, w)
    ensures SameJson(v, w)
  {
    SerializableIsFinite(v);
    SerializableIsFinite(w);
    SerializingIsInjective(numerals, SortAll(v), SortAll(w), Indented, [10]);
    SameOrderMeansSameValues(v, w);
  }

  // ----- when the text does not depend on the order of members

  /** No two members of the list have names with the same UTF-8 bytes. */
  ghost predicate DistinctBytes(members: seq<Member>) {
    forall i, j :: 0 <= i < j < |members| ==> Utf8(members[i].name) != Utf8(members[j].name)
  }

  ghost predicate TellsNamesApart(v: Json) {
    match v
    case JArray(items) => forall i :: 0 <= i < |items| ==> TellsNamesApart(items[i])
    case JObject(members) =>
      DistinctBytes(members) && forall i :: 0 <= i < |members| ==> TellsNamesApart(members[i].value)
    case _ => true
  }

  lemma {:induction false} BytesSeparate(members: seq<Member>)
    requires DistinctBytes(members)
    ensures Sorting.Separates(MemberBefore, multiset(members)) && Sorting.NoRepeats(members)
  {
    forall x, y | x in multiset(members) && y in multiset(members) && !MemberBefore(x, y) && !MemberBefore(y, x)
      ensures x == y
    {
      var i :| 0 <= i < |members| && members[i] == x;
      var j :| 0 <= j < |members| && members[j] == y;
      CompareFlips(Utf8(x.name), Utf8(y.name));
      CompareZero(Utf8(x.name), Utf8(y.name));
    }
  }

  lemma {:induction false} SameMembersWriteAlike(a: seq<Member>, b: seq<Member>)
    requires DistinctBytes(a) && DistinctNames(b)
    requires (forall i :: 0 <= i < |a| ==> a[i] in b) && (forall j :: 0 <= j < |b| ==> b[j] in a)
    ensures Sorting.Sort(MemberBefore, a) == Sorting.Sort(MemberBefore, b)
  {
    BytesSeparate(a);
    NameOrderIsWeak();
    Sorting.NoRepeatsCount(a);
    Sorting.NoRepeatsCount(b);
    assert forall x :: x in multiset(a) <==> x in multiset(b);
    assert multiset(a) == multiset(b);
    Sorting.SortIgnoresOrder(MemberBefore, a, b);
  }

  ghost predicate WritesAlike(member: Member, members: seq<Member>) {
    exists j :: 0 <= j < |members| && members[j].name == member.name
      && SortAll(members[j].value) == SortAll(member.value)
  }

  lemma {:induction false} SameValuesWriteAlike(v: Json, w: Json)
    requires TellsNamesApart(v) && UniqueNames(w) && SameJson(v, w)
    ensures SortAll(v) == SortAll(w)
    decreases v
  {
    match v
    case JArray(items) =>
      forall i | 0 <= i < |items|
        ensures SortItems(items)[i] == SortItems(w.items)[i]
      {
        SortItemAt(items, i);
        SortItemAt(w.items, i);
        SameValuesWriteAlike(items[i], w.items[i]);
      }
      assert SortItems(items) == SortItems(w.items);
    case JObject(members) =>
      forall i | 0 <= i < |members|
        ensures WritesAlike(members[i], w.members)
      {
        assert HasSame(members[i], w.members);
        var j :| 0 <= j < |w.members| && w.members[j].name == members[i].name
          && SameJson(members[i].value, w.members[j].value);
        SameValuesWriteAlike(members[i].value, w.members[j].value);
      }
      MatchedMembersWriteAlike(members, w.members);
    case _ =>
  }

  lemma {:induction false} MatchedMembersWriteAlike(a: seq<Member>, b: seq<Member>)
    requires DistinctBytes(a) && DistinctNames(b)
    requires forall i :: 0 <= i < |a| ==> WritesAlike(a[i], b)
    requires forall j :: 0 <= j < |b| ==> HasName(b[j].name, a)
    ensures Sorting.Sort(MemberBefore, SortMembers(a)) == Sorting.Sort(MemberBefore, SortMembers(b))
  {
    var s, t := SortMembers(a), SortMembers(b);
    SortedNames(a);
    SortedNames(b);
    forall i | 0 <= i < |s|
      ensures s[i] in t
    {
      var j :| 0 <= j < |b| && b[j].name == a[i].name && SortAll(b[j].value) == SortAll(a[i].value);
      SortMemberAt(a, i);
      SortMemberAt(b, j);
    }
    forall j | 0 <= j < |t|
      ensures t[j] in s
    {
      assert HasName(b[j].name, a);
      var i :| 0 <= i < |a| && a[i].name == b[j].name;
      OnlyWriting(a, b, i, j);
    }
    SameMembersWriteAlike(s, t);
  }

  lemma {:induction false} OnlyWriting(a: seq<Member>, b: seq<Member>, i: nat, j: nat)
    requires i < |a| && j < |b| && a[i].name == b[j].name && WritesAlike(a[i], b) && DistinctNames(b)
    ensures SortMembers(b)[j] == SortMembers(a)[i]
  {
    var k :| 0 <= k < |b| && b[k].name == a[i].name && SortAll(b[k].value) == SortAll(a[i].value);
    assert k == j;
    SortMemberAt(a, i);
    SortMemberAt(b, j);
  }

  lemma {:induction false} SortedNames(members: seq<Member>)
    ensures DistinctNames(members) ==> DistinctNames(SortMembers(members))
    ensures DistinctBytes(members) ==> DistinctBytes(SortMembers(members))
  {
    forall i | 0 <= i < |members|
      ensures SortMembers(members)[i].name == members[i].name
    {
      SortMemberAt(members, i);
    }
  }

  /** The members of the list whose names have the given bytes, in order. */
  function Alike(key: Bytes, members: seq<Member>): seq<Member> {
    if members == [] then []
    else (if Utf8(members[0].name) == key then [members[0]] else []) + Alike(key, members[1..])
  }

  lemma {:induction false} InsertKeepsTies(key: Bytes, x: Member, s: seq<Member>)
    ensures Alike(key, Sorting.Insert(MemberBefore, x, s)) == Alike(key, [x] + s)
  {
    if s != [] && MemberBefore(s[0], x) {
      var rest := Sorting.Insert(MemberBefore, x, s[1..]);
      InsertKeepsTies(key, x, s[1..]);
      CompareZero(Utf8(s[0].name), Utf8(x.name));
      AlikeOfCons(key, s[0], rest);
      AlikeOfCons(key, x, s);
      AlikeOfCons(key, x, s[1..]);
    }
  }

  lemma {:induction false} AlikeOfCons(key: Bytes, x: Member, s: seq<Member>)
    ensures Alike(key, [x] + s) == (if Utf8(x.name) == key then [x] else []) + Alike(key, s)
  {
    assert ([x] + s)[1..] == s;
  }

  /** The sort is stable: members with the same name bytes keep their order. */
  lemma {:induction false} SortKeepsTies(key: Bytes, s: seq<Member>)
    ensures Alike(key, Sorting.Sort(MemberBefore, s)) == Alike(key, s)
  {
    if s != [] {
      var rest := Sorting.Sort(MemberBefore, s[1..]);
      SortKeepsTies(key, s[1..]);
      InsertKeepsTies(key, s[0], rest);
      assert ([s[0]] + rest)[1..] == rest;
    }
  }

  lemma {:induction false} FirstAlike(key: Bytes, s: seq<Member>, i: nat) returns (k: nat)
    requires i < |s| && Utf8(s[i].name) == key
    ensures k <= i && Alike(key, s) != [] && Alike(key, s)[0] == s[k]
  {
    if Utf8(s[0].name) == key {
      k := 0;
    } else {
      k := FirstAlike(key, s[1..], i - 1);
      k := k + 1;
    }
  }

  lemma {:induction false} SameAsItself(v: Json)
    ensures SameJson(v, v)
    decreases v
  {
    if v.JArray? {
      forall i | 0 <= i < |v.items|
        ensures SameJson(v.items[i], v.items[i])
      {
        SameAsItself(v.items[i]);
      }
    } else if v.JObject? {
      forall i | 0 <= i < |v.members|
        ensures SameJson(v.members[i].value, v.members[i].value)
      {
        SameAsItself(v.members[i].value);
      }
      SameMembers(v.members);
    }
  }

  lemma {:induction false} SameMembers(members: seq<Member>)
    requires forall i :: 0 <= i < |members| ==> SameJson(members[i].value, members[i].value)
    ensures SameJson(JObject(members), JObject(members))
  {
    forall i | 0 <= i < |members|
      ensures HasSame(members[i], members) && HasName(members[i].name, members)
    {
    }
  }

  /** The list with the member at j moved to the front. */
  function Fronted(members: seq<Member>, j: nat): (r: seq<Member>)
    requires j < |members|
    ensures |r| == |members|
  {
    [members[j]] + members[..j] + members[j + 1..]
  }

  lemma {:induction false} FrontedElements(members: seq<Member>, j: nat)
    requires j < |members|
    ensures forall k :: 0 <= k < |members| ==> Fronted(members, j)[k] == members[FrontedIndex(j, k)]
  {
  }

  function FrontedIndex(j: nat, k: nat): nat {
    if k == 0 then j else if k <= j then k - 1 else k
  }

  lemma {:induction false} FrontedIsSame(members: seq<Member>, j: nat)
    requires j < |members|
    requires Serializable(JObject(members)) && UniqueNames(JObject(members))
    ensures var w := JObject(Fronted(members, j)); Serializable(w) && UniqueNames(w) && SameJson(JObject(members), w)
  {
    var b := Fronted(members, j);
    FrontedElements(members, j);
    forall k, l | 0 <= k < l < |b|
      ensures b[k].name != b[l].name
    {
      var m, n := FrontedIndex(j, k), FrontedIndex(j, l);
      assert m < n || n < m;
    }
    forall i | 0 <= i < |members|
      ensures HasSame(members[i], b)
    {
      SameAsItself(members[i].value);
      assert b[if i == j then 0 else if i < j then i + 1 else i] == members[i];
    }
    forall k | 0 <= k < |b|
      ensures HasName(b[k].name, members)
    {
      assert members[FrontedIndex(j, k)].name == b[k].name;
    }
  }

  /** Of two members whose names share their bytes, the one that comes first is written first. */
  lemma {:induction false} ClashShowsOrder(members: seq<Member>, i: nat, j: nat)
    requires i < j < |members| && DistinctNames(members) && Utf8(members[i].name) == Utf8(members[j].name)
    ensures SortAll(JObject(Fronted(members, j))) != SortAll(JObject(members))
  {
    var b := Fronted(members, j);
    var key := Utf8(members[j].name);
    SortMemberAt(members, i);
    SortMemberAt(b, 0);
    var k := FirstAlike(key, SortMembers(members), i);
    var l := FirstAlike(key, SortMembers(b), 0);
    SortMemberAt(members, k);
    SortKeepsTies(key, SortMembers(members));
    SortKeepsTies(key, SortMembers(b));
    assert members[k].name != members[j].name;
  }

  /** A value with two such members has an equal value that is written differently. */
  lemma {:induction false} ClashHasAnotherText(v: Json) returns (w: Json)
    requires Serializable(v) && UniqueNames(v) && !TellsNamesApart(v)
    ensures Serializable(w) && UniqueNames(w) && SameJson(v, w) && SortAll(w) != SortAll(v)
    decreases v
  {
    if v.JArray? {
      var i :| 0 <= i < |v.items| && !TellsNamesApart(v.items[i]);
      var x := ClashHasAnotherText(v.items[i]);
      w := ReplaceItem(v.items, i, x);
    } else if DistinctBytes(v.members) {
      var i :| 0 <= i < |v.members| && !TellsNamesApart(v.members[i].value);
      var x := ClashHasAnotherText(v.members[i].value);
      w := ReplaceMember(v.members, i, x);
    } else {
      var i, j :| 0 <= i < j < |v.members| && Utf8(v.members[i].name) == Utf8(v.members[j].name);
      FrontedIsSame(v.members, j);
      ClashShowsOrder(v.members, i, j);
      w := JObject(Fronted(v.members, j));
    }
  }

  lemma {:induction false} ReplaceItem(items: seq<Json>, i: nat, x: Json) returns (w: Json)
    requires i < |items| && Serializable(JArray(items)) && UniqueNames(JArray(items))
    requires Serializable(x) && UniqueNames(x) && SameJson(items[i], x) && SortAll(x) != SortAll(items[i])
    ensures Serializable(w) && UniqueNames(w) && SameJson(JArray(items), w) && SortAll(w) != SortAll(JArray(items))
  {
    var b := items[i := x];
    w := JArray(b);
    forall k | 0 <= k < |items|
      ensures SameJson(items[k], b[k])
    {
      SameAsItself(items[k]);
    }
    SortItemAt(items, i);
    SortItemAt(b, i);
  }

  lemma {:induction false} ReplaceMember(members: seq<Member>, i: nat, x: Json) returns (w: Json)
    requires i < |members| && Serializable(JObject(members)) && UniqueNames(JObject(members))
    requires Serializable(x) && UniqueNames(x) && SameJson(members[i].value, x)
    requires SortAll(x) != SortAll(members[i].value)
    ensures Serializable(w) && UniqueNames(w) && SameJson(JObject(members), w)
    ensures SortAll(w) != SortAll(JObject(members))
  {
    var b := members[i := Member(members[i].name, x)];
    w := JObject(b);
    ReplacementIsAccepted(members, i, x);
    ReplacementIsSame(members, i, x);
    if SortAll(w) == SortAll(JObject(members)) {
      var j := SharedMember(members, b, i);
    }
  }

  lemma {:induction false} ReplacementIsAccepted(members: seq<Member>, i: nat, x: Json)
    requires i < |members| && Serializable(JObject(members)) && UniqueNames(JObject(members))
    requires Serializable(x) && UniqueNames(x)
    ensures var w := JObject(members[i := Member(members[i].name, x)]); Serializable(w) && UniqueNames(w)
  {
    var b := members[i := Member(members[i].name, x)];
    assert forall k :: 0 <= k < |members| ==> b[k].name == members[k].name;
  }

  lemma {:induction false} ReplacementIsSame(members: seq<Member>, i: nat, x: Json)
    requires i < |members| && SameJson(members[i].value, x)
    ensures SameJson(JObject(members), JObject(members[i := Member(members[i].name, x)]))
  {
    var b := members[i := Member(members[i].name, x)];
    forall k | 0 <= k < |members|
      ensures HasSame(members[k], b)
    {
      SameAsItself(members[k].value);
      assert b[k].name == members[k].name;
    }
    forall k | 0 <= k < |b|
      ensures HasName(b[k].name, members)
    {
      assert b[k].name == members[k].name;
    }
  }

  /**
   * The text of a value is independent of the order of object members exactly when no object in it
   * has two members whose names share their UTF-8 bytes.
   */
  lemma {:induction false} TextIgnoresMemberOrderExactly(numerals: Numerals, v: Json)
    requires Faithful(numerals) && Serializable(v) && UniqueNames(v)
    ensures TellsNamesApart(v) <==>
            forall w :: Serializable(w) && UniqueNames(w) && SameJson(v, w) ==>
              StringifyExactJson(numerals, w) == StringifyExactJson(numerals, v)
  {
    if TellsNamesApart(v) {
      forall w | Serializable(w) && UniqueNames(w) && SameJson(v, w)
        ensures StringifyExactJson(numerals, w) == StringifyExactJson(numerals, v)
      {
        SameValuesWriteAlike(v, w);
      }
    } else {
      var w := ClashHasAnotherText(v);
      SerializableIsFinite(v);
      SerializableIsFinite(w);
      if StringifyExactJson(numerals, w) == StringifyExactJson(numerals, v) {
        SerializingIsInjective(numerals, SortAll(w), SortAll(v), Indented, [10]);
      }
    }
  }

  /** Names without unpaired surrogates are always told apart. */
  lemma {:induction false} WellFormedNamesAreToldApart(v: Json)
    requires Encodable(v) && UniqueNames(v)
    ensures TellsNamesApart(v)
    decreases v
  {
    match v
    case JArray(items) =>
      forall i | 0 <= i < |items|
        ensures TellsNamesApart(items[i])
      {
        WellFormedNamesAreToldApart(items[i]);
      }
    case JObject(members) =>
      forall i, j | 0 <= i < j < |members|
        ensures Utf8(members[i].name) != Utf8(members[j].name)
      {
        if Utf8(members[i].name) == Utf8(members[j].name) {
          Utf8IsInjective(members[i].name, members[j].name);
        }
      }
      forall i | 0 <= i < |members|
        ensures TellsNamesApart(members[i].value)
      {
        WellFormedNamesAreToldApart(members[i].value);
      }
    case _ =>
  }

  /** The serializer lets some names through that it cannot tell apart: two different final high surrogates. */
  lemma {:induction false} AcceptedNamesCanClash()
    ensures var v := JObject([Member([0xD800], JNull), Member([0xD801], JNull)]);
            Serializable(v) && UniqueNames(v) && !TellsNamesApart(v)
  {
    var members := [Member([0xD800], JNull), Member([0xD801], JNull)];
    Utf8MergesUnpairedSurrogates();
    assert Utf8(members[0].name) == Utf8(members[1].name);
  }

  /** The written text is the indented text of the value in name order, and a line feed. */
  lemma {:induction false} WrittenTextIs(numerals: Numerals, v: Json)
    ensures StringifyExactJson(numerals, v).Some? <==> Serializable(v)
    ensures Serializable(v) ==>
              exists w :: SameJson(v, w) && InNameOrder(w)
                          && StringifyExactJson(numerals, v) == Some(Serialize(numerals, w, Indented, 0) + Text("\n"))
  {
    SortAllKeepsValue(v);
    LineFeedIs();
  }

  lemma {:induction false} LineFeedIs()
    ensures Text("\n") == [10]
  {
  }

  // ----- what has a text

  /** An infinite number or none, or a string or a name that fails the surrogate check. */
  ghost predicate IsUnwritable(part: Json) {
    || (part.JNumber? && !IsFinite(part.n))
    || (part.JString? && !LooselyFormed(part.s))
    || (part.JObject? && exists i :: 0 <= i < |part.members| && !LooselyFormed(part.members[i].name))
  }

  lemma {:induction false} UnwritableWithin(v: Json, part: Json)
    requires IsWithin(part, v) && IsUnwritable(part)
    ensures !Serializable(v)
    decreases v
  {
    if part != v {
      if v.JArray? {
        var i :| 0 <= i < |v.items| && IsWithin(part, v.items[i]);
        UnwritableWithin(v.items[i], part);
      } else {
        var i :| 0 <= i < |v.members| && IsWithin(part, v.members[i].value);
        UnwritableWithin(v.members[i].value, part);
      }
    }
  }

  lemma {:induction false} FindUnwritable(v: Json) returns (part: Json)
    requires !Serializable(v)
    ensures IsWithin(part, v) && IsUnwritable(part)
    decreases v
  {
    if IsUnwritable(v) {
      part := v;
    } else if v.JArray? {
      var i :| 0 <= i < |v.items| && !Serializable(v.items[i]);
      part := FindUnwritable(v.items[i]);
    } else {
      var i :| 0 <= i < |v.members| && !Serializable(v.members[i].value);
      part := FindUnwritable(v.members[i].value);
    }
  }

  /** A value has no text exactly when such a number, string or name is somewhere within it. */
  lemma {:induction false} WrittenExactly(numerals: Numerals, v: Json)
    ensures StringifyExactJson(numerals, v).None? <==> exists part :: IsWithin(part, v) && IsUnwritable(part)
  {
    if !Serializable(v) {
      var part := FindUnwritable(v);
    }
    if part :| IsWithin(part, v) && IsUnwritable(part) {
      UnwritableWithin(v, part);
    }
  }
}
