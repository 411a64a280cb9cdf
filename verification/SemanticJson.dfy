/**
 * The canonical encoding used for digests: typed nodes with numbers as the hexadecimal of their
 * bits and object members in the order of their names' UTF-8 bytes, printed as compact JSON.
 */
module SemanticJson {
  import opened ByteOrder
  import opened Json
  import opened JsonText
  import opened Lexicographic
  import opened JsValues
  import opened Outcomes
  import opened Unicode
  import Sorting

  /** What the encoder accepts: finite numbers and no unpaired surrogate in a string or a name. */
  predicate Encodable(v: Json) {
    match v
    case JNumber(n) => IsFinite(n)
    case JString(s) => WellFormed(s)
    case JArray(items) => forall i :: 0 <= i < |items| ==> Encodable(items[i])
    case JObject(members) =>
      forall i :: 0 <= i < |members| ==> WellFormed(members[i].name) && Encodable(members[i].value)
    case _ => true
  }

  ghost predicate DistinctNames(members: seq<Member>) {
    forall i, j :: 0 <= i < j < |members| ==> members[i].name != members[j].name
  }

  /** No object, at any depth, has two members of one name; objects of the language never do. */
  ghost predicate UniqueNames(v: Json) {
    match v
    case JArray(items) => forall i :: 0 <= i < |items| ==> UniqueNames(items[i])
    case JObject(members) => DistinctNames(members) && forall i :: 0 <= i < |members| ==> UniqueNames(members[i].value)
    case _ => true
  }

  /** Equality of values up to the order of object members, numbers compared by their bits. */
  ghost predicate SameJson(v: Json, w: Json)
    decreases v
  {
    match v
    case JNull => w.JNull?
    case JBool(b) => w.JBool? && b == w.b
    case JNumber(n) => w.JNumber? && n == w.n
    case JString(s) => w.JString? && s == w.s
    case JArray(items) =>
      w.JArray? && |items| == |w.items| && forall i :: 0 <= i < |items| ==> SameJson(items[i], w.items[i])
    case JObject(members) =>
      && w.JObject?
      && (forall i :: 0 <= i < |members| ==> HasSame(members[i], w.members))
      && (forall j :: 0 <= j < |w.members| ==> HasName(w.members[j].name, members))
  }

  /** Some member of the list has the same name and the same value. */
  ghost predicate HasSame(member: Member, members: seq<Member>)
    decreases member
  {
    exists j :: 0 <= j < |members| && members[j].name == member.name && SameJson(member.value, members[j].value)
  }

  predicate HasName(name: JsString, members: seq<Member>) {
    exists j :: 0 <= j < |members| && members[j].name == name
  }

  predicate MemberBefore(a: Member, b: Member) {
    Compare(Utf8(a.name), Utf8(b.name)) < 0
  }

  /** Names ascend by their UTF-8 bytes; names that share their bytes stand side by side. */
  ghost predicate NamesAscend(members: seq<Member>) {
    forall i, j :: 0 <= i < j < |members| ==> !LexLess(Utf8(members[j].name), Utf8(members[i].name))
  }

  lemma {:induction false} SortedNamesAscend(members: seq<Member>)
    ensures NamesAscend(Sorting.Sort(MemberBefore, members))
    ensures multiset(Sorting.Sort(MemberBefore, members)) == multiset(members)
  {
    var sorted := Sorting.Sort(MemberBefore, members);
    NameOrderIsWeak();
    Sorting.SortOrders(MemberBefore, members);
    Sorting.SortKeepsElements(MemberBefore, members);
    forall i, j | 0 <= i < j < |sorted|
      ensures !LexLess(Utf8(sorted[j].name), Utf8(sorted[i].name))
    {
      assert Sorting.InOrder(MemberBefore, sorted, i, j);
      CompareIsLexicographic(Utf8(sorted[j].name), Utf8(sorted[i].name));
    }
  }

  /** The big-endian hexadecimal digits of a number of the given width. */
  function HexDigits(n: nat, width: nat): JsString {
    if width == 0 then [] else HexDigits(n / 16, width - 1) + [HexDigit(n % 16)]
  }

  function Pow16(width: nat): nat {
    if width == 0 then 1 else 16 * Pow16(width - 1)
  }

  function Tagged(tag: string, content: seq<Json>): Json {
    JArray([JString(Text(tag))] + content)
  }

  function Typed(v: Json): Json
    decreases v
  {
    match v
    case JNull => Tagged("null", [])
    case JBool(_) => Tagged("boolean", [v])
    case JNumber(n) => Tagged("number", [JString(HexDigits(n, 16))])
    case JString(_) => Tagged("string", [v])
    case JArray(items) => Tagged("array", [JArray(TypedItems(items))])
    case JObject(members) => Tagged("object", [JArray(Pairs(Sorting.Sort(MemberBefore, TypedMembers(members))))])
  }

  function TypedItems(items: seq<Json>): (r: seq<Json>)
    ensures |r| == |items|
    decreases items
  {
    if items == [] then [] else [Typed(items[0])] + TypedItems(items[1..])
  }

  function TypedMembers(members: seq<Member>): (r: seq<Member>)
    ensures |r| == |members|
    decreases members
  {
    if members == [] then [] else [Member(members[0].name, Typed(members[0].value))] + TypedMembers(members[1..])
  }

  function Pairs(members: seq<Member>): (r: seq<Json>)
    ensures |r| == |members|
  {
    if members == [] then [] else [JArray([JString(members[0].name), members[0].value])] + Pairs(members[1..])
  }

  function Envelope(v: Json): Json {
    JArray([JString(Text("semantscript-semantic-json")), JNumber(ONE), Typed(v)])
  }

  /** The encoding as a string; values outside the encoder's domain raise an error. */
  function SemanticJsonString(numerals: Numerals, v: Json): Option<JsString> {
    if Encodable(v) then Some(Serialize(numerals, Envelope(v), Compact, 0)) else None
  }

  /** The encoding as UTF-8 bytes, the form that is hashed. */
  function SemanticJsonBytes(numerals: Numerals, v: Json): Option<Bytes> {
    match SemanticJsonString(numerals, v)
    case None => None
    case Some(text) => Some(Utf8(text))
  }

  // ----- element access

  lemma {:induction false} TypedItemAt(items: seq<Json>, i: nat)
    requires i < |items|
    ensures TypedItems(items)[i] == Typed(items[i])
  {
    if i > 0 { TypedItemAt(items[1..], i - 1); }
  }

  lemma {:induction false} TypedMemberAt(members: seq<Member>, i: nat)
    requires i < |members|
    ensures TypedMembers(members)[i] == Member(members[i].name, Typed(members[i].value))
  {
    if i > 0 { TypedMemberAt(members[1..], i - 1); }
  }

  lemma {:induction false} PairAt(members: seq<Member>, i: nat)
    requires i < |members|
    ensures Pairs(members)[i] == JArray([JString(members[i].name), members[i].value])
  {
    if i > 0 { PairAt(members[1..], i - 1); }
  }

  lemma {:induction false} PairsAreInjective(a: seq<Member>, b: seq<Member>)
    requires Pairs(a) == Pairs(b)
    ensures a == b
  {
    assert |a| == |b|;
    forall i | 0 <= i < |a|
      ensures a[i] == b[i]
    {
      PairAt(a, i);
      PairAt(b, i);
      assert Pairs(a)[i].items[0] == Pairs(b)[i].items[0] && Pairs(a)[i].items[1] == Pairs(b)[i].items[1];
    }
  }

  lemma {:induction false} HexDigitsAreInjective(n: nat, m: nat, width: nat)
    requires n < Pow16(width) && m < Pow16(width) && HexDigits(n, width) == HexDigits(m, width)
    ensures n == m
  {
    if width > 0 {
      var a, b := HexDigits(n / 16, width - 1), HexDigits(m / 16, width - 1);
      var x, y := a + [HexDigit(n % 16)], b + [HexDigit(m % 16)];
      assert x == y && |x| == |a| + 1 && |y| == |b| + 1;
      assert x[..|a|] == a && y[..|b|] == b && x[|a|] == y[|b|];
      HexDigitsAreInjective(n / 16, m / 16, width - 1);
    }
  }

  lemma {:induction false} NumbersAreSixteenDigits(n: Number)
    ensures n < Pow16(16)
  {
    assert Pow16(8) == 0x1_0000_0000;
    assert Pow16(12) == 0x1_0000_0000_0000;
    assert Pow16(16) == 0x1_0000_0000_0000_0000;
  }

  lemma {:induction false} TagsDiffer(v: Json, w: Json)
    requires Typed(v) == Typed(w)
    ensures v.JNull? == w.JNull? && v.JBool? == w.JBool? && v.JNumber? == w.JNumber?
    ensures v.JString? == w.JString? && v.JArray? == w.JArray? && v.JObject? == w.JObject?
  {
    var a, b := Typed(v).items[0].s, Typed(w).items[0].s;
    assert a == b;
    assert a[0] == b[0] && |a| == |b|;
  }

  lemma {:induction false} ContentsAgree(v: Json, w: Json)
    requires Typed(v) == Typed(w) && !v.JNull?
    ensures |Typed(v).items| == |Typed(w).items| == 2 && Typed(v).items[1] == Typed(w).items[1]
  {
    TagsDiffer(v, w);
  }

  // ----- same nodes only for same values

  lemma {:induction false} SameNodesMeanSameValues(v: Json, w: Json)
    requires Typed(v) == Typed(w)
    ensures SameJson(v, w)
    decreases v
  {
    TagsDiffer(v, w);
    if !v.JNull? { ContentsAgree(v, w); }
    match v
    case JNull =>
    case JBool(_) =>
    case JNumber(n) =>
      NumbersAreSixteenDigits(n);
      NumbersAreSixteenDigits(w.n);
      HexDigitsAreInjective(n, w.n, 16);
    case JString(_) =>
    case JArray(items) =>
      assert TypedItems(items) == TypedItems(w.items);
      forall i | 0 <= i < |items|
        ensures SameJson(items[i], w.items[i])
      {
        TypedItemAt(items, i);
        TypedItemAt(w.items, i);
        SameNodesMeanSameValues(items[i], w.items[i]);
      }
    case JObject(members) =>
      PairsAreInjective(Sorting.Sort(MemberBefore, TypedMembers(members)),
        Sorting.Sort(MemberBefore, TypedMembers(w.members)));
      SortedMembersAgree(members, w.members);
      SortedMembersAgree(w.members, members);
      forall i | 0 <= i < |members|
        ensures HasSame(members[i], w.members)
      {
        var j :| 0 <= j < |w.members| && w.members[j].name == members[i].name
          && Typed(w.members[j].value) == Typed(members[i].value);
        SameNodesMeanSameValues(members[i].value, w.members[j].value);
      }
  }

  ghost predicate HasTyped(member: Member, members: seq<Member>) {
    exists j :: 0 <= j < |members| && members[j].name == member.name && Typed(members[j].value) == Typed(member.value)
  }

  lemma {:induction false} SortedMembersAgree(a: seq<Member>, b: seq<Member>)
    requires Sorting.Sort(MemberBefore, TypedMembers(a)) == Sorting.Sort(MemberBefore, TypedMembers(b))
    ensures forall i :: 0 <= i < |a| ==> HasTyped(a[i], b)
    ensures forall i :: 0 <= i < |a| ==> HasName(a[i].name, b)
  {
    Sorting.SortKeepsElements(MemberBefore, TypedMembers(a));
    Sorting.SortKeepsElements(MemberBefore, TypedMembers(b));
    forall i | 0 <= i < |a|
      ensures HasTyped(a[i], b) && HasName(a[i].name, b)
    {
      SharedNodeMatches(a, b, i);
    }
  }

  lemma {:induction false} SharedNodeMatches(a: seq<Member>, b: seq<Member>, i: nat)
    requires i < |a| && multiset(TypedMembers(a)) == multiset(TypedMembers(b))
    ensures HasTyped(a[i], b) && HasName(a[i].name, b)
  {
    var x := TypedMembers(a)[i];
    TypedMemberAt(a, i);
    assert x in multiset(TypedMembers(a));
    assert x in TypedMembers(b);
    var j :| 0 <= j < |b| && TypedMembers(b)[j] == x;
    TypedMemberAt(b, j);
  }

  // ----- same values have the same nodes

  lemma {:induction false} NameOrderIsWeak()
    ensures Sorting.StrictWeakOrder(MemberBefore)
  {
    forall a: Member, b: Member
      ensures !(MemberBefore(a, b) && MemberBefore(b, a))
    {
      CompareFlips(Utf8(a.name), Utf8(b.name));
    }
    forall a: Member, b: Member, c: Member | !MemberBefore(b, a) && !MemberBefore(c, b)
      ensures !MemberBefore(c, a)
    {
      CompareFlips(Utf8(a.name), Utf8(b.name));
      CompareFlips(Utf8(b.name), Utf8(c.name));
      CompareFlips(Utf8(a.name), Utf8(c.name));
      CompareTransitive(Utf8(a.name), Utf8(b.name), Utf8(c.name));
    }
  }

  ghost predicate WellFormedNames(members: seq<Member>) {
    forall i :: 0 <= i < |members| ==> WellFormed(members[i].name)
  }

  lemma {:induction false} NamesSeparate(members: seq<Member>)
    requires DistinctNames(members) && WellFormedNames(members)
    ensures Sorting.Separates(MemberBefore, multiset(members)) && Sorting.NoRepeats(members)
  {
    forall x, y | x in multiset(members) && y in multiset(members) && !MemberBefore(x, y) && !MemberBefore(y, x)
      ensures x == y
    {
      var i :| 0 <= i < |members| && members[i] == x;
      var j :| 0 <= j < |members| && members[j] == y;
      CompareFlips(Utf8(x.name), Utf8(y.name));
      CompareZero(Utf8(x.name), Utf8(y.name));
      Utf8IsInjective(x.name, y.name);
    }
  }

  /** Two lists of members with the same elements sort to the same list. */
  lemma {:induction false} SameMembersSortAlike(a: seq<Member>, b: seq<Member>)
    requires DistinctNames(a) && DistinctNames(b) && WellFormedNames(a) && WellFormedNames(b)
    requires (forall i :: 0 <= i < |a| ==> a[i] in b) && (forall j :: 0 <= j < |b| ==> b[j] in a)
    ensures Sorting.Sort(MemberBefore, a) == Sorting.Sort(MemberBefore, b)
  {
    NamesSeparate(a);
    NamesSeparate(b);
    NameOrderIsWeak();
    Sorting.NoRepeatsCount(a);
    Sorting.NoRepeatsCount(b);
    assert forall x :: x in multiset(a) <==> x in multiset(b);
    assert multiset(a) == multiset(b);
    Sorting.SortIgnoresOrder(MemberBefore, a, b);
  }

  lemma {:induction false} TypedNames(members: seq<Member>)
    ensures DistinctNames(members) ==> DistinctNames(TypedMembers(members))
    ensures WellFormedNames(members) ==> WellFormedNames(TypedMembers(members))
  {
    forall i | 0 <= i < |members|
      ensures TypedMembers(members)[i].name == members[i].name
    {
      TypedMemberAt(members, i);
    }
  }

  lemma {:induction false} SameValuesHaveSameNodes(v: Json, w: Json)
    requires Encodable(v) && Encodable(w) && UniqueNames(v) && UniqueNames(w) && SameJson(v, w)
    ensures Typed(v) == Typed(w)
    decreases v
  {
    match v
    case JNull =>
    case JBool(_) =>
    case JNumber(_) =>
    case JString(_) =>
    case JArray(items) =>
      forall i | 0 <= i < |items|
        ensures TypedItems(items)[i] == TypedItems(w.items)[i]
      {
        TypedItemAt(items, i);
        TypedItemAt(w.items, i);
        SameValuesHaveSameNodes(items[i], w.items[i]);
      }
      assert TypedItems(items) == TypedItems(w.items);
    case JObject(members) =>
      forall i | 0 <= i < |members|
        ensures HasTyped(members[i], w.members)
      {
        assert HasSame(members[i], w.members);
        var j :| 0 <= j < |w.members| && w.members[j].name == members[i].name
          && SameJson(members[i].value, w.members[j].value);
        SameValuesHaveSameNodes(members[i].value, w.members[j].value);
      }
      SameMembersSameNodes(members, w.members);
  }

  lemma {:induction false} SameMembersSameNodes(a: seq<Member>, b: seq<Member>)
    requires DistinctNames(a) && DistinctNames(b) && WellFormedNames(a) && WellFormedNames(b)
    requires forall i :: 0 <= i < |a| ==> HasTyped(a[i], b)
    requires forall j :: 0 <= j < |b| ==> HasName(b[j].name, a)
    ensures Sorting.Sort(MemberBefore, TypedMembers(a)) == Sorting.Sort(MemberBefore, TypedMembers(b))
  {
    var s, t := TypedMembers(a), TypedMembers(b);
    TypedNames(a);
    TypedNames(b);
    forall i | 0 <= i < |s|
      ensures s[i] in t
    {
      MatchIsMember(a, b, i);
    }
    forall j | 0 <= j < |t|
      ensures t[j] in s
    {
      assert HasName(b[j].name, a);
      var i :| 0 <= i < |a| && a[i].name == b[j].name;
      OnlyMatch(a, b, i, j);
    }
    SameMembersSortAlike(s, t);
  }

  lemma {:induction false} MatchIsMember(a: seq<Member>, b: seq<Member>, i: nat)
    requires i < |a| && HasTyped(a[i], b)
    ensures TypedMembers(a)[i] in TypedMembers(b)
  {
    TypedMemberAt(a, i);
    var j :| 0 <= j < |b| && b[j].name == a[i].name && Typed(b[j].value) == Typed(a[i].value);
    TypedMemberAt(b, j);
  }

  lemma {:induction false} OnlyMatch(a: seq<Member>, b: seq<Member>, i: nat, j: nat)
    requires i < |a| && j < |b| && a[i].name == b[j].name && HasTyped(a[i], b) && DistinctNames(b)
    ensures TypedMembers(b)[j] == TypedMembers(a)[i]
  {
    var k :| 0 <= k < |b| && b[k].name == a[i].name && Typed(b[k].value) == Typed(a[i].value);
    assert k == j;
    TypedMemberAt(a, i);
    TypedMemberAt(b, j);
  }

  // ----- the printed form

  /** The shape of typed nodes: arrays over well-formed strings, booleans and finite numbers. */
  ghost predicate IsNode(v: Json) {
    match v
    case JBool(_) => true
    case JNumber(n) => IsFinite(n)
    case JString(s) => WellFormed(s)
    case JArray(items) => forall i :: 0 <= i < |items| ==> IsNode(items[i])
    case _ => false
  }

  lemma {:induction false} AsciiIsWellFormed(s: JsString)
    requires forall i :: 0 <= i < |s| ==> s[i] < 128
    ensures WellFormed(s)
  {
    if s != [] { AsciiIsWellFormed(s[1..]); }
  }

  lemma {:induction false} TagIsNode(tag: string, content: seq<Json>)
    requires forall i :: 0 <= i < |content| ==> IsNode(content[i])
    ensures IsNode(Tagged(tag, content))
  {
    AsciiIsWellFormed(Text(tag));
    var items := Tagged(tag, content).items;
    assert forall i :: 0 < i < |items| ==> items[i] == content[i - 1];
  }

  lemma {:induction false} HexDigitsAreAscii(n: nat, width: nat)
    ensures forall i :: 0 <= i < |HexDigits(n, width)| ==> HexDigits(n, width)[i] < 128
  {
    if width > 0 { HexDigitsAreAscii(n / 16, width - 1); }
  }

  lemma {:induction false} TypedIsNode(v: Json)
    requires Encodable(v)
    ensures IsNode(Typed(v))
    decreases v
  {
    match v
    case JNull => TagIsNode("null", []);
    case JBool(_) => TagIsNode("boolean", [v]);
    case JNumber(n) =>
      HexDigitsAreAscii(n, 16);
      AsciiIsWellFormed(HexDigits(n, 16));
      TagIsNode("number", [JString(HexDigits(n, 16))]);
    case JString(_) => TagIsNode("string", [v]);
    case JArray(items) =>
      forall i | 0 <= i < |items|
        ensures IsNode(TypedItems(items)[i])
      {
        TypedItemAt(items, i);
        TypedIsNode(items[i]);
      }
      TagIsNode("array", [JArray(TypedItems(items))]);
    case JObject(members) =>
      var s := TypedMembers(members);
      forall i | 0 <= i < |s|
        ensures WellFormed(s[i].name) && IsNode(s[i].value)
      {
        TypedMemberAt(members, i);
        TypedIsNode(members[i].value);
      }
      SortedPairsAreNodes(s);
      TagIsNode("object", [JArray(Pairs(Sorting.Sort(MemberBefore, s)))]);
  }

  lemma {:induction false} SortedPairsAreNodes(s: seq<Member>)
    requires forall i :: 0 <= i < |s| ==> WellFormed(s[i].name) && IsNode(s[i].value)
    ensures IsNode(JArray(Pairs(Sorting.Sort(MemberBefore, s))))
  {
    var t := Sorting.Sort(MemberBefore, s);
    Sorting.SortKeepsElements(MemberBefore, s);
    forall i | 0 <= i < |t|
      ensures IsNode(Pairs(t)[i])
    {
      PairAt(t, i);
      assert t[i] in multiset(t);
      assert t[i] in s;
    }
  }

  lemma {:induction false} EnvelopeIsNode(v: Json)
    requires Encodable(v)
    ensures IsNode(Envelope(v)) && FiniteNumbers(Envelope(v))
  {
    TypedIsNode(v);
    AsciiIsWellFormed(Text("semantscript-semantic-json"));
    NodesAreFinite(Envelope(v));
  }

  lemma {:induction false} NodesAreFinite(v: Json)
    requires IsNode(v)
    ensures FiniteNumbers(v)
  {
    if v.JArray? {
      forall i | 0 <= i < |v.items|
        ensures FiniteNumbers(v.items[i])
      {
        NodesAreFinite(v.items[i]);
      }
    }
  }

  lemma {:induction false} PlainUnitsKeepForm(s: JsString, rest: JsString)
    requires WellFormed(rest) && forall i :: 0 <= i < |s| ==> !IsHigh(s[i]) && !IsLow(s[i])
    ensures WellFormed(s + rest)
  {
    if s == [] {
      assert s + rest == rest;
    } else {
      assert (s + rest)[1..] == s[1..] + rest;
      PlainUnitsKeepForm(s[1..], rest);
    }
  }

  lemma {:induction false} EscapesKeepForm(s: JsString, rest: JsString)
    requires WellFormed(s) && WellFormed(rest)
    ensures WellFormed(EscapeTo(s, rest))
    decreases |s|
  {
    if s == [] {
    } else if StartsWithPair(s) {
      EscapesKeepForm(s[2..], rest);
      assert ([s[0], s[1]] + EscapeTo(s[2..], rest))[2..] == EscapeTo(s[2..], rest);
    } else {
      var tail := EscapeTo(s[1..], rest);
      EscapesKeepForm(s[1..], rest);
      UnitKeepsForm(s[0], tail);
    }
  }

  lemma {:induction false} UnitKeepsForm(u: CodeUnit, rest: JsString)
    requires !IsHigh(u) && !IsLow(u) && WellFormed(rest)
    ensures WellFormed(EscapeUnitTo(u, rest))
  {
    var text := EscapeUnitTo(u, rest);
    var head := text[..|text| - |rest|];
    assert text == head + rest;
    PlainUnitsKeepForm(head, rest);
  }

  lemma {:induction false} PrintedNodeIsWellFormed(numerals: Numerals, v: Json, depth: nat, rest: JsString)
    requires Faithful(numerals) && IsNode(v) && WellFormed(rest)
    ensures WellFormed(PrintTo(numerals, v, Compact, depth, rest))
    decreases v, 0
  {
    match v
    case JBool(b) => PlainUnitsKeepForm(if b then [116, 114, 117, 101] else [102, 97, 108, 115, 101], rest);
    case JNumber(n) =>
      NumeralIsNumeralUnits(NumberText(numerals, n));
      PlainUnitsKeepForm(NumberText(numerals, n), rest);
    case JString(s) =>
      PlainUnitsKeepForm([34], rest);
      EscapesKeepForm(s, [34] + rest);
      PlainUnitsKeepForm([34], EscapeTo(s, [34] + rest));
    case JArray(items) =>
      if items == [] {
        PlainUnitsKeepForm([91, 93], rest);
      } else {
        var more := ItemsTo(numerals, items[1..], Compact, depth, rest);
        PrintedItemsAreWellFormed(numerals, items[1..], depth, rest);
        PrintedNodeIsWellFormed(numerals, items[0], depth + 1, more);
        PlainUnitsKeepForm([91], PrintTo(numerals, items[0], Compact, depth + 1, more));
      }
  }

  lemma {:induction false} PrintedItemsAreWellFormed(numerals: Numerals, items: seq<Json>, depth: nat, rest: JsString)
    requires Faithful(numerals) && WellFormed(rest) && forall i :: 0 <= i < |items| ==> IsNode(items[i])
    ensures WellFormed(ItemsTo(numerals, items, Compact, depth, rest))
    decreases items, 0
  {
    if items == [] {
      PlainUnitsKeepForm([93], rest);
    } else {
      var more := ItemsTo(numerals, items[1..], Compact, depth, rest);
      PrintedItemsAreWellFormed(numerals, items[1..], depth, rest);
      PrintedNodeIsWellFormed(numerals, items[0], depth + 1, more);
      PlainUnitsKeepForm([44], PrintTo(numerals, items[0], Compact, depth + 1, more));
    }
  }

  lemma {:induction false} EncodingIsWellFormed(numerals: Numerals, v: Json)
    requires Faithful(numerals) && Encodable(v)
    ensures WellFormed(Serialize(numerals, Envelope(v), Compact, 0))
  {
    EnvelopeIsNode(v);
    PrintedNodeIsWellFormed(numerals, Envelope(v), 0, []);
    PrintedIsSerialized(numerals, Envelope(v), Compact, 0, []);
    assert Serialize(numerals, Envelope(v), Compact, 0) + [] == Serialize(numerals, Envelope(v), Compact, 0);
  }

  lemma {:induction false} SameEncodingMeansSameNodes(numerals: Numerals, v: Json, w: Json)
    requires Faithful(numerals) && Encodable(v) && Encodable(w)
    requires SemanticJsonString(numerals, v) == SemanticJsonString(numerals, w)
    ensures Typed(v) == Typed(w)
  {
    EnvelopeIsNode(v);
    EnvelopeIsNode(w);
    SerializingIsInjective(numerals, Envelope(v), Envelope(w), Compact, []);
    assert Envelope(v).items[2] == Envelope(w).items[2];
  }

  /**
   * Two values the encoder accepts have the same encoding exactly when they are equal up to the
   * order of object members, with numbers compared by their bits.
   */
  lemma {:induction false} EncodingIsCanonical(numerals: Numerals, v: Json, w: Json)
    requires Faithful(numerals) && Encodable(v) && Encodable(w) && UniqueNames(v) && UniqueNames(w)
    ensures SemanticJsonString(numerals, v) == SemanticJsonString(numerals, w) <==> SameJson(v, w)
  {
    if SemanticJsonString(numerals, v) == SemanticJsonString(numerals, w) {
      SameEncodingMeansSameNodes(numerals, v, w);
      SameNodesMeanSameValues(v, w);
    }
    if SameJson(v, w) {
      SameValuesHaveSameNodes(v, w);
    }
  }

  /** The bytes that are hashed tell values apart just as well as the string does. */
  lemma {:induction false} BytesAreCanonical(numerals: Numerals, v: Json, w: Json)
    requires Faithful(numerals) && Encodable(v) && Encodable(w) && UniqueNames(v) && UniqueNames(w)
    ensures SemanticJsonBytes(numerals, v) == SemanticJsonBytes(numerals, w) <==> SameJson(v, w)
  {
    EncodingIsCanonical(numerals, v, w);
    EnvelopeIsNode(v);
    EnvelopeIsNode(w);
    EncodingIsWellFormed(numerals, v);
    EncodingIsWellFormed(numerals, w);
    if SemanticJsonBytes(numerals, v) == SemanticJsonBytes(numerals, w) {
      Utf8IsInjective(SemanticJsonString(numerals, v).value, SemanticJsonString(numerals, w).value);
    }
  }

  // ----- what the encoding spells out

  function HexDigitValue(u: CodeUnit): int {
    if u < 58 then u - 48 else u - 87
  }

  function HexValue(digits: JsString): int {
    if digits == [] then 0 else HexValue(digits[..|digits| - 1]) * 16 + HexDigitValue(digits[|digits| - 1])
  }

  predicate IsHexText(digits: JsString) {
    forall i :: 0 <= i < |digits| ==> 48 <= digits[i] <= 57 || 97 <= digits[i] <= 102
  }

  /** The digits of a number are lowercase hexadecimal, the most significant first, and spell it. */
  lemma {:induction false} HexDigitsSpell(n: nat, width: nat)
    requires n < Pow16(width)
    ensures |HexDigits(n, width)| == width && IsHexText(HexDigits(n, width)) && HexValue(HexDigits(n, width)) == n
  {
    if width > 0 {
      assert Pow16(width) == 16 * Pow16(width - 1);
      HexDigitsSpell(n / 16, width - 1);
      var digits := HexDigits(n, width);
      assert digits[..|digits| - 1] == HexDigits(n / 16, width - 1);
    }
  }

  /** The nodes of scalars: a tag, and the scalar; a number by its sixteen hexadecimal digits. */
  lemma {:induction false} ScalarNodesAre(v: Json)
    ensures v.JNull? ==> Typed(v) == JArray([JString(Text("null"))])
    ensures v.JBool? ==> Typed(v) == JArray([JString(Text("boolean")), v])
    ensures v.JString? ==> Typed(v) == JArray([JString(Text("string")), v])
    ensures v.JNumber? ==>
              exists digits :: SpellsBits(digits, v.n) && Typed(v) == JArray([JString(Text("number")), JString(digits)])
  {
    if v.JNumber? {
      SixteenDigits();
      HexDigitsSpell(v.n, 16);
      TaggedOne("number", JString(HexDigits(v.n, 16)));
      assert SpellsBits(HexDigits(v.n, 16), v.n);
    }
  }

  ghost predicate SpellsBits(digits: JsString, n: Number) {
    |digits| == 16 && IsHexText(digits) && HexValue(digits) == n
  }

  lemma {:induction false} TaggedOne(tag: string, content: Json)
    ensures Tagged(tag, [content]) == JArray([JString(Text(tag)), content])
  {
    assert [JString(Text(tag))] + [content] == [JString(Text(tag)), content];
  }

  /** The node of an array holds the nodes of its items. */
  lemma {:induction false} ArrayNodeIs(items: seq<Json>)
    ensures exists nodes: seq<Json> ::
              && |nodes| == |items| && (forall i :: 0 <= i < |nodes| ==> nodes[i] == Typed(items[i]))
              && Typed(JArray(items)) == JArray([JString(Text("array")), JArray(nodes)])
  {
    forall i | 0 <= i < |items|
      ensures TypedItems(items)[i] == Typed(items[i])
    {
      TypedItemAt(items, i);
    }
    TaggedOne("array", JArray(TypedItems(items)));
  }

  /** The node of an object holds its members as pairs of name and node, names ascending. */
  lemma {:induction false} ObjectNodeIs(members: seq<Member>) returns (sorted: seq<Member>)
    ensures IsSortedForm(members, sorted)
    ensures Typed(JObject(members)) == JArray([JString(Text("object")), JArray(Pairs(sorted))])
  {
    sorted := SortedNodes(members);
    TaggedOne("object", JArray(Pairs(sorted)));
  }

  lemma {:induction false} SortedNodes(members: seq<Member>) returns (sorted: seq<Member>)
    ensures IsSortedForm(members, sorted)
    ensures Typed(JObject(members)) == Tagged("object", [JArray(Pairs(sorted))])
  {
    var nodes := TypedMembers(members);
    sorted := Sorting.Sort(MemberBefore, nodes);
    assert IsSortedForm(members, sorted) by {
      SortedNamesAscend(nodes);
      NodesOfMembers(members);
      assert AreNodes(members, nodes) && multiset(nodes) == multiset(sorted);
    }
    NodeOfObject(members);
  }

  lemma {:induction false} NodeOfObject(members: seq<Member>)
    ensures Typed(JObject(members)) ==
            Tagged("object", [JArray(Pairs(Sorting.Sort(MemberBefore, TypedMembers(members))))])
  {
  }

  lemma {:induction false} NodesOfMembers(members: seq<Member>)
    ensures AreNodes(members, TypedMembers(members))
  {
    forall i | 0 <= i < |members|
      ensures TypedMembers(members)[i] == Member(members[i].name, Typed(members[i].value))
    {
      TypedMemberAt(members, i);
    }
  }

  lemma {:induction false} SixteenDigits()
    ensures Pow16(16) == 0x1_0000_0000_0000_0000
  {
    assert Pow16(4) == 0x1_0000;
    assert Pow16(8) == 0x1_0000_0000;
    assert Pow16(12) == 0x1_0000_0000_0000;
  }

  /** The members with their nodes, names ascending. */
  ghost predicate IsSortedForm(members: seq<Member>, sorted: seq<Member>) {
    NamesAscend(sorted) && exists nodes :: AreNodes(members, nodes) && multiset(nodes) == multiset(sorted)
  }

  ghost predicate AreNodes(members: seq<Member>, nodes: seq<Member>) {
    |nodes| == |members|
      && forall i :: 0 <= i < |nodes| ==> nodes[i] == Member(members[i].name, Typed(members[i].value))
  }

  /** The pair of a member is its name and its node. */
  lemma {:induction false} PairsAre(members: seq<Member>, i: nat)
    requires i < |members|
    ensures Pairs(members)[i] == JArray([JString(members[i].name), members[i].value])
  {
    if i > 0 {
      PairsAre(members[1..], i - 1);
    }
  }

  /** The encoding is the compact text of a marker, the version and the node; what is hashed is its UTF-8. */
  lemma {:induction false} EncodingIs(numerals: Numerals, v: Json)
    requires Encodable(v)
    ensures SemanticJsonString(numerals, v) ==
            Some(Serialize(numerals, JArray([JString(Text("semantscript-semantic-json")), JNumber(ONE), Typed(v)]),
              Compact, 0))
    ensures SemanticJsonBytes(numerals, v) == Some(Utf8(SemanticJsonString(numerals, v).value))
  {
  }

  // ----- what has an encoding

  ghost predicate IsWithin(part: Json, v: Json)
    decreases v
  {
    part == v ||
    match v
    case JArray(items) => exists i :: 0 <= i < |items| && IsWithin(part, items[i])
    case JObject(members) => exists i :: 0 <= i < |members| && IsWithin(part, members[i].value)
    case _ => false
  }

  /** An infinite number or none, an unpaired surrogate in a string, or one in a name. */
  ghost predicate IsRefused(part: Json) {
    || (part.JNumber? && !IsFinite(part.n))
    || (part.JString? && !WellFormed(part.s))
    || (part.JObject? && exists i :: 0 <= i < |part.members| && !WellFormed(part.members[i].name))
  }

  lemma {:induction false} RefusedWithin(v: Json, part: Json)
    requires IsWithin(part, v) && IsRefused(part)
    ensures !Encodable(v)
    decreases v
  {
    if part != v {
      if v.JArray? {
        var i :| 0 <= i < |v.items| && IsWithin(part, v.items[i]);
        RefusedWithin(v.items[i], part);
      } else {
        var i :| 0 <= i < |v.members| && IsWithin(part, v.members[i].value);
        RefusedWithin(v.members[i].value, part);
      }
    }
  }

  lemma {:induction false} FindRefused(v: Json) returns (part: Json)
    requires !Encodable(v)
    ensures IsWithin(part, v) && IsRefused(part)
    decreases v
  {
    if IsRefused(v) {
      part := v;
    } else if v.JArray? {
      var i :| 0 <= i < |v.items| && !Encodable(v.items[i]);
      part := FindRefused(v.items[i]);
    } else {
      var i :| 0 <= i < |v.members| && !Encodable(v.members[i].value);
      part := FindRefused(v.members[i].value);
    }
  }

  /** A value has no encoding exactly when such a number, string or name is somewhere within it. */
  lemma {:induction false} EncodedExactly(numerals: Numerals, v: Json)
    ensures SemanticJsonBytes(numerals, v).None? <==> exists part :: IsWithin(part, v) && IsRefused(part)
  {
    if !Encodable(v) {
      var part := FindRefused(v);
    }
    if part :| IsWithin(part, v) && IsRefused(part) {
      RefusedWithin(v, part);
    }
  }
}
