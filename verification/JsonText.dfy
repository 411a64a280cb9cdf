/**
 * The text of a JSON value in the two layouts the compiler writes, put together the way the
 * serializers do it: the texts of the parts, joined and indented. The printer of module Json,
 * which the reader is matched against, gives the same text.
 */
module JsonText {
  import opened Json
  import opened JsValues
  import opened Outcomes
  import opened Unicode
  import JsonRoundTrip

  function JoinAfter(parts: seq<JsString>, separator: JsString): JsString {
    if parts == [] then [] else separator + parts[0] + JoinAfter(parts[1..], separator)
  }

  /** The parts with the separator between them. */
  function Join(parts: seq<JsString>, separator: JsString): JsString {
    if parts == [] then [] else parts[0] + JoinAfter(parts[1..], separator)
  }

  function Indentation(depth: nat): JsString {
    if depth == 0 then [] else [32, 32] + Indentation(depth - 1)
  }

  /** A line feed and the indentation of the next line; nothing in the compact layout. */
  function Break(layout: Layout, depth: nat): JsString {
    if layout.Compact? then [] else [10] + Indentation(depth)
  }

  function Quoted(s: JsString): JsString {
    [34] + EscapeTo(s, [34])
  }

  function Colon(layout: Layout): JsString {
    if layout.Compact? then [58] else [58, 32]
  }

  function Serialize(numerals: Numerals, v: Json, layout: Layout, depth: nat): JsString
    decreases v
  {
    match v
    case JNull => [110, 117, 108, 108]
    case JBool(b) => if b then [116, 114, 117, 101] else [102, 97, 108, 115, 101]
    case JNumber(n) => NumberText(numerals, n)
    case JString(s) => Quoted(s)
    case JArray(items) =>
      if items == [] then [91, 93]
      else
        [91] + Break(layout, depth + 1)
        + Join(SerializeItems(numerals, items, layout, depth + 1), [44] + Break(layout, depth + 1))
        + Break(layout, depth) + [93]
    case JObject(members) =>
      if members == [] then [123, 125]
      else
        [123] + Break(layout, depth + 1)
        + Join(SerializeMembers(numerals, members, layout, depth + 1), [44] + Break(layout, depth + 1))
        + Break(layout, depth) + [125]
  }

  function SerializeItems(numerals: Numerals, items: seq<Json>, layout: Layout, depth: nat): (r: seq<JsString>)
    ensures |r| == |items|
    decreases items
  {
    if items == [] then []
    else [Serialize(numerals, items[0], layout, depth)] + SerializeItems(numerals, items[1..], layout, depth)
  }

  function SerializeMember(numerals: Numerals, member: Member, layout: Layout, depth: nat): JsString
    decreases member
  {
    Quoted(member.name) + Colon(layout) + Serialize(numerals, member.value, layout, depth)
  }

  function SerializeMembers(numerals: Numerals, members: seq<Member>, layout: Layout, depth: nat): (r: seq<JsString>)
    ensures |r| == |members|
    decreases members
  {
    if members == [] then []
    else
      [SerializeMember(numerals, members[0], layout, depth)]
      + SerializeMembers(numerals, members[1..], layout, depth)
  }

  // ----- the printer gives the same text

  lemma {:induction false} TwoSpaces(n: nat, rest: JsString)
    ensures SpacesTo(n + 2, rest) == [32, 32] + SpacesTo(n, rest)
  {
    assert SpacesTo(n + 2, rest) == [32] + SpacesTo(n + 1, rest);
  }

  lemma {:induction false} SpacesAre(depth: nat, rest: JsString)
    ensures SpacesTo(2 * depth, rest) == Indentation(depth) + rest
  {
    if depth > 0 {
      TwoSpaces(2 * (depth - 1), rest);
      SpacesAre(depth - 1, rest);
    }
  }

  lemma {:induction false} LineIs(layout: Layout, depth: nat, rest: JsString)
    ensures LineTo(layout, depth, rest) == Break(layout, depth) + rest
  {
    if layout.Indented? { SpacesAre(depth, rest); }
  }

  lemma {:induction false} EscapesAre(s: JsString, a: JsString, b: JsString)
    ensures EscapeTo(s, a + b) == EscapeTo(s, a) + b
    decreases |s|
  {
    if s == [] {
    } else if StartsWithPair(s) {
      EscapesAre(s[2..], a, b);
    } else {
      EscapesAre(s[1..], a, b);
      UnitIs(s[0], EscapeTo(s[1..], a), b);
    }
  }

  lemma {:induction false} HexIs(u: CodeUnit, a: JsString, b: JsString)
    ensures HexTo(u, a + b) == HexTo(u, a) + b
  {
  }

  lemma {:induction false} UnitIs(u: CodeUnit, a: JsString, b: JsString)
    ensures EscapeUnitTo(u, a + b) == EscapeUnitTo(u, a) + b
  {
    HexIs(u, a, b);
  }

  lemma {:induction false} QuoteIs(s: JsString, rest: JsString)
    ensures QuoteTo(s, rest) == Quoted(s) + rest
  {
    EscapesAre(s, [34], rest);
  }

  lemma {:induction false} PrintedIsSerialized(numerals: Numerals, v: Json, layout: Layout, depth: nat, rest: JsString)
    ensures PrintTo(numerals, v, layout, depth, rest) == Serialize(numerals, v, layout, depth) + rest
    decreases v, 1
  {
    match v
    case JNull =>
    case JBool(_) =>
    case JNumber(_) =>
    case JString(s) => QuoteIs(s, rest);
    case JArray(items) => PrintedArrayIsSerialized(numerals, items, layout, depth, rest);
    case JObject(members) => PrintedObjectIsSerialized(numerals, members, layout, depth, rest);
  }

  lemma {:induction false} PrintedArrayIsSerialized(numerals: Numerals, items: seq<Json>, layout: Layout, depth: nat,
      rest: JsString)
    ensures PrintTo(numerals, JArray(items), layout, depth, rest) ==
            Serialize(numerals, JArray(items), layout, depth) + rest
    decreases items, 2
  {
    if items != [] {
      var more := ItemsTo(numerals, items[1..], layout, depth, rest);
      PrintedIsSerialized(numerals, items[0], layout, depth + 1, more);
      PrintedItemsAreSerialized(numerals, items[1..], layout, depth, rest);
      LineIs(layout, depth + 1, PrintTo(numerals, items[0], layout, depth + 1, more));
      BracketedList([91], Break(layout, depth + 1), Serialize(numerals, items[0], layout, depth + 1),
                    SerializeItems(numerals, items[1..], layout, depth + 1), Break(layout, depth), [93], rest);
    }
  }

  lemma {:induction false} PrintedObjectIsSerialized(numerals: Numerals, members: seq<Member>, layout: Layout,
      depth: nat, rest: JsString)
    ensures PrintTo(numerals, JObject(members), layout, depth, rest) ==
            Serialize(numerals, JObject(members), layout, depth) + rest
    decreases members, 2
  {
    if members != [] {
      var more := MembersTo(numerals, members[1..], layout, depth, rest);
      PrintedMemberIsSerialized(numerals, members[0], layout, depth + 1, more);
      PrintedMembersAreSerialized(numerals, members[1..], layout, depth, rest);
      LineIs(layout, depth + 1, MemberTo(numerals, members[0], layout, depth + 1, more));
      BracketedList([123], Break(layout, depth + 1), SerializeMember(numerals, members[0], layout, depth + 1),
                    SerializeMembers(numerals, members[1..], layout, depth + 1), Break(layout, depth), [125], rest);
    }
  }

  lemma {:induction false} Regroup(a: JsString, b: JsString, c: JsString)
    ensures a + (b + c) == a + b + c
  {
  }

  /** An opening bracket, a list and a closing bracket, from the first part on or joined at once. */
  lemma {:induction false} BracketedList(open: JsString, line: JsString, first: JsString, others: seq<JsString>,
      last: JsString, close: JsString, rest: JsString)
    ensures open + (line + (first + (JoinAfter(others, [44] + line) + (last + (close + rest)))))
         == open + line + Join([first] + others, [44] + line) + last + close + rest
  {
    var list := Join([first] + others, [44] + line);
    var end := last + (close + rest);
    assert ([first] + others)[1..] == others;
    Regroup(first, JoinAfter(others, [44] + line), end);
    Regroup(open, line, list + end);
    Regroup(open + line, list, end);
    Regroup(open + line + list, last, close + rest);
    Regroup(open + line + list + last, close, rest);
  }

  /** One more part in front of those that follow a first one. */
  lemma {:induction false} OneMorePart(line: JsString, part: JsString, others: seq<JsString>, end: JsString)
    ensures [44] + (line + (part + (JoinAfter(others, [44] + line) + end))) ==
            JoinAfter([part] + others, [44] + line) + end
  {
    assert ([part] + others)[1..] == others;
  }

  lemma {:induction false} PrintedItemsAreSerialized(numerals: Numerals, items: seq<Json>, layout: Layout, depth: nat,
      rest: JsString)
    ensures ItemsTo(numerals, items, layout, depth, rest)
         == JoinAfter(SerializeItems(numerals, items, layout, depth + 1), [44] + Break(layout, depth + 1))
           + (Break(layout, depth) + ([93] + rest))
    decreases items, 0
  {
    if items == [] {
      LineIs(layout, depth, [93] + rest);
    } else {
      var more := ItemsTo(numerals, items[1..], layout, depth, rest);
      PrintedIsSerialized(numerals, items[0], layout, depth + 1, more);
      PrintedItemsAreSerialized(numerals, items[1..], layout, depth, rest);
      LineIs(layout, depth + 1, PrintTo(numerals, items[0], layout, depth + 1, more));
      OneMorePart(Break(layout, depth + 1), Serialize(numerals, items[0], layout, depth + 1),
                  SerializeItems(numerals, items[1..], layout, depth + 1), Break(layout, depth) + ([93] + rest));
    }
  }

  lemma {:induction false} PrintedMemberIsSerialized(numerals: Numerals, member: Member, layout: Layout, depth: nat,
      rest: JsString)
    ensures MemberTo(numerals, member, layout, depth, rest) == SerializeMember(numerals, member, layout, depth) + rest
    decreases member, 1
  {
    var text := Serialize(numerals, member.value, layout, depth);
    var value := PrintTo(numerals, member.value, layout, depth, rest);
    PrintedIsSerialized(numerals, member.value, layout, depth, rest);
    ColonIs(layout, value);
    QuoteIs(member.name, Colon(layout) + value);
    Regroup(Quoted(member.name), Colon(layout), text + rest);
    Regroup(Quoted(member.name) + Colon(layout), text, rest);
  }

  lemma {:induction false} ColonIs(layout: Layout, value: JsString)
    ensures [58] + (if layout.Compact? then value else [32] + value) == Colon(layout) + value
  {
  }

  lemma {:induction false} PrintedMembersAreSerialized(numerals: Numerals, members: seq<Member>, layout: Layout,
      depth: nat, rest: JsString)
    ensures MembersTo(numerals, members, layout, depth, rest)
         == JoinAfter(SerializeMembers(numerals, members, layout, depth + 1), [44] + Break(layout, depth + 1))
           + (Break(layout, depth) + ([125] + rest))
    decreases members, 0
  {
    if members == [] {
      LineIs(layout, depth, [125] + rest);
    } else {
      var more := MembersTo(numerals, members[1..], layout, depth, rest);
      PrintedMemberIsSerialized(numerals, members[0], layout, depth + 1, more);
      PrintedMembersAreSerialized(numerals, members[1..], layout, depth, rest);
      LineIs(layout, depth + 1, MemberTo(numerals, members[0], layout, depth + 1, more));
      OneMorePart(Break(layout, depth + 1), SerializeMember(numerals, members[0], layout, depth + 1),
                  SerializeMembers(numerals, members[1..], layout, depth + 1), Break(layout, depth) + ([125] + rest));
    }
  }

  /** The text of a value, with nothing or a line feed after it, reads back as the value. */
  lemma {:induction false} SerializedReadsBack(numerals: Numerals, v: Json, layout: Layout, end: JsString)
    requires Faithful(numerals) && FiniteNumbers(v) && (end == [] || end == [10])
    ensures ReadJson(numerals, Serialize(numerals, v, layout, 0) + end) == Some(v)
  {
    PrintedIsSerialized(numerals, v, layout, 0, end);
    JsonRoundTrip.PrintedValueReadsBack(numerals, v, layout, end);
  }

  /** Different values have different texts. */
  lemma {:induction false} SerializingIsInjective(numerals: Numerals, a: Json, b: Json, layout: Layout, end: JsString)
    requires Faithful(numerals) && FiniteNumbers(a) && FiniteNumbers(b) && (end == [] || end == [10])
    requires Serialize(numerals, a, layout, 0) + end == Serialize(numerals, b, layout, 0) + end
    ensures a == b
  {
    SerializedReadsBack(numerals, a, layout, end);
    SerializedReadsBack(numerals, b, layout, end);
  }

  // ----- what the text spells out

  lemma {:induction false} OneUnit(u: CodeUnit)
    ensures Quoted([u]) == [34] + EscapeUnitTo(u, [34])
  {
    var s: JsString := [u];
    assert s[1..] == [] && !StartsWithPair(s);
    assert EscapeTo(s[1..], [34]) == [34];
  }

  /** A backslash before quotes and backslashes, and a backslash and a letter for five of the controls. */
  lemma {:induction false} ShortEscapesAre()
    ensures Quoted([34]) == [34, 92, 34, 34] && Quoted([92]) == [34, 92, 92, 34]
    ensures Quoted([8]) == [34, 92, 98, 34] && Quoted([9]) == [34, 92, 116, 34] && Quoted([10]) == [34, 92, 110, 34]
    ensures Quoted([12]) == [34, 92, 102, 34] && Quoted([13]) == [34, 92, 114, 34]
  {
    OneUnit(34);
    OneUnit(92);
    OneUnit(8);
    OneUnit(9);
    OneUnit(10);
    OneUnit(12);
    OneUnit(13);
  }

  /**
   * The other controls and unpaired surrogates by their four hexadecimal digits; all else, pairs
   * included, as it is.
   */
  lemma {:induction false} OtherUnitsAre(u: CodeUnit)
    ensures u != 34 && u != 92 && u >= 32 && !IsHigh(u) && !IsLow(u) ==> Quoted([u]) == [34, u, 34]
    ensures Quoted([1]) == [34, 92, 117, 48, 48, 48, 49, 34] && Quoted([31]) == [34, 92, 117, 48, 48, 49, 102, 34]
    ensures Quoted([0xD83D]) == [34, 92, 117, 100, 56, 51, 100, 34]
    ensures Quoted([0xD83D, 0xDE00]) == [34, 0xD83D, 0xDE00, 34]
  {
    OneUnit(u);
    OneUnit(1);
    OneUnit(31);
    OneUnit(0xD83D);
    var pair: JsString := [0xD83D, 0xDE00];
    assert pair[2..] == [] && EscapeTo(pair[2..], [34]) == [34];
  }

  /** One item to a line, two spaces to a level, a comma after all but the last; nothing of this when compact. */
  lemma {:induction false} ArrayLayoutIs(numerals: Numerals)
    ensures Serialize(numerals, JArray([JNull, JBool(true)]), Compact, 0) == [91] + NULL + [44] + TRUE + [93]
    ensures Serialize(numerals, JArray([JNull, JBool(true)]), Indented, 1) ==
            [91, 10, 32, 32, 32, 32] + NULL + [44, 10, 32, 32, 32, 32] + TRUE + [10, 32, 32, 93]
  {
    LinesAre();
    PairOfItems(numerals, Compact, 0, [], []);
    PairOfItems(numerals, Indented, 1, [10, 32, 32], [10, 32, 32, 32, 32]);
  }

  lemma {:induction false} PairOfItems(numerals: Numerals, layout: Layout, depth: nat, outer: JsString, inner: JsString)
    requires Break(layout, depth) == outer && Break(layout, depth + 1) == inner
    ensures Serialize(numerals, JArray([JNull, JBool(true)]), layout, depth) ==
            [91] + inner + NULL + ([44] + inner) + TRUE + outer + [93]
  {
    var items := [JNull, JBool(true)];
    var joined := Join(SerializeItems(numerals, items, layout, depth + 1), [44] + Break(layout, depth + 1));
    assert joined == NULL + ([44] + inner) + TRUE by {
      TwoParts(numerals, items, layout, depth + 1);
      assert Serialize(numerals, items[0], layout, depth + 1) == NULL
        && Serialize(numerals, items[1], layout, depth + 1) == TRUE;
    }
    assert Serialize(numerals, JArray(items), layout, depth) == [91] + inner + joined + outer + [93];
  }

  /** The same for members, with a colon after the name, and a space after it when indented. */
  lemma {:induction false} ObjectLayoutIs(numerals: Numerals)
    ensures Serialize(numerals, JObject([Member([97], JNull)]), Compact, 0) == [123, 34, 97, 34, 58] + NULL + [125]
    ensures Serialize(numerals, JObject([Member([97], JNull)]), Indented, 0) ==
            [123, 10, 32, 32, 34, 97, 34, 58, 32] + NULL + [10, 125]
  {
    LinesAre();
    SingleMember(numerals, Compact, [], []);
    SingleMember(numerals, Indented, [10], [10, 32, 32]);
  }

  lemma {:induction false} SingleMember(numerals: Numerals, layout: Layout, outer: JsString, inner: JsString)
    requires Break(layout, 0) == outer && Break(layout, 1) == inner
    ensures Serialize(numerals, JObject([Member([97], JNull)]), layout, 0) ==
            [123] + inner + ([34, 97, 34] + Colon(layout) + NULL) + outer + [125]
  {
    var members := [Member([97], JNull)];
    OneUnit(97);
    OneMember(numerals, members, layout);
    assert Quoted([97]) == [34, 97, 34];
  }

  /** The words, and negative zero, which is written with its sign. */
  lemma {:induction false} WordsAre(numerals: Numerals, layout: Layout, depth: nat)
    ensures Serialize(numerals, JNull, layout, depth) == Text("null")
    ensures Serialize(numerals, JBool(true), layout, depth) == Text("true")
    ensures Serialize(numerals, JBool(false), layout, depth) == Text("false")
    ensures Serialize(numerals, JNumber(NEGATIVE_ZERO), layout, depth) == Text("-0")
    ensures forall n :: n != NEGATIVE_ZERO ==> Serialize(numerals, JNumber(n), layout, depth) == numerals.text(n)
    ensures Serialize(numerals, JArray([]), layout, depth) == Text("[]")
    ensures Serialize(numerals, JObject([]), layout, depth) == Text("{}")
  {
  }

  const NULL: JsString := [110, 117, 108, 108]
  const TRUE: JsString := [116, 114, 117, 101]

  lemma {:induction false} LinesAre()
    ensures Break(Indented, 0) == [10] && Break(Indented, 1) == [10, 32, 32]
    ensures Break(Indented, 2) == [10, 32, 32, 32, 32]
  {
    assert Indentation(1) == [32, 32] + Indentation(0);
    assert Indentation(2) == [32, 32] + Indentation(1);
  }

  lemma {:induction false} TwoParts(numerals: Numerals, items: seq<Json>, layout: Layout, depth: nat)
    requires |items| == 2
    ensures Join(SerializeItems(numerals, items, layout, depth), [44] + Break(layout, depth)) ==
            Serialize(numerals, items[0], layout, depth) + ([44] + Break(layout, depth))
            + Serialize(numerals, items[1], layout, depth)
  {
    var parts := SerializeItems(numerals, items, layout, depth);
    var rest := SerializeItems(numerals, items[1..], layout, depth);
    assert items[1..][0] == items[1] && items[1..][1..] == [];
    assert rest == [Serialize(numerals, items[1], layout, depth)];
    assert parts[1..] == rest && rest[1..] == [];
    assert JoinAfter(rest[1..], [44] + Break(layout, depth)) == [];
  }

  lemma {:induction false} OneMember(numerals: Numerals, members: seq<Member>, layout: Layout)
    requires |members| == 1
    ensures Join(SerializeMembers(numerals, members, layout, 1), [44] + Break(layout, 1)) ==
            SerializeMember(numerals, members[0], layout, 1)
  {
    assert members[1..] == [];
    var parts := SerializeMembers(numerals, members, layout, 1);
    assert parts == [SerializeMember(numerals, members[0], layout, 1)] && parts[1..] == [];
    assert JoinAfter(parts[1..], [44] + Break(layout, 1)) == [];
  }
}
