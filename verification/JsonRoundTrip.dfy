/**
 * Reading printed text gives the printed value back, in either layout and at any depth.
 */
module JsonRoundTrip {
  import opened Json
  import opened JsValues
  import opened Outcomes
  import opened Unicode

  lemma {:induction false} HexRoundTrip(u: CodeUnit, rest: JsString)
    ensures ReadHex(HexTo(u, rest)) == Read(u, rest)
  {
    forall d: nat | d < 16
      ensures HexValue(HexDigit(d)) == d
    {
    }
    var s := HexTo(u, rest);
    assert s[0] == HexDigit(u / 4096) && s[1] == HexDigit(u / 256 % 16) && s[2] == HexDigit(u / 16 % 16)
      && s[3] == HexDigit(u % 16);
    assert s[4..] == rest;
    HexDigits(u);
  }

  lemma {:induction false} HexDigits(u: CodeUnit)
    ensures u == u / 4096 * 4096 + u / 256 % 16 * 256 + u / 16 % 16 * 16 + u % 16
  {
    var a := u / 16;
    var b := a / 16;
    assert b == u / 256 && b / 16 == u / 4096;
  }

  lemma {:induction false} EscapedUnitReads(u: CodeUnit, rest: JsString)
    ensures var s := EscapeUnitTo(u, rest);
            if s == [u] + rest then u >= 32 && u != 34 && u != 92
            else s != [] && s[0] == 92 && ReadEscape(s[1..]) == Read(u, rest)
  {
    var s := EscapeUnitTo(u, rest);
    if s != [u] + rest {
      if (u < 32 && u !in {8, 9, 10, 12, 13}) || IsHigh(u) || IsLow(u) {
        assert s[1..][1..] == HexTo(u, rest);
        HexRoundTrip(u, rest);
      } else {
        assert s[1..][1..] == rest;
      }
    } else {
      assert s[0] == u;
    }
  }

  /** Escaped units up to the closing quote read back as the string. */
  lemma {:induction false} UnitsReadBack(s: JsString, rest: JsString)
    ensures ReadUnits(EscapeTo(s, [34] + rest)) == Read(s, rest)
    decreases |s|
  {
    if s == [] {
      assert ([34] + rest)[1..] == rest;
    } else if StartsWithPair(s) {
      var tail := EscapeTo(s[2..], [34] + rest);
      UnitsReadBack(s[2..], rest);
      PlainUnitReads(s[1], tail, s[2..], rest);
      assert [s[0], s[1]] + tail == [s[0]] + ([s[1]] + tail);
      PlainUnitReads(s[0], [s[1]] + tail, [s[1]] + s[2..], rest);
      assert s == [s[0]] + ([s[1]] + s[2..]);
    } else {
      var tail := EscapeTo(s[1..], [34] + rest);
      UnitsReadBack(s[1..], rest);
      EscapedUnitReads(s[0], tail);
      assert s == [s[0]] + s[1..];
      if EscapeUnitTo(s[0], tail) == [s[0]] + tail {
        PlainUnitReads(s[0], tail, s[1..], rest);
      }
    }
  }

  lemma {:induction false} PlainUnitReads(u: CodeUnit, tail: JsString, more: JsString, rest: JsString)
    requires u >= 32 && u != 34 && u != 92 && ReadUnits(tail) == Read(more, rest)
    ensures ReadUnits([u] + tail) == Read([u] + more, rest)
  {
    assert ([u] + tail)[1..] == tail;
  }

  lemma {:induction false} SpacesAreSkipped(n: nat, rest: JsString)
    ensures SkipSpace(SpacesTo(n, rest)) == SkipSpace(rest)
  {
    if n > 0 {
      SpacesAreSkipped(n - 1, rest);
      assert ([32] + SpacesTo(n - 1, rest))[1..] == SpacesTo(n - 1, rest);
    }
  }

  lemma {:induction false} LineIsSkipped(layout: Layout, depth: nat, rest: JsString)
    ensures SkipSpace(LineTo(layout, depth, rest)) == SkipSpace(rest)
  {
    if layout.Indented? {
      SpacesAreSkipped(2 * depth, rest);
      assert ([10] + SpacesTo(2 * depth, rest))[1..] == SpacesTo(2 * depth, rest);
    }
  }

  /** Nothing that could extend a number. */
  ghost predicate Boundary(rest: JsString) {
    rest == [] || !IsNumeralUnit(rest[0])
  }

  lemma {:induction false} NumeralRunStops(s: JsString, rest: JsString)
    requires AllNumeralUnits(s) && Boundary(rest)
    ensures NumeralRun(s + rest) == |s|
  {
    if s == [] {
      assert s + rest == rest;
    } else {
      assert (s + rest)[1..] == s[1..] + rest;
      NumeralRunStops(s[1..], rest);
    }
  }

  lemma {:induction false} NumberReadsBack(numerals: Numerals, n: Number, rest: JsString)
    requires Faithful(numerals) && IsFinite(n) && Boundary(rest)
    ensures ReadValue(numerals, NumberText(numerals, n) + rest) == Read(JNumber(n), rest)
  {
    var text := NumberText(numerals, n);
    assert IsNumeral(text) && numerals.read(text) == Some(n);
    NumeralIsNumeralUnits(text);
    NumeralRunStops(text, rest);
    var s := text + rest;
    assert SkipSpace(s) == s && s[0] == text[0];
    assert s[..|text|] == text && s[|text|..] == rest;
  }

  lemma {:induction false} WordReadsBack(numerals: Numerals, v: Json, rest: JsString)
    requires v.JNull? || v.JBool?
    ensures ReadValue(numerals, PrintTo(numerals, v, Compact, 0, rest)) == Read(v, rest)
    ensures forall layout, depth :: PrintTo(numerals, v, layout, depth, rest) == PrintTo(numerals, v, Compact, 0, rest)
  {
    var word: JsString := match v
      case JNull => [110, 117, 108, 108]
      case JBool(b) => if b then [116, 114, 117, 101] else [102, 97, 108, 115, 101]
      case _ => [];
    var s := word + rest;
    assert PrintTo(numerals, v, Compact, 0, rest) == s;
    assert s[..|word|] == word && s[|word|..] == rest;
    assert SkipSpace(s) == s && s[0] == word[0];
  }

  /** Reading skips leading white space. */
  lemma {:induction false} LeadingSpaceIsSkipped(numerals: Numerals, a: JsString, b: JsString)
    requires SkipSpace(a) == SkipSpace(b)
    ensures ReadValue(numerals, a) == ReadValue(numerals, b)
    ensures ReadMember(numerals, a) == ReadMember(numerals, b)
    ensures ReadItems(numerals, a) == ReadItems(numerals, b)
    ensures ReadMembers(numerals, a) == ReadMembers(numerals, b)
  {
  }

  lemma {:induction false} StringReadsBack(numerals: Numerals, s: JsString, rest: JsString)
    ensures ReadValue(numerals, QuoteTo(s, rest)) == Read(JString(s), rest)
  {
    UnitsReadBack(s, rest);
    var text := QuoteTo(s, rest);
    assert text[1..] == EscapeTo(s, [34] + rest);
    assert SkipSpace(text) == text;
  }

  /** The text of a value does not begin with white space or a closing bracket. */
  lemma {:induction false} ValueStart(numerals: Numerals, v: Json, layout: Layout, depth: nat, rest: JsString)
    requires Faithful(numerals) && FiniteNumbers(v)
    ensures var text := PrintTo(numerals, v, layout, depth, rest);
            text != [] && !IsSpace(text[0]) && text[0] != 93 && SkipSpace(text) == text
  {
    if v.JNumber? {
      NumeralIsNumeralUnits(NumberText(numerals, v.n));
    }
  }

  lemma {:induction false} ValueReadsBack(numerals: Numerals, v: Json, layout: Layout, depth: nat, rest: JsString)
    requires Faithful(numerals) && FiniteNumbers(v) && Boundary(rest)
    ensures ReadValue(numerals, PrintTo(numerals, v, layout, depth, rest)) == Read(v, rest)
    decreases v, 0
  {
    match v
    case JNull => WordReadsBack(numerals, v, rest);
    case JBool(_) => WordReadsBack(numerals, v, rest);
    case JNumber(n) => NumberReadsBack(numerals, n, rest);
    case JString(s) => StringReadsBack(numerals, s, rest);
    case JArray(items) => ArrayReadsBack(numerals, items, layout, depth, rest);
    case JObject(members) => ObjectReadsBack(numerals, members, layout, depth, rest);
  }

  /** A bracket, a first item and the rest of the items read as an array. */
  lemma {:induction false} FirstItemReads(numerals: Numerals, layout: Layout, depth: nat, first: JsString, item: Json,
      more: JsString, items: seq<Json>, rest: JsString)
    requires ReadValue(numerals, first) == Read(item, more) && ReadItems(numerals, more) == Read(items, rest)
    requires first != [] && first[0] != 93 && SkipSpace(first) == first
    ensures ReadValue(numerals, [91] + LineTo(layout, depth, first)) == Read(JArray([item] + items), rest)
  {
    var text := [91] + LineTo(layout, depth, first);
    assert text[1..] == LineTo(layout, depth, first) && SkipSpace(text) == text;
    LineIsSkipped(layout, depth, first);
    LeadingSpaceIsSkipped(numerals, text[1..], first);
  }

  lemma {:induction false} NextItemReads(numerals: Numerals, layout: Layout, depth: nat, first: JsString, item: Json,
      more: JsString, items: seq<Json>, rest: JsString)
    requires ReadValue(numerals, first) == Read(item, more) && ReadItems(numerals, more) == Read(items, rest)
    ensures ReadItems(numerals, [44] + LineTo(layout, depth, first)) == Read([item] + items, rest)
  {
    var text := [44] + LineTo(layout, depth, first);
    assert text[1..] == LineTo(layout, depth, first) && SkipSpace(text) == text;
    LineIsSkipped(layout, depth, first);
    LeadingSpaceIsSkipped(numerals, text[1..], first);
  }

  /** A closing bracket after a line break ends a list. */
  lemma {:induction false} CloseReads(numerals: Numerals, layout: Layout, depth: nat, rest: JsString)
    ensures Boundary(LineTo(layout, depth, [93] + rest)) && Boundary(LineTo(layout, depth, [125] + rest))
    ensures ReadItems(numerals, LineTo(layout, depth, [93] + rest)) == Read([], rest)
    ensures ReadMembers(numerals, LineTo(layout, depth, [125] + rest)) == Read([], rest)
  {
    LineIsSkipped(layout, depth, [93] + rest);
    LineIsSkipped(layout, depth, [125] + rest);
    assert ([93] + rest)[1..] == rest && ([125] + rest)[1..] == rest;
  }

  lemma {:induction false} ArrayReadsBack(numerals: Numerals, items: seq<Json>, layout: Layout, depth: nat,
      rest: JsString)
    requires Faithful(numerals) && FiniteNumbers(JArray(items))
    ensures ReadValue(numerals, PrintTo(numerals, JArray(items), layout, depth, rest)) == Read(JArray(items), rest)
    decreases items, 1
  {
    if items == [] {
      var text := [91, 93] + rest;
      assert SkipSpace(text) == text && text[1..] == [93] + rest && text[1..][1..] == rest;
    } else {
      var more := ItemsTo(numerals, items[1..], layout, depth, rest);
      var first := PrintTo(numerals, items[0], layout, depth + 1, more);
      ItemsReadBack(numerals, items[1..], layout, depth, rest);
      ValueReadsBack(numerals, items[0], layout, depth + 1, more);
      ValueStart(numerals, items[0], layout, depth + 1, more);
      FirstItemReads(numerals, layout, depth + 1, first, items[0], more, items[1..], rest);
      assert items == [items[0]] + items[1..];
    }
  }

  lemma {:induction false} ItemsReadBack(numerals: Numerals, items: seq<Json>, layout: Layout, depth: nat,
      rest: JsString)
    requires Faithful(numerals) && forall i :: 0 <= i < |items| ==> FiniteNumbers(items[i])
    ensures Boundary(ItemsTo(numerals, items, layout, depth, rest))
    ensures ReadItems(numerals, ItemsTo(numerals, items, layout, depth, rest)) == Read(items, rest)
    decreases items, 0
  {
    if items == [] {
      CloseReads(numerals, layout, depth, rest);
    } else {
      var more := ItemsTo(numerals, items[1..], layout, depth, rest);
      ItemsReadBack(numerals, items[1..], layout, depth, rest);
      ValueReadsBack(numerals, items[0], layout, depth + 1, more);
      NextItemReads(numerals, layout, depth + 1, PrintTo(numerals, items[0], layout, depth + 1, more), items[0], more,
        items[1..], rest);
      assert items == [items[0]] + items[1..];
    }
  }

  lemma {:induction false} MemberReadsBack(numerals: Numerals, member: Member, layout: Layout, depth: nat,
      rest: JsString)
    requires Faithful(numerals) && FiniteNumbers(member.value) && Boundary(rest)
    ensures ReadMember(numerals, MemberTo(numerals, member, layout, depth, rest)) == Read(member, rest)
    decreases member, 1
  {
    var value := PrintTo(numerals, member.value, layout, depth, rest);
    var spaced := if layout.Compact? then value else [32] + value;
    var text := MemberTo(numerals, member, layout, depth, rest);
    UnitsReadBack(member.name, [58] + spaced);
    assert text == [34] + EscapeTo(member.name, [34] + ([58] + spaced));
    assert SkipSpace(text) == text && text[1..] == EscapeTo(member.name, [34] + ([58] + spaced));
    assert SkipSpace([58] + spaced) == [58] + spaced && ([58] + spaced)[1..] == spaced;
    ValueReadsBack(numerals, member.value, layout, depth, rest);
    if layout.Indented? {
      assert spaced[1..] == value;
      LeadingSpaceIsSkipped(numerals, spaced, value);
    }
  }

  lemma {:induction false} FirstMemberReads(numerals: Numerals, layout: Layout, depth: nat, first: JsString,
      member: Member, more: JsString, members: seq<Member>, rest: JsString)
    requires ReadMember(numerals, first) == Read(member, more) && ReadMembers(numerals, more) == Read(members, rest)
    requires first != [] && first[0] == 34
    ensures ReadValue(numerals, [123] + LineTo(layout, depth, first)) == Read(JObject([member] + members), rest)
  {
    var text := [123] + LineTo(layout, depth, first);
    assert text[1..] == LineTo(layout, depth, first) && SkipSpace(text) == text && SkipSpace(first) == first;
    LineIsSkipped(layout, depth, first);
    LeadingSpaceIsSkipped(numerals, text[1..], first);
  }

  lemma {:induction false} NextMemberReads(numerals: Numerals, layout: Layout, depth: nat, first: JsString,
      member: Member, more: JsString, members: seq<Member>, rest: JsString)
    requires ReadMember(numerals, first) == Read(member, more) && ReadMembers(numerals, more) == Read(members, rest)
    ensures ReadMembers(numerals, [44] + LineTo(layout, depth, first)) == Read([member] + members, rest)
  {
    var text := [44] + LineTo(layout, depth, first);
    assert text[1..] == LineTo(layout, depth, first) && SkipSpace(text) == text;
    LineIsSkipped(layout, depth, first);
    LeadingSpaceIsSkipped(numerals, text[1..], first);
  }

  lemma {:induction false} ObjectReadsBack(numerals: Numerals, members: seq<Member>, layout: Layout, depth: nat,
      rest: JsString)
    requires Faithful(numerals) && FiniteNumbers(JObject(members))
    ensures ReadValue(numerals, PrintTo(numerals, JObject(members), layout, depth, rest)) ==
            Read(JObject(members), rest)
    decreases members, 1
  {
    if members == [] {
      var text := [123, 125] + rest;
      assert SkipSpace(text) == text && text[1..] == [125] + rest && text[1..][1..] == rest;
    } else {
      var more := MembersTo(numerals, members[1..], layout, depth, rest);
      var first := MemberTo(numerals, members[0], layout, depth + 1, more);
      MembersReadBack(numerals, members[1..], layout, depth, rest);
      MemberReadsBack(numerals, members[0], layout, depth + 1, more);
      FirstMemberReads(numerals, layout, depth + 1, first, members[0], more, members[1..], rest);
      assert members == [members[0]] + members[1..];
    }
  }

  lemma {:induction false} MembersReadBack(numerals: Numerals, members: seq<Member>, layout: Layout, depth: nat,
      rest: JsString)
    requires Faithful(numerals) && forall i :: 0 <= i < |members| ==> FiniteNumbers(members[i].value)
    ensures Boundary(MembersTo(numerals, members, layout, depth, rest))
    ensures ReadMembers(numerals, MembersTo(numerals, members, layout, depth, rest)) == Read(members, rest)
    decreases members, 0
  {
    if members == [] {
      CloseReads(numerals, layout, depth, rest);
    } else {
      var more := MembersTo(numerals, members[1..], layout, depth, rest);
      MembersReadBack(numerals, members[1..], layout, depth, rest);
      MemberReadsBack(numerals, members[0], layout, depth + 1, more);
      NextMemberReads(numerals, layout, depth + 1, MemberTo(numerals, members[0], layout, depth + 1, more), members[0],
        more, members[1..], rest);
      assert members == [members[0]] + members[1..];
    }
  }

  /** A printed value, followed by nothing but white space, reads back as itself. */
  lemma {:induction false} PrintedValueReadsBack(numerals: Numerals, v: Json, layout: Layout, end: JsString)
    requires Faithful(numerals) && FiniteNumbers(v) && (end == [] || end == [10])
    ensures ReadJson(numerals, PrintTo(numerals, v, layout, 0, end)) == Some(v)
  {
    ValueReadsBack(numerals, v, layout, 0, end);
    assert end != [] ==> end[1..] == [];
  }
}
