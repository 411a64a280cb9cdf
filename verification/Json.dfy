/**
 * JSON values, their printed text in a compact and an indented layout, and a reader for the
 * grammar of sections 2 to 7 of RFC 8259 that takes printed text back.
 */
module Json {
  import opened JsValues
  import opened Outcomes
  import opened Unicode

  datatype Json =
    | JNull
    | JBool(b: bool)
    | JNumber(n: Number)
    | JString(s: JsString)
    | JArray(items: seq<Json>)
    | JObject(members: seq<Member>)

  datatype Member = Member(name: JsString, value: Json)

  /** Conversion between finite numbers and their shortest decimal text, left open. */
  datatype Numerals = Numerals(text: Number -> JsString, read: JsString -> Option<Number>)

  /** Texts of numbers follow the JSON grammar and read back; negative zero is spelled separately. */
  ghost predicate Faithful(numerals: Numerals) {
    && (forall n :: IsFinite(n) && n != NEGATIVE_ZERO ==>
          IsNumeral(numerals.text(n)) && numerals.read(numerals.text(n)) == Some(n))
    && numerals.read(MINUS_ZERO) == Some(NEGATIVE_ZERO)
  }

  const MINUS_ZERO: JsString := [45, 48]

  ghost predicate FiniteNumbers(v: Json) {
    match v
    case JNumber(n) => IsFinite(n)
    case JArray(items) => forall i :: 0 <= i < |items| ==> FiniteNumbers(items[i])
    case JObject(members) => forall i :: 0 <= i < |members| ==> FiniteNumbers(members[i].value)
    case _ => true
  }

  // ----- the number grammar

  predicate IsDigit(u: CodeUnit) {
    48 <= u <= 57
  }

  predicate StartsWithDigit(s: JsString) {
    s != [] && IsDigit(s[0])
  }

  function DropDigits(s: JsString): (rest: JsString)
    ensures |rest| <= |s|
  {
    if StartsWithDigit(s) then DropDigits(s[1..]) else s
  }

  predicate IsExponent(s: JsString) {
    s == [] ||
    ((s[0] == 101 || s[0] == 69) &&
     var digits := if |s| > 1 && (s[1] == 43 || s[1] == 45) then s[2..] else s[1..];
     StartsWithDigit(digits) && DropDigits(digits) == [])
  }

  predicate IsFractionAndExponent(s: JsString) {
    if s != [] && s[0] == 46 then StartsWithDigit(s[1..]) && IsExponent(DropDigits(s[1..]))
    else IsExponent(s)
  }

  /** minus? (zero or digits without a leading zero) fraction? exponent? */
  predicate IsNumeral(s: JsString) {
    var digits := if s != [] && s[0] == 45 then s[1..] else s;
    StartsWithDigit(digits) && IsFractionAndExponent(if digits[0] == 48 then digits[1..] else DropDigits(digits))
  }

  predicate IsNumeralUnit(u: CodeUnit) {
    IsDigit(u) || u == 43 || u == 45 || u == 46 || u == 69 || u == 101
  }

  ghost predicate AllNumeralUnits(s: JsString) {
    forall i :: 0 <= i < |s| ==> IsNumeralUnit(s[i])
  }

  lemma {:induction false} DigitsAreNumeralUnits(s: JsString)
    requires AllNumeralUnits(DropDigits(s))
    ensures AllNumeralUnits(s)
  {
    if StartsWithDigit(s) {
      DigitsAreNumeralUnits(s[1..]);
      assert s == [s[0]] + s[1..];
    }
  }

  lemma {:induction false} ExponentIsNumeralUnits(s: JsString)
    requires IsExponent(s)
    ensures AllNumeralUnits(s)
  {
    if s != [] {
      var digits := if |s| > 1 && (s[1] == 43 || s[1] == 45) then s[2..] else s[1..];
      DigitsAreNumeralUnits(digits);
      assert forall i :: |s| - |digits| <= i < |s| ==> s[i] == digits[i - (|s| - |digits|)];
    }
  }

  lemma {:induction false} NumeralIsNumeralUnits(s: JsString)
    requires IsNumeral(s)
    ensures AllNumeralUnits(s) && s != [] && (s[0] == 45 || IsDigit(s[0]))
  {
    var digits := if s != [] && s[0] == 45 then s[1..] else s;
    var rest := if digits[0] == 48 then digits[1..] else DropDigits(digits);
    if rest != [] && rest[0] == 46 {
      ExponentIsNumeralUnits(DropDigits(rest[1..]));
      DigitsAreNumeralUnits(rest[1..]);
      assert rest == [rest[0]] + rest[1..];
    } else {
      ExponentIsNumeralUnits(rest);
    }
    if digits[0] == 48 {
      assert digits == [digits[0]] + digits[1..];
    } else {
      DigitsAreNumeralUnits(digits);
    }
    assert s == (if s[0] == 45 then [s[0]] else []) + digits;
  }

  // ----- the number grammar of section 6 of RFC 8259, piece by piece

  ghost predicate OnlyDigits(s: JsString) {
    forall i :: 0 <= i < |s| ==> s[i] in {48, 49, 50, 51, 52, 53, 54, 55, 56, 57}
  }

  ghost predicate Digits(s: JsString) {
    s != [] && OnlyDigits(s)
  }

  ghost predicate Exponent(s: JsString) {
    && |s| > 1 && s[0] in {69, 101}
    && (Digits(s[1..]) || (s[1] in {43, 45} && Digits(s[2..])))
  }

  /** A minus or nothing, digits without a leading zero, a point and digits or nothing, an exponent or nothing. */
  ghost predicate NumeralPieces(s: JsString, sign: JsString, whole: JsString, fraction: JsString, exponent: JsString) {
    && s == sign + whole + fraction + exponent
    && (sign == [] || sign == [45])
    && Digits(whole) && (whole[0] == 48 ==> |whole| == 1)
    && (fraction == [] || (fraction[0] == 46 && Digits(fraction[1..])))
    && (exponent == [] || Exponent(exponent))
  }

  ghost predicate HasNumeralPieces(s: JsString) {
    exists sign, whole, fraction, exponent :: NumeralPieces(s, sign, whole, fraction, exponent)
  }

  lemma {:induction false} DroppedDigits(s: JsString) returns (digits: JsString)
    ensures s == digits + DropDigits(s) && OnlyDigits(digits) && !StartsWithDigit(DropDigits(s))
    ensures digits != [] <==> StartsWithDigit(s)
  {
    if StartsWithDigit(s) {
      var rest := DroppedDigits(s[1..]);
      digits := [s[0]] + rest;
    } else {
      digits := [];
    }
  }

  lemma {:induction false} DigitsAreDropped(digits: JsString, rest: JsString)
    requires OnlyDigits(digits) && !StartsWithDigit(rest)
    ensures DropDigits(digits + rest) == rest
  {
    if digits == [] {
      assert digits + rest == rest;
    } else {
      assert (digits + rest)[1..] == digits[1..] + rest;
      DigitsAreDropped(digits[1..], rest);
    }
  }

  lemma {:induction false} ExponentIs(s: JsString)
    ensures IsExponent(s) <==> s == [] || Exponent(s)
  {
    if |s| > 1 {
      OnlyDigitsDrop(s[1..]);
      OnlyDigitsDrop(s[2..]);
    }
  }

  lemma {:induction false} OnlyDigitsDrop(s: JsString)
    ensures Digits(s) <==> StartsWithDigit(s) && DropDigits(s) == []
  {
    if Digits(s) {
      assert s + [] == s;
      DigitsAreDropped(s, []);
    }
    if StartsWithDigit(s) && DropDigits(s) == [] {
      var digits := DroppedDigits(s);
    }
  }

  lemma {:induction false} FractionAndExponentAre(fraction: JsString, exponent: JsString)
    requires fraction == [] || (fraction[0] == 46 && Digits(fraction[1..]))
    requires exponent == [] || Exponent(exponent)
    ensures IsFractionAndExponent(fraction + exponent) && !StartsWithDigit(fraction + exponent)
  {
    var s := fraction + exponent;
    ExponentIs(exponent);
    if fraction == [] {
      assert s == exponent;
    } else {
      assert s[1..] == fraction[1..] + exponent;
      DigitsAreDropped(fraction[1..], exponent);
    }
  }

  lemma {:induction false} PiecesMakeNumeral(s: JsString, sign: JsString, whole: JsString, fraction: JsString,
      exponent: JsString)
    requires NumeralPieces(s, sign, whole, fraction, exponent)
    ensures IsNumeral(s)
  {
    var rest := fraction + exponent;
    FractionAndExponentAre(fraction, exponent);
    DigitsAreDropped(whole, rest);
    assert s == sign + (whole + rest);
    assert (if s[0] == 45 then s[1..] else s) == whole + rest;
    assert whole[0] == 48 ==> (whole + rest)[1..] == rest;
  }

  lemma {:induction false} WholePart(s: JsString) returns (whole: JsString, rest: JsString)
    requires StartsWithDigit(s)
    ensures s == whole + rest && Digits(whole) && (whole[0] == 48 ==> |whole| == 1)
    ensures rest == if s[0] == 48 then s[1..] else DropDigits(s)
  {
    if s[0] == 48 {
      whole, rest := [48], s[1..];
    } else {
      whole := DroppedDigits(s);
      rest := DropDigits(s);
    }
  }

  lemma {:induction false} FractionPart(s: JsString) returns (fraction: JsString, exponent: JsString)
    requires IsFractionAndExponent(s)
    ensures s == fraction + exponent && (exponent == [] || Exponent(exponent))
    ensures fraction == [] || (fraction[0] == 46 && Digits(fraction[1..]))
  {
    if s != [] && s[0] == 46 {
      var point := DroppedDigits(s[1..]);
      fraction, exponent := [46] + point, DropDigits(s[1..]);
      assert fraction[1..] == point;
    } else {
      fraction, exponent := [], s;
    }
    ExponentIs(exponent);
  }

  lemma {:induction false} FourPieces(a: JsString, b: JsString, c: JsString, d: JsString)
    ensures a + (b + (c + d)) == a + b + c + d
  {
  }

  lemma {:induction false} NumeralHasPieces(s: JsString)
    requires IsNumeral(s)
    ensures HasNumeralPieces(s)
  {
    var sign: JsString := if s[0] == 45 then [45] else [];
    var whole, rest := WholePart(if s[0] == 45 then s[1..] else s);
    var fraction, exponent := FractionPart(rest);
    FourPieces(sign, whole, fraction, exponent);
    assert s == sign + (whole + rest);
    assert NumeralPieces(s, sign, whole, fraction, exponent);
  }

  /** The texts taken for numbers are exactly those of the number grammar of section 6 of RFC 8259. */
  lemma {:induction false} NumeralsAre(s: JsString)
    ensures IsNumeral(s) <==> HasNumeralPieces(s)
  {
    if IsNumeral(s) {
      NumeralHasPieces(s);
    }
    if sign, whole, fraction, exponent :| NumeralPieces(s, sign, whole, fraction, exponent) {
      PiecesMakeNumeral(s, sign, whole, fraction, exponent);
    }
  }

  // ----- printing: each function gives the printed text followed by `rest`

  datatype Layout = Compact | Indented

  function HexDigit(d: nat): CodeUnit
    requires d < 16
  {
    if d < 10 then 48 + d else 87 + d
  }

  function HexTo(u: CodeUnit, rest: JsString): JsString {
    [HexDigit(u / 4096), HexDigit(u / 256 % 16), HexDigit(u / 16 % 16), HexDigit(u % 16)] + rest
  }

  /** Quotes, backslashes and controls are escaped, and so is half of a surrogate pair; all else is verbatim. */
  function EscapeTo(s: JsString, rest: JsString): JsString {
    if s == [] then rest
    else if StartsWithPair(s) then [s[0], s[1]] + EscapeTo(s[2..], rest)
    else EscapeUnitTo(s[0], EscapeTo(s[1..], rest))
  }

  function EscapeUnitTo(u: CodeUnit, rest: JsString): JsString {
    if u == 34 then [92, 34] + rest
    else if u == 92 then [92, 92] + rest
    else if u == 8 then [92, 98] + rest
    else if u == 9 then [92, 116] + rest
    else if u == 10 then [92, 110] + rest
    else if u == 12 then [92, 102] + rest
    else if u == 13 then [92, 114] + rest
    else if u < 32 || IsHigh(u) || IsLow(u) then [92, 117] + HexTo(u, rest)
    else [u] + rest
  }

  function QuoteTo(s: JsString, rest: JsString): JsString {
    [34] + EscapeTo(s, [34] + rest)
  }

  function SpacesTo(n: nat, rest: JsString): JsString {
    if n == 0 then rest else [32] + SpacesTo(n - 1, rest)
  }

  /** A line break and two spaces per level, or nothing when compact. */
  function LineTo(layout: Layout, depth: nat, rest: JsString): JsString {
    if layout.Compact? then rest else [10] + SpacesTo(2 * depth, rest)
  }

  function NumberText(numerals: Numerals, n: Number): JsString {
    if n == NEGATIVE_ZERO then MINUS_ZERO else numerals.text(n)
  }

  function PrintTo(numerals: Numerals, v: Json, layout: Layout, depth: nat, rest: JsString): JsString
    decreases v
  {
    match v
    case JNull => [110, 117, 108, 108] + rest
    case JBool(b) => (if b then [116, 114, 117, 101] else [102, 97, 108, 115, 101]) + rest
    case JNumber(n) => NumberText(numerals, n) + rest
    case JString(s) => QuoteTo(s, rest)
    case JArray(items) =>
      if items == [] then [91, 93] + rest
      else [91] + LineTo(layout, depth + 1, PrintTo(numerals, items[0], layout, depth + 1,
                                                    ItemsTo(numerals, items[1..], layout, depth, rest)))
    case JObject(members) =>
      if members == [] then [123, 125] + rest
      else [123] + LineTo(layout, depth + 1, MemberTo(numerals, members[0], layout, depth + 1,
                                                      MembersTo(numerals, members[1..], layout, depth, rest)))
  }

  /** The remaining items of an array, each after a comma, and the closing bracket. */
  function ItemsTo(numerals: Numerals, items: seq<Json>, layout: Layout, depth: nat, rest: JsString): JsString
    decreases items
  {
    if items == [] then LineTo(layout, depth, [93] + rest)
    else [44] + LineTo(layout, depth + 1, PrintTo(numerals, items[0], layout, depth + 1,
                                                  ItemsTo(numerals, items[1..], layout, depth, rest)))
  }

  function MemberTo(numerals: Numerals, member: Member, layout: Layout, depth: nat, rest: JsString): JsString
    decreases member
  {
    QuoteTo(member.name, [58] + (if layout.Compact? then PrintTo(numerals, member.value, layout, depth, rest)
                                 else [32] + PrintTo(numerals, member.value, layout, depth, rest)))
  }

  function MembersTo(numerals: Numerals, members: seq<Member>, layout: Layout, depth: nat, rest: JsString): JsString
    decreases members
  {
    if members == [] then LineTo(layout, depth, [125] + rest)
    else [44] + LineTo(layout, depth + 1, MemberTo(numerals, members[0], layout, depth + 1,
                                                   MembersTo(numerals, members[1..], layout, depth, rest)))
  }

  // ----- reading

  /** A value and what is left of the text. */
  datatype Reading<+T> = Read(value: T, rest: JsString) | Malformed

  predicate IsSpace(u: CodeUnit) {
    u == 32 || u == 9 || u == 10 || u == 13
  }

  function SkipSpace(s: JsString): (rest: JsString)
    ensures |rest| <= |s|
  {
    if s != [] && IsSpace(s[0]) then SkipSpace(s[1..]) else s
  }

  function HexValue(u: CodeUnit): int {
    if 48 <= u <= 57 then u - 48
    else if 97 <= u <= 102 then u - 87
    else if 65 <= u <= 70 then u - 55
    else -1
  }

  function ReadHex(s: JsString): (r: Reading<CodeUnit>)
    ensures r.Read? ==> |r.rest| < |s|
  {
    if |s| < 4 || HexValue(s[0]) < 0 || HexValue(s[1]) < 0 || HexValue(s[2]) < 0 || HexValue(s[3]) < 0 then Malformed
    else Read(HexValue(s[0]) * 4096 + HexValue(s[1]) * 256 + HexValue(s[2]) * 16 + HexValue(s[3]), s[4..])
  }

  /** The unit a backslash escape stands for; the text starts after the backslash. */
  function ReadEscape(s: JsString): (r: Reading<CodeUnit>)
    ensures r.Read? ==> |r.rest| < |s|
  {
    if s == [] then Malformed
    else if s[0] == 34 || s[0] == 92 || s[0] == 47 then Read(s[0], s[1..])
    else if s[0] == 98 then Read(8, s[1..])
    else if s[0] == 102 then Read(12, s[1..])
    else if s[0] == 110 then Read(10, s[1..])
    else if s[0] == 114 then Read(13, s[1..])
    else if s[0] == 116 then Read(9, s[1..])
    else if s[0] == 117 then ReadHex(s[1..])
    else Malformed
  }

  /** The escapes of section 7 of RFC 8259, the hexadecimal ones with digits of either case, and no others. */
  lemma {:induction false} EscapesAre(u: CodeUnit, rest: JsString)
    ensures HexValue(u) ==
            if u in {48, 49, 50, 51, 52, 53, 54, 55, 56, 57} then u - 48
            else if u in {97, 98, 99, 100, 101, 102} then 10 + u - 97
            else if u in {65, 66, 67, 68, 69, 70} then 10 + u - 65
            else -1
    ensures ReadEscape([u] + rest).Read? ==> u in {34, 47, 92, 98, 102, 110, 114, 116, 117}
    ensures u in {34, 47, 92} ==> ReadEscape([u] + rest) == Read(u, rest)
    ensures ReadEscape([98] + rest) == Read(8, rest) && ReadEscape([116] + rest) == Read(9, rest)
    ensures ReadEscape([110] + rest) == Read(10, rest) && ReadEscape([102] + rest) == Read(12, rest)
    ensures ReadEscape([114] + rest) == Read(13, rest)
  {
    assert ([u] + rest)[1..] == rest;
    forall letter: CodeUnit
      ensures ([letter] + rest)[0] == letter && ([letter] + rest)[1..] == rest
    {
    }
  }

  /** The units of a string up to its closing quote. */
  function ReadUnits(s: JsString): (r: Reading<JsString>)
    ensures r.Read? ==> |r.rest| < |s|
    decreases |s|
  {
    if s == [] || s[0] < 32 then Malformed
    else if s[0] == 34 then Read([], s[1..])
    else if s[0] == 92 then
      match ReadEscape(s[1..])
      case Malformed => Malformed
      case Read(u, rest) =>
        (match ReadUnits(rest) case Malformed => Malformed case Read(more, end) => Read([u] + more, end))
    else match ReadUnits(s[1..])
      case Malformed => Malformed
      case Read(more, end) => Read([s[0]] + more, end)
  }

  function NumeralRun(s: JsString): (n: nat)
    ensures n <= |s|
  {
    if s != [] && IsNumeralUnit(s[0]) then 1 + NumeralRun(s[1..]) else 0
  }

  function ReadNumber(numerals: Numerals, s: JsString): (r: Reading<Json>)
    ensures r.Read? ==> |r.rest| < |s|
  {
    var n := NumeralRun(s);
    if !IsNumeral(s[..n]) then Malformed
    else match numerals.read(s[..n])
      case None => Malformed
      case Some(number) => Read(JNumber(number), s[n..])
  }

  function ReadWord(word: JsString, v: Json, s: JsString): (r: Reading<Json>)
    requires word != []
    ensures r.Read? ==> |r.rest| < |s|
  {
    if |s| >= |word| && s[..|word|] == word then Read(v, s[|word|..]) else Malformed
  }

  function ReadValue(numerals: Numerals, text: JsString): (r: Reading<Json>)
    ensures r.Read? ==> |r.rest| < |text|
    decreases |text|, 0
  {
    var s := SkipSpace(text);
    if s == [] then Malformed
    else if s[0] == 34 then
      (match ReadUnits(s[1..]) case Malformed => Malformed case Read(units, rest) => Read(JString(units), rest))
    else if s[0] == 91 then ReadArray(numerals, s[1..])
    else if s[0] == 123 then ReadObject(numerals, s[1..])
    else if s[0] == 110 then ReadWord([110, 117, 108, 108], JNull, s)
    else if s[0] == 116 then ReadWord([116, 114, 117, 101], JBool(true), s)
    else if s[0] == 102 then ReadWord([102, 97, 108, 115, 101], JBool(false), s)
    else ReadNumber(numerals, s)
  }

  function ReadArray(numerals: Numerals, text: JsString): (r: Reading<Json>)
    ensures r.Read? ==> |r.rest| < |text|
    decreases |text|, 2
  {
    var s := SkipSpace(text);
    if s != [] && s[0] == 93 then Read(JArray([]), s[1..])
    else match ReadValue(numerals, text)
      case Malformed => Malformed
      case Read(first, rest) =>
        match ReadItems(numerals, rest)
        case Malformed => Malformed
        case Read(items, end) => Read(JArray([first] + items), end)
  }

  /** What follows an item: a closing bracket, or a comma and more items. */
  function ReadItems(numerals: Numerals, text: JsString): (r: Reading<seq<Json>>)
    ensures r.Read? ==> |r.rest| < |text|
    decreases |text|, 1
  {
    var s := SkipSpace(text);
    if s == [] then Malformed
    else if s[0] == 93 then Read([], s[1..])
    else if s[0] != 44 then Malformed
    else match ReadValue(numerals, s[1..])
      case Malformed => Malformed
      case Read(first, rest) =>
        match ReadItems(numerals, rest)
        case Malformed => Malformed
        case Read(items, end) => Read([first] + items, end)
  }

  function ReadObject(numerals: Numerals, text: JsString): (r: Reading<Json>)
    ensures r.Read? ==> |r.rest| < |text|
    decreases |text|, 2
  {
    var s := SkipSpace(text);
    if s != [] && s[0] == 125 then Read(JObject([]), s[1..])
    else match ReadMember(numerals, text)
      case Malformed => Malformed
      case Read(first, rest) =>
        match ReadMembers(numerals, rest)
        case Malformed => Malformed
        case Read(members, end) => Read(JObject([first] + members), end)
  }

  function ReadMember(numerals: Numerals, text: JsString): (r: Reading<Member>)
    ensures r.Read? ==> |r.rest| < |text|
    decreases |text|, 1
  {
    var s := SkipSpace(text);
    if s == [] || s[0] != 34 then Malformed
    else match ReadUnits(s[1..])
      case Malformed => Malformed
      case Read(name, afterName) =>
        var colon := SkipSpace(afterName);
        if colon == [] || colon[0] != 58 then Malformed
        else match ReadValue(numerals, colon[1..])
          case Malformed => Malformed
          case Read(value, rest) => Read(Member(name, value), rest)
  }

  function ReadMembers(numerals: Numerals, text: JsString): (r: Reading<seq<Member>>)
    ensures r.Read? ==> |r.rest| < |text|
    decreases |text|, 1
  {
    var s := SkipSpace(text);
    if s == [] then Malformed
    else if s[0] == 125 then Read([], s[1..])
    else if s[0] != 44 then Malformed
    else match ReadMember(numerals, s[1..])
      case Malformed => Malformed
      case Read(first, rest) =>
        match ReadMembers(numerals, rest)
        case Malformed => Malformed
        case Read(members, end) => Read([first] + members, end)
  }

  /** A whole JSON text: one value between optional white space. */
  function ReadJson(numerals: Numerals, text: JsString): Option<Json> {
    match ReadValue(numerals, text)
    case Malformed => None
    case Read(v, rest) => if SkipSpace(rest) == [] then Some(v) else None
  }
}
