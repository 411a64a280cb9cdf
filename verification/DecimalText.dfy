/**
 * Decimal literals: the grammar the reader accepts, the exact number a literal denotes, and the
 * canonical text of a decimal.
 */
module DecimalText {
  import opened Decimals
  import opened Outcomes

  datatype Sign = NoSign | PlusSign | MinusSign

  datatype Exponent = Exponent(capital: bool, sign: Sign, digits: string)

  /** The pieces of a literal without underscores. */
  datatype Parts = Parts(negative: bool, integer: string, fraction: Option<string>, exponent: Option<Exponent>)

  /** Digits with an optional fraction, or a fraction with at least one digit; then an optional exponent. */
  ghost predicate Grammatical(p: Parts) {
    && AllDigits(p.integer)
    && (p.fraction.Some? ==> AllDigits(p.fraction.value))
    && (p.integer == [] ==> p.fraction.Some? && p.fraction.value != [])
    && (p.exponent.Some? ==> AllDigits(p.exponent.value.digits) && p.exponent.value.digits != [])
  }

  function SignText(sign: Sign): string {
    match sign
    case NoSign => ""
    case PlusSign => "+"
    case MinusSign => "-"
  }

  function ExponentText(exponent: Option<Exponent>): string {
    match exponent
    case None => ""
    case Some(e) => [if e.capital then 'E' else 'e'] + (SignText(e.sign) + e.digits)
  }

  function FractionText(fraction: Option<string>): string {
    match fraction
    case None => ""
    case Some(digits) => "." + digits
  }

  function Spelled(p: Parts): string {
    (if p.negative then "-" else "") + (p.integer + (FractionText(p.fraction) + ExponentText(p.exponent)))
  }

  // ----- scanning

  function ScanExponent(s: string): Option<Option<Exponent>> {
    if s == [] then Some(None)
    else if s[0] != 'e' && s[0] != 'E' then None
    else
      var sign := if |s| > 1 && s[1] == '+' then PlusSign else if |s| > 1 && s[1] == '-' then MinusSign else NoSign;
      var digits := if sign.NoSign? then s[1..] else s[2..];
      if digits != [] && DigitRun(digits) == |digits| then Some(Some(Exponent(s[0] == 'E', sign, digits))) else None
  }

  /** The fraction a text begins with, if any, and what follows it. */
  function ScanFraction(s: string): (Option<string>, string) {
    if s != [] && s[0] == '.' then
      var m := DigitRun(s[1..]);
      (Some(s[1..][..m]), s[1..][m..])
    else (None, s)
  }

  function ScanUnsigned(s: string): Option<Parts> {
    var n := DigitRun(s);
    var (fraction, rest) := ScanFraction(s[n..]);
    if n == 0 && (fraction.None? || fraction.value == []) then None
    else match ScanExponent(rest)
      case None => None
      case Some(exponent) => Some(Parts(false, s[..n], fraction, exponent))
  }

  function Scan(s: string): Option<Parts> {
    if s != [] && s[0] == '-' then
      match ScanUnsigned(s[1..])
      case None => None
      case Some(p) => Some(p.(negative := true))
    else ScanUnsigned(s)
  }

  lemma {:induction false} ScanExponentSound(s: string)
    requires ScanExponent(s).Some?
    ensures var e := ScanExponent(s).value;
            ExponentText(e) == s && (e.Some? ==> AllDigits(e.value.digits) && e.value.digits != [])
  {
    if s != [] {
      var e := ScanExponent(s).value.value;
      assert s == [s[0]] + s[1..];
      if !e.sign.NoSign? { assert s[1..] == [s[1]] + s[2..]; }
    }
  }

  lemma {:induction false} ScanExponentComplete(e: Option<Exponent>)
    requires e.Some? ==> AllDigits(e.value.digits) && e.value.digits != []
    ensures ScanExponent(ExponentText(e)) == Some(e)
  {
    if e.Some? {
      var digits := e.value.digits;
      AllDigitsRun(digits);
      ExponentPieces(if e.value.capital then 'E' else 'e', e.value.sign, digits);
    }
  }

  lemma {:induction false} AllDigitsRun(digits: string)
    requires AllDigits(digits)
    ensures DigitRun(digits) == |digits|
  {
    DigitRunStops(digits, []);
    assert digits + [] == digits;
  }

  lemma {:induction false} ExponentPieces(letter: char, sign: Sign, digits: string)
    requires AllDigits(digits) && digits != []
    ensures var s := [letter] + (SignText(sign) + digits);
            && |s| > 1 && s[0] == letter
            && (if sign.NoSign? then IsDigit(s[1]) && s[1..] == digits
                else s[1] == (if sign.PlusSign? then '+' else '-') && s[2..] == digits)
  {
    var s := [letter] + (SignText(sign) + digits);
    if sign.NoSign? {
      assert s[1..] == digits;
    } else {
      assert s[2..] == digits;
    }
  }

  lemma {:induction false} ScanFractionSound(s: string)
    ensures var (fraction, rest) := ScanFraction(s);
            s == FractionText(fraction) + rest && (fraction.Some? ==> AllDigits(fraction.value))
  {
    if s != [] && s[0] == '.' {
      var m := DigitRun(s[1..]);
      assert s == "." + s[1..] && s[1..] == s[1..][..m] + s[1..][m..];
    } else {
      assert s == "" + s;
    }
  }

  /** A text that cannot continue a number's digits: empty or the start of an exponent. */
  ghost predicate EndsDigits(tail: string) {
    tail == [] || (!IsDigit(tail[0]) && tail[0] != '.')
  }

  lemma {:induction false} ScanFractionComplete(fraction: Option<string>, tail: string)
    requires EndsDigits(tail) && (fraction.Some? ==> AllDigits(fraction.value))
    ensures ScanFraction(FractionText(fraction) + tail) == (fraction, tail)
    ensures FractionText(fraction) + tail == [] || !IsDigit((FractionText(fraction) + tail)[0])
  {
    var s := FractionText(fraction) + tail;
    if fraction.Some? {
      var digits := fraction.value;
      DigitRunStops(digits, tail);
      assert s[1..] == digits + tail;
      assert (digits + tail)[..|digits|] == digits && (digits + tail)[|digits|..] == tail;
    } else {
      assert s == tail;
    }
  }

  lemma {:induction false} ExponentEndsDigits(exponent: Option<Exponent>)
    ensures EndsDigits(ExponentText(exponent))
  {
  }

  lemma {:induction false} ScanUnsignedSound(s: string)
    requires ScanUnsigned(s).Some?
    ensures var p := ScanUnsigned(s).value; !p.negative && Grammatical(p) && Spelled(p) == s
  {
    var n := DigitRun(s);
    var (fraction, rest) := ScanFraction(s[n..]);
    ScanFractionSound(s[n..]);
    ScanExponentSound(rest);
    Reassembled(s, n, FractionText(fraction), rest);
  }

  lemma {:induction false} Reassembled(s: string, n: nat, fraction: string, rest: string)
    requires n <= |s| && s[n..] == fraction + rest
    ensures "" + (s[..n] + (fraction + rest)) == s
  {
    assert s == s[..n] + s[n..];
  }

  lemma {:induction false} ScanUnsignedComplete(p: Parts)
    requires Grammatical(p) && !p.negative
    ensures ScanUnsigned(Spelled(p)) == Some(p)
  {
    var tail := ExponentText(p.exponent);
    var after := FractionText(p.fraction) + tail;
    ExponentEndsDigits(p.exponent);
    ScanFractionComplete(p.fraction, tail);
    ScanExponentComplete(p.exponent);
    DigitRunStops(p.integer, after);
    IntegerTakenOff(p.integer, after);
  }

  lemma {:induction false} IntegerTakenOff(integer: string, after: string)
    ensures "" + (integer + after) == integer + after
    ensures (integer + after)[..|integer|] == integer && (integer + after)[|integer|..] == after
  {
  }

  /** The scanner finds the pieces of exactly the literals of the grammar, and they are the only ones. */
  lemma {:induction false} ScanIsExact(s: string, p: Parts)
    ensures Scan(s) == Some(p) <==> Grammatical(p) && Spelled(p) == s
  {
    if Scan(s) == Some(p) {
      ScanSound(s, p);
    }
    if Grammatical(p) && Spelled(p) == s {
      ScanComplete(p);
    }
  }

  lemma {:induction false} ScanSound(s: string, p: Parts)
    requires Scan(s) == Some(p)
    ensures Grammatical(p) && Spelled(p) == s
  {
    if s != [] && s[0] == '-' {
      var unsigned := ScanUnsigned(s[1..]).value;
      ScanUnsignedSound(s[1..]);
      SignPutBack(s, unsigned);
    } else {
      ScanUnsignedSound(s);
    }
  }

  lemma {:induction false} SignPutBack(s: string, unsigned: Parts)
    requires s != [] && s[0] == '-' && !unsigned.negative && Spelled(unsigned) == s[1..]
    ensures Spelled(unsigned.(negative := true)) == s
  {
    var rest := unsigned.integer + (FractionText(unsigned.fraction) + ExponentText(unsigned.exponent));
    assert "" + rest == rest;
    assert s == "-" + s[1..];
  }

  lemma {:induction false} ScanComplete(p: Parts)
    requires Grammatical(p)
    ensures Scan(Spelled(p)) == Some(p)
  {
    var unsigned := p.(negative := false);
    ScanUnsignedComplete(unsigned);
    if p.negative {
      SignTakenOff(Spelled(p), p.integer + (FractionText(p.fraction) + ExponentText(p.exponent)));
    } else {
      UnsignedStart(p);
    }
  }

  lemma {:induction false} SignTakenOff(s: string, rest: string)
    requires s == "-" + rest
    ensures s != [] && s[0] == '-' && s[1..] == "" + rest
  {
  }

  lemma {:induction false} UnsignedStart(p: Parts)
    requires Grammatical(p) && !p.negative
    ensures Spelled(p) != [] && Spelled(p)[0] != '-'
  {
    if p.integer != [] {
      assert Spelled(p)[0] == p.integer[0];
    } else {
      assert Spelled(p)[0] == '.';
    }
  }

  // ----- the number a literal denotes

  /** Each digit after the point counts a tenth of the place before it. */
  function FractionValue(digits: string): real {
    if digits == [] then 0.0 else (DigitValue(digits[0]) as real + FractionValue(digits[1..])) / 10.0
  }

  function ExponentValue(exponent: Option<Exponent>): int {
    match exponent
    case None => 0
    case Some(e) => if e.sign.MinusSign? then -DigitsValue(e.digits) else DigitsValue(e.digits)
  }

  /** The digits before and after the point as a number before the exponent applies. */
  function Mantissa(integer: string, fraction: string): real {
    DigitsValue(integer) as real + FractionValue(fraction)
  }

  function Signed(negative: bool, magnitude: real): real {
    if negative then -magnitude else magnitude
  }

  /** Positional notation: integer part and fraction, times the power of ten, with its sign. */
  function Denoted(p: Parts): real {
    Signed(p.negative, Shift(Mantissa(p.integer, FractionOf(p)), ExponentValue(p.exponent)))
  }

  function StripUnderscores(s: string): string {
    if s == [] then [] else (if s[0] == '_' then [] else [s[0]]) + StripUnderscores(s[1..])
  }

  function Placed(digits: int, m: nat, e: int): Decimal {
    if m < e then Decimal(TimesPow10(digits, e - m), 0) else Decimal(digits, m - e)
  }

  function FractionOf(p: Parts): string {
    if p.fraction.Some? then p.fraction.value else ""
  }

  function SignedDigits(p: Parts): int {
    var digits := DigitsValue(p.integer + FractionOf(p));
    if p.negative then -digits else digits
  }

  /** All digits of a literal over the power of ten for the length of its fraction less its exponent. */
  function Unreduced(p: Parts): Decimal {
    Placed(SignedDigits(p), |FractionOf(p)|, ExponentValue(p.exponent))
  }

  /** The decimal of a scanned literal. */
  function FromParts(p: Parts): Decimal {
    Normalize(Unreduced(p))
  }

  function ParseDecimalLexeme(lexeme: string): Option<Decimal> {
    var normalized := StripUnderscores(lexeme);
    if |normalized| > MAX_DECIMAL_DIGITS then None
    else match Scan(normalized)
      case None => None
      case Some(p) =>
        var exponent := ExponentValue(p.exponent);
        if exponent > MAX_DECIMAL_DIGITS || exponent < -MAX_DECIMAL_DIGITS then None else Some(FromParts(p))
  }

  /** The last of the digits after the point counts ten to minus their number. */
  lemma {:induction false} FractionLast(digits: string)
    requires digits != []
    ensures FractionValue(digits) ==
            FractionValue(digits[..|digits| - 1]) + Shift(DigitValue(digits[|digits| - 1]) as real, -|digits|)
  {
    var last := DigitValue(digits[|digits| - 1]) as real;
    if |digits| == 1 {
      assert FractionValue(digits[1..]) == 0.0 && FractionValue(digits[..0]) == 0.0;
      assert Shift(last, -1) == Shift(last / 10.0, 0);
    } else {
      FractionLast(digits[1..]);
      assert digits[1..][..|digits| - 2] == digits[..|digits| - 1][1..];
      ShiftByTen(last, -|digits|);
    }
  }

  lemma {:induction false} FractionIsDigits(digits: string)
    ensures Shift(FractionValue(digits), |digits|) == DigitsValue(digits) as real
    decreases |digits|
  {
    if digits != [] {
      var n := |digits|;
      var shorter, last := digits[..n - 1], DigitValue(digits[n - 1]) as real;
      FractionLast(digits);
      FractionIsDigits(shorter);
      ShiftOfSum(FractionValue(shorter), Shift(last, -n), n);
      ShiftsBack(last, -n);
      ShiftByTen(FractionValue(shorter), n - 1);
    }
  }

  lemma {:induction false} ConcatenatedDigits(a: string, b: string)
    ensures DigitsValue(a + b) as real == Shift(DigitsValue(a) as real, |b|) + DigitsValue(b) as real
    decreases |b|
  {
    if b == [] {
      assert a + b == a;
    } else {
      var shorter := b[..|b| - 1];
      assert (a + b)[..|a + b| - 1] == a + shorter;
      ConcatenatedDigits(a, shorter);
      ShiftByTen(DigitsValue(a) as real, |shorter|);
    }
  }

  /** Shifted by the length of the fraction, the mantissa is all the digits as one number. */
  lemma {:induction false} MantissaIsDigits(integer: string, fraction: string)
    ensures Shift(Mantissa(integer, fraction), |fraction|) == DigitsValue(integer + fraction) as real
  {
    ConcatenatedDigits(integer, fraction);
    FractionIsDigits(fraction);
    ShiftOfSum(DigitsValue(integer) as real, FractionValue(fraction), |fraction|);
  }

  lemma {:induction false} PlacedIsExact(digits: int, m: nat, e: int)
    ensures Real(Placed(digits, m, e)) == Shift(digits as real, e - m)
  {
    if m < e { ShiftOfInteger(digits, e - m); }
  }

  /** A literal is read as exactly the number it denotes, in normal form. */
  lemma {:induction false} ReadNumberIsExact(p: Parts)
    ensures Real(FromParts(p)) == Denoted(p) && IsNormal(FromParts(p))
  {
    var x, m, e := Mantissa(p.integer, FractionOf(p)), |FractionOf(p)|, ExponentValue(p.exponent);
    var digits := DigitsValue(p.integer + FractionOf(p));
    MantissaIsDigits(p.integer, FractionOf(p));
    ShiftsAdd(x, m, e - m);
    ShiftOfNegation(digits as real, e - m);
    PlacedIsExact(SignedDigits(p), m, e);
    NormalizeIsExact(Unreduced(p));
  }

  /**
   * The reader accepts exactly the literals of the grammar that, without underscores, have at most
   * a thousand characters and an exponent of at most a thousand either way, and reads each as the
   * normal form of the number it denotes.
   */
  lemma {:induction false} ReadingIsExact(lexeme: string, d: Decimal)
    ensures ParseDecimalLexeme(lexeme) == Some(d) <==>
            exists p :: IsLiteral(StripUnderscores(lexeme), p) && d == FromParts(p)
    ensures ParseDecimalLexeme(lexeme) == Some(d) ==>
            IsNormal(d) && exists p :: IsLiteral(StripUnderscores(lexeme), p) && Real(d) == Denoted(p)
  {
    var s := StripUnderscores(lexeme);
    if ParseDecimalLexeme(lexeme) == Some(d) {
      var p := Scan(s).value;
      ScanIsExact(s, p);
      ReadNumberIsExact(p);
      assert IsLiteral(s, p);
    }
    if p :| IsLiteral(s, p) && d == FromParts(p) {
      ScanIsExact(s, p);
    }
  }

  ghost predicate IsLiteral(s: string, p: Parts) {
    && |s| <= MAX_DECIMAL_DIGITS && Grammatical(p) && Spelled(p) == s
    && -MAX_DECIMAL_DIGITS <= ExponentValue(p.exponent) <= MAX_DECIMAL_DIGITS
  }

  // ----- the canonical text

  function Magnitude(n: int): nat {
    if n < 0 then -n else n
  }

  /** Digits with a point before the last few of them. */
  function Pointed(padded: string, scale: nat): string
    requires |padded| >= scale
  {
    padded[..|padded| - scale] + ("." + padded[|padded| - scale..])
  }

  function UnsignedText(digits: string, scale: nat): string {
    if scale == 0 then digits else Pointed(PadStart(digits, scale + 1), scale)
  }

  function FormatDecimal(d: Decimal): string {
    var normal := Normalize(d);
    if normal.coefficient == 0 then "0"
    else
      (if normal.coefficient < 0 then "-" else "")
      + UnsignedText(ToDigits(Magnitude(normal.coefficient)), normal.scale)
  }

  /** The pieces of a canonical text. */
  function PointedParts(negative: bool, padded: string, scale: nat): Parts
    requires |padded| >= scale
  {
    Parts(negative, padded[..|padded| - scale], Some(padded[|padded| - scale..]), None)
  }

  function UnsignedParts(negative: bool, digits: string, scale: nat): Parts {
    if scale == 0 then Parts(negative, digits, None, None)
    else PointedParts(negative, PadStart(digits, scale + 1), scale)
  }

  function FormattedParts(normal: Decimal): Parts {
    UnsignedParts(normal.coefficient < 0, ToDigits(Magnitude(normal.coefficient)), normal.scale)
  }

  lemma {:induction false} PointedPartsAre(negative: bool, padded: string, scale: nat)
    requires AllDigits(padded) && |padded| > scale > 0
    ensures var p := PointedParts(negative, padded, scale);
            && Grammatical(p) && |FractionOf(p)| == scale && p.integer + FractionOf(p) == padded
            && Spelled(p) == (if negative then "-" else "") + Pointed(padded, scale)
  {
    var p := PointedParts(negative, padded, scale);
    assert p.integer + FractionOf(p) == padded;
    assert FractionText(p.fraction) + ExponentText(p.exponent) == "." + padded[|padded| - scale..];
  }

  lemma {:induction false} UnsignedPartsAre(negative: bool, digits: string, scale: nat)
    requires AllDigits(digits) && digits != []
    ensures var p := UnsignedParts(negative, digits, scale);
            && Grammatical(p) && p.exponent.None? && p.negative == negative && |FractionOf(p)| == scale
            && DigitsValue(p.integer + FractionOf(p)) == DigitsValue(digits)
            && Spelled(p) == (if negative then "-" else "") + UnsignedText(digits, scale)
  {
    if scale == 0 {
      assert digits + "" == digits && digits + ("" + "") == digits;
    } else {
      PaddingAddsNothing(digits, scale + 1);
      PointedPartsAre(negative, PadStart(digits, scale + 1), scale);
    }
  }

  lemma {:induction false} FormattedPartsAre(normal: Decimal)
    ensures var p := FormattedParts(normal);
            && Grammatical(p) && p.exponent.None? && |FractionOf(p)| == normal.scale
               && SignedDigits(p) == normal.coefficient
  {
    var digits := ToDigits(Magnitude(normal.coefficient));
    ToDigitsReadBack(Magnitude(normal.coefficient));
    UnsignedPartsAre(normal.coefficient < 0, digits, normal.scale);
  }

  lemma {:induction false} FormattedPartsReadBack(normal: Decimal)
    requires IsNormal(normal)
    ensures FromParts(FormattedParts(normal)) == normal
  {
    FormattedPartsAre(normal);
  }

  lemma {:induction false} NormalZero(d: Decimal)
    requires Normalize(d).coefficient == 0
    ensures Normalize(d).scale == 0
  {
    NormalizeIsExact(d);
  }

  lemma {:induction false} FormattedTextIs(d: Decimal)
    ensures FormatDecimal(d) == Spelled(FormattedParts(Normalize(d)))
  {
    var normal := Normalize(d);
    ToDigitsReadBack(Magnitude(normal.coefficient));
    UnsignedPartsAre(normal.coefficient < 0, ToDigits(Magnitude(normal.coefficient)), normal.scale);
    if normal.coefficient == 0 {
      NormalZero(d);
      assert ToDigits(0) == "0" && "" + "0" == "0";
    }
  }

  lemma {:induction false} NothingToStrip(s: string)
    requires '_' !in s
    ensures StripUnderscores(s) == s
  {
    if s != [] {
      assert s == [s[0]] + s[1..];
      NothingToStrip(s[1..]);
    }
  }

  lemma {:induction false} NoUnderscores(p: Parts)
    requires Grammatical(p) && p.exponent.None?
    ensures '_' !in Spelled(p)
  {
    assert '_' !in p.integer;
    assert '_' !in FractionText(p.fraction);
  }

  /**
   * Reading the canonical text gives the normal form back, exactly when the text is within the reader's
   * length limit.
   */
  lemma {:induction false} CanonicalTextReadsBack(d: Decimal)
    ensures ParseDecimalLexeme(FormatDecimal(d)) == Some(Normalize(d)) <==> |FormatDecimal(d)| <= MAX_DECIMAL_DIGITS
    ensures ParseDecimalLexeme(FormatDecimal(d)).None? <==> |FormatDecimal(d)| > MAX_DECIMAL_DIGITS
  {
    var p := FormattedParts(Normalize(d));
    NormalizeIsExact(d);
    FormattedPartsAre(Normalize(d));
    FormattedPartsReadBack(Normalize(d));
    FormattedTextIs(d);
    NoUnderscores(p);
    NothingToStrip(FormatDecimal(d));
    ScanIsExact(FormatDecimal(d), p);
  }

  /** The canonical text of a number depends on nothing but the number, and tells different numbers apart. */
  lemma {:induction false} CanonicalTextIsCanonical(a: Decimal, b: Decimal)
    ensures FormatDecimal(a) == FormatDecimal(b) <==> Real(a) == Real(b)
  {
    NormalFormIsUnique(a, b);
    NormalizeIsExact(a);
    NormalizeIsExact(b);
    FormattedTextIs(a);
    FormattedTextIs(b);
    FormattedPartsAre(Normalize(a));
    FormattedPartsAre(Normalize(b));
    FormattedPartsReadBack(Normalize(a));
    FormattedPartsReadBack(Normalize(b));
    ScanIsExact(FormatDecimal(a), FormattedParts(Normalize(a)));
    ScanIsExact(FormatDecimal(b), FormattedParts(Normalize(b)));
  }

  // ----- underscores

  lemma {:induction false} StrippingDistributes(s: string, t: string)
    ensures StripUnderscores(s + t) == StripUnderscores(s) + StripUnderscores(t)
  {
    if s == [] {
      assert s + t == t;
    } else {
      assert (s + t)[1..] == s[1..] + t;
      StrippingDistributes(s[1..], t);
    }
  }

  lemma {:induction false} StrippingLeaves(s: string)
    ensures '_' !in StripUnderscores(s) && ('_' !in s ==> StripUnderscores(s) == s)
  {
    if s != [] {
      StrippingLeaves(s[1..]);
      assert s == [s[0]] + s[1..];
    }
  }

  /** Stripping takes out the underscores one by one and leaves every other character where it stands among the rest. */
  lemma {:induction false} StrippingIs(s: string, t: string)
    ensures '_' !in StripUnderscores(s) && ('_' !in s ==> StripUnderscores(s) == s) && StripUnderscores("_") == ""
    ensures StripUnderscores(s + t) == StripUnderscores(s) + StripUnderscores(t)
  {
    StrippingLeaves(s);
    StrippingDistributes(s, t);
    var underscore := "_";
    assert underscore[1..] == "" && StripUnderscores(underscore[1..]) == "";
  }

  // ----- literals as they are written

  lemma {:induction false} PiecesAreRead(s: string, p: Parts)
    requires Grammatical(p) && Spelled(p) == s && '_' !in s && |s| <= MAX_DECIMAL_DIGITS
    requires -MAX_DECIMAL_DIGITS <= ExponentValue(p.exponent) <= MAX_DECIMAL_DIGITS
    ensures ParseDecimalLexeme(s).Some? && Real(ParseDecimalLexeme(s).value) == Denoted(p)
  {
    NothingToStrip(s);
    ScanIsExact(s, p);
    ReadNumberIsExact(p);
  }

  lemma {:induction false} MantissaOfDigits(digits: string)
    ensures Mantissa(digits, "") == DigitsValue(digits) as real
  {
  }

  /** Digits alone are their value, with a minus its negative. */
  lemma {:induction false} WholeLiteralsMean(digits: string)
    requires AllDigits(digits) && 0 < |digits| < MAX_DECIMAL_DIGITS
    ensures var read := ParseDecimalLexeme(digits);
            read.Some? && Real(read.value) == DigitsValue(digits) as real
    ensures var read := ParseDecimalLexeme("-" + digits);
            read.Some? && Real(read.value) == -(DigitsValue(digits) as real)
  {
    var p := Parts(false, digits, None, None);
    assert Spelled(p) == digits && Spelled(p.(negative := true)) == "-" + digits;
    MantissaOfDigits(digits);
    PiecesAreRead(digits, p);
    PiecesAreRead("-" + digits, p.(negative := true));
  }

  /** A point divides by ten for every digit after it. */
  lemma {:induction false} PointedLiteralsMean(integer: string, fraction: string)
    requires AllDigits(integer) && AllDigits(fraction) && (integer == [] ==> fraction != [])
    requires |integer| + |fraction| < MAX_DECIMAL_DIGITS
    ensures var read := ParseDecimalLexeme(integer + "." + fraction);
            read.Some? && Shift(Real(read.value), |fraction|) == DigitsValue(integer + fraction) as real
  {
    var p := Parts(false, integer, Some(fraction), None);
    assert Spelled(p) == integer + "." + fraction;
    MantissaIsDigits(integer, fraction);
    PiecesAreRead(integer + "." + fraction, p);
  }

  lemma {:induction false} ExponentSpelled(digits: string, sign: Sign, n: nat)
    requires AllDigits(digits) && digits != []
    ensures var p := Parts(false, digits, None, Some(Exponent(false, sign, ToDigits(n))));
            var s := digits + ("e" + (SignText(sign) + ToDigits(n)));
            && Grammatical(p) && Spelled(p) == s && '_' !in s
            && ExponentValue(p.exponent) == if sign.MinusSign? then -(n as int) else n
  {
    ToDigitsReadBack(n);
    var p := Parts(false, digits, None, Some(Exponent(false, sign, ToDigits(n))));
    assert FractionText(p.fraction) + ExponentText(p.exponent) == ExponentText(p.exponent);
    assert '_' !in SignText(sign) && '_' !in ToDigits(n) && '_' !in digits;
  }

  /** An exponent multiplies by its power of ten, after a minus it divides by it. */
  lemma {:induction false} ExponentsMean(digits: string, n: nat)
    requires AllDigits(digits) && digits != [] && n <= MAX_DECIMAL_DIGITS
    requires |digits| + |ToDigits(n)| + 2 <= MAX_DECIMAL_DIGITS
    ensures var read := ParseDecimalLexeme(digits + ("e" + ("" + ToDigits(n))));
            read.Some? && Real(read.value) == (DigitsValue(digits) * Pow10(n)) as real
    ensures var read := ParseDecimalLexeme(digits + ("e" + ("+" + ToDigits(n))));
            read.Some? && Real(read.value) == (DigitsValue(digits) * Pow10(n)) as real
    ensures var read := ParseDecimalLexeme(digits + ("e" + ("-" + ToDigits(n))));
            read.Some? && Shift(Real(read.value), n) == DigitsValue(digits) as real
  {
    ExponentIsRead(digits, NoSign, n);
    ExponentIsRead(digits, PlusSign, n);
    ExponentIsRead(digits, MinusSign, n);
    ShiftedDigits(digits, n);
  }

  lemma {:induction false} ShiftedDigits(digits: string, n: nat)
    ensures Shift(Mantissa(digits, ""), n) == (DigitsValue(digits) * Pow10(n)) as real
    ensures Shift(Shift(Mantissa(digits, ""), -(n as int)), n) == DigitsValue(digits) as real
  {
    var x := DigitsValue(digits);
    MantissaOfDigits(digits);
    TimesPow10IsProduct(x, n);
    ShiftOfInteger(x, n);
    ShiftsBack(x as real, -(n as int));
  }

  lemma {:induction false} ExponentIsRead(digits: string, sign: Sign, n: nat)
    requires AllDigits(digits) && digits != [] && n <= MAX_DECIMAL_DIGITS
    requires |digits| + |ToDigits(n)| + 2 <= MAX_DECIMAL_DIGITS
    ensures var read := ParseDecimalLexeme(digits + ("e" + (SignText(sign) + ToDigits(n))));
            read.Some? && Real(read.value) == Shift(Mantissa(digits, ""), if sign.MinusSign? then -(n as int) else n)
  {
    ExponentSpelled(digits, sign, n);
    PiecesAreRead(digits + ("e" + (SignText(sign) + ToDigits(n))),
      Parts(false, digits, None, Some(Exponent(false, sign, ToDigits(n)))));
  }

  // ----- the shape of the canonical text

  lemma {:induction false} FirstAndLastDigit(n: nat)
    ensures ToDigits(n) != "" && (n > 0 ==> ToDigits(n)[0] != '0')
    ensures ToDigits(n)[|ToDigits(n)| - 1] == '0' <==> n % 10 == 0
    decreases n
  {
    ToDigitsReadBack(n);
    if n >= 10 {
      FirstAndLastDigit(n / 10);
    }
  }

  /**
   * A canonical text has no exponent, no zeros it could do without before or after the point, and no
   * point without a fraction.
   */
  lemma {:induction false} CanonicalShapeIs(d: Decimal)
    ensures var normal, p := Normalize(d), FormattedParts(Normalize(d));
            && FormatDecimal(d) == Spelled(p) && Grammatical(p) && p.exponent.None?
            && SignedDigits(p) == normal.coefficient && |FractionOf(p)| == normal.scale
            && (p.fraction.Some? <==> normal.scale > 0)
            && (normal.scale > 0 ==> FractionOf(p)[normal.scale - 1] != '0')
            && (|p.integer| > 1 ==> p.integer[0] != '0')
  {
    var normal := Normalize(d);
    var n := Magnitude(normal.coefficient);
    FormattedTextIs(d);
    FormattedPartsAre(normal);
    NormalizeIsExact(d);
    FirstAndLastDigit(n);
    PaddedShape(ToDigits(n), normal.scale + 1);
    if normal.coefficient == 0 {
      NormalZero(d);
      assert ToDigits(0) == "0";
    } else {
      MagnitudeMod(normal.coefficient);
    }
  }

  lemma {:induction false} MagnitudeMod(n: int)
    ensures Magnitude(n) % 10 == 0 <==> n % 10 == 0
  {
  }

  lemma {:induction false} PaddedShape(digits: string, n: nat)
    requires digits != ""
    ensures var padded := PadStart(digits, n);
            && |padded| >= |digits| && |padded| >= n && padded[|padded| - 1] == digits[|digits| - 1]
            && (|padded| > n ==> padded == digits)
  {
  }
}
