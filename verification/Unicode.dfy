/**
 * UTF-8 encoding of UTF-16 strings, and the two checks for unpaired surrogates.
 */
module Unicode {
  import opened ByteOrder
  import opened JsValues

  predicate IsHigh(u: CodeUnit) {
    0xD800 <= u <= 0xDBFF
  }

  predicate IsLow(u: CodeUnit) {
    0xDC00 <= u <= 0xDFFF
  }

  predicate StartsWithPair(s: JsString) {
    |s| >= 2 && IsHigh(s[0]) && IsLow(s[1])
  }

  type CodePoint = p: nat | p < 0x11_0000

  /** The first code point; an unpaired surrogate stands for the replacement character. */
  function FirstPoint(s: JsString): CodePoint
    requires s != []
  {
    if StartsWithPair(s) then 0x1_0000 + (s[0] as int - 0xD800) * 0x400 + (s[1] as int - 0xDC00)
    else if IsHigh(s[0]) || IsLow(s[0]) then 0xFFFD
    else s[0]
  }

  function PointUnits(s: JsString): (n: nat)
    requires s != []
    ensures 0 < n <= |s|
  {
    if StartsWithPair(s) then 2 else 1
  }

  function EncodePoint(p: CodePoint): Bytes {
    if p < 0x80 then [p]
    else if p < 0x800 then [0xC0 + p / 64, 0x80 + p % 64]
    else if p < 0x1_0000 then [0xE0 + p / 4096, 0x80 + p / 64 % 64, 0x80 + p % 64]
    else [0xF0 + p / 262144, 0x80 + p / 4096 % 64, 0x80 + p / 64 % 64, 0x80 + p % 64]
  }

  function Utf8(s: JsString): Bytes {
    if s == [] then [] else EncodePoint(FirstPoint(s)) + Utf8(s[PointUnits(s)..])
  }

  /** Every surrogate belongs to a pair. */
  predicate WellFormed(s: JsString) {
    s == [] || ((StartsWithPair(s) || !(IsHigh(s[0]) || IsLow(s[0]))) && WellFormed(s[PointUnits(s)..]))
  }

  lemma {:induction false} PointFromBytes(p: CodePoint, q: CodePoint, x: Bytes, y: Bytes)
    requires EncodePoint(p) + x == EncodePoint(q) + y
    ensures p == q && x == y
  {
    var a, b := EncodePoint(p), EncodePoint(q);
    assert (a + x)[0] == a[0] && (b + y)[0] == b[0];
    SameLeadSameLength(p, q);
    assert (a + x)[..|a|] == a && (b + y)[..|b|] == b;
    assert (a + x)[|a|..] == x && (b + y)[|b|..] == y;
    SameBytesSamePoint(p, q);
  }

  lemma {:induction false} SameLeadSameLength(p: CodePoint, q: CodePoint)
    requires EncodePoint(p)[0] == EncodePoint(q)[0]
    ensures |EncodePoint(p)| == |EncodePoint(q)|
  {
  }

  lemma {:induction false} SameBytesSamePoint(p: CodePoint, q: CodePoint)
    requires EncodePoint(p) == EncodePoint(q)
    ensures p == q
  {
    var a, b := EncodePoint(p), EncodePoint(q);
    assert |a| == |b| && a[0] == b[0] && a[|a| - 1] == b[|a| - 1];
    assert |a| >= 3 ==> a[|a| - 2] == b[|a| - 2];
    assert |a| == 4 ==> a[1] == b[1];
    PointFromDigits(p);
    PointFromDigits(q);
  }

  lemma {:induction false} PointFromDigits(p: nat)
    ensures p == p / 64 * 64 + p % 64
    ensures p / 64 == p / 4096 * 64 + p / 64 % 64
    ensures p / 4096 == p / 262144 * 64 + p / 4096 % 64
  {
    var a := p / 64;
    var b := a / 64;
    assert p == 4096 * b + 64 * (a % 64) + p % 64;
    assert b == p / 4096;
    assert p == 262144 * (b / 64) + 4096 * (b % 64) + 64 * (a % 64) + p % 64;
    assert b / 64 == p / 262144;
  }

  lemma {:induction false} FirstPointDeterminesUnits(a: JsString, b: JsString)
    requires a != [] && b != [] && WellFormed(a) && WellFormed(b) && FirstPoint(a) == FirstPoint(b)
    ensures PointUnits(a) == PointUnits(b) && a[..PointUnits(a)] == b[..PointUnits(b)]
  {
  }

  /** Different well-formed strings have different UTF-8 bytes. */
  lemma {:induction false} Utf8IsInjective(a: JsString, b: JsString)
    requires WellFormed(a) && WellFormed(b) && Utf8(a) == Utf8(b)
    ensures a == b
    decreases |a|
  {
    if a != [] && b != [] {
      PointFromBytes(FirstPoint(a), FirstPoint(b), Utf8(a[PointUnits(a)..]), Utf8(b[PointUnits(b)..]));
      FirstPointDeterminesUnits(a, b);
      Utf8IsInjective(a[PointUnits(a)..], b[PointUnits(b)..]);
      SamePieces(a, b, PointUnits(a));
    }
  }

  lemma {:induction false} SamePieces(a: JsString, b: JsString, n: nat)
    requires n <= |a| && n <= |b| && a[..n] == b[..n] && a[n..] == b[n..]
    ensures a == b
  {
    assert a == a[..n] + a[n..] && b == b[..n] + b[n..];
  }

  /** Strings with different unpaired surrogates can share their bytes. */
  /** ASCII is its own encoding. */
  lemma {:induction false} AsciiIsItself(s: JsString)
    requires forall i :: 0 <= i < |s| ==> s[i] < 0x80
    ensures |Utf8(s)| == |s| && forall i :: 0 <= i < |s| ==> Utf8(s)[i] == s[i]
  {
    if s != [] {
      AsciiIsItself(s[1..]);
      assert Utf8(s) == [s[0]] + Utf8(s[1..]);
    }
  }

  lemma {:induction false} Utf8MergesUnpairedSurrogates()
    ensures Utf8([0xD800]) == Utf8([0xD801])
  {
  }

  /** The strict check: accepts exactly the well-formed strings. */
  method AssertUnicodeScalarString(s: JsString) returns (accepted: bool)
    ensures accepted <==> WellFormed(s)
  {
    var index := 0;
    while index < |s|
      invariant 0 <= index <= |s|
      invariant WellFormed(s) <==> WellFormed(s[index..])
    {
      var code := s[index];
      if IsHigh(code) {
        if !(index + 1 < |s| && IsLow(s[index + 1])) {
          return false;
        }
        assert s[index..][2..] == s[index + 2..];
        index := index + 1;
      } else if IsLow(code) {
        return false;
      } else {
        assert s[index..][1..] == s[index + 1..];
      }
      index := index + 1;
    }
    return true;
  }

  /**
   * The check of the exact serializer compares the unit after a high surrogate for being out of
   * range, and past the end of the string there is no unit for that comparison to fail on.
   */
  predicate LooselyFormed(s: JsString) {
    if s == [] then true
    else if IsHigh(s[0]) then |s| == 1 || (IsLow(s[1]) && LooselyFormed(s[2..]))
    else !IsLow(s[0]) && LooselyFormed(s[1..])
  }

  method AssertUnicodeScalarStringLoosely(s: JsString) returns (accepted: bool)
    ensures accepted <==> LooselyFormed(s)
  {
    var index := 0;
    while index < |s|
      invariant 0 <= index <= |s| + 1
      invariant index > |s| ==> LooselyFormed(s)
      invariant index <= |s| ==> (LooselyFormed(s) <==> LooselyFormed(s[index..]))
    {
      var code := s[index];
      if IsHigh(code) {
        if index + 1 < |s| && !IsLow(s[index + 1]) {
          return false;
        }
        assert index + 1 < |s| ==> s[index..][2..] == s[index + 2..];
        index := index + 1;
      } else if IsLow(code) {
        return false;
      } else {
        assert s[index..][1..] == s[index + 1..];
      }
      index := index + 1;
    }
    return true;
  }

  /** So it accepts exactly the well-formed strings and those that only lack the last half of a final pair. */
  lemma {:induction false} LooselyFormedMeans(s: JsString)
    ensures LooselyFormed(s) <==>
            WellFormed(s) || (s != [] && IsHigh(s[|s| - 1]) && WellFormed(s[..|s| - 1]))
  {
    if s != [] {
      var n := PointUnits(s);
      LooselyFormedMeans(s[n..]);
      if |s| > n {
        assert s[n..][..|s| - n - 1] == s[..|s| - 1][n..];
        assert s[n..][|s| - n - 1] == s[|s| - 1];
        WellFormedStep(s, n);
      }
    }
  }

  lemma {:induction false} WellFormedStep(s: JsString, n: nat)
    requires s != [] && n == PointUnits(s) < |s|
    ensures PointUnits(s[..|s| - 1]) == n || |s| - 1 < n
    ensures WellFormed(s[..|s| - 1]) <==>
            (StartsWithPair(s) || !(IsHigh(s[0]) || IsLow(s[0]))) && WellFormed(s[..|s| - 1][n..])
  {
    var shorter := s[..|s| - 1];
    assert |shorter| >= n;
  }

  // ----- what the definitions spell out

  ghost predicate PairedAt(s: JsString, i: nat)
    requires i < |s|
  {
    && (IsHigh(s[i]) ==> i + 1 < |s| && IsLow(s[i + 1]))
    && (IsLow(s[i]) ==> i > 0 && IsHigh(s[i - 1]))
  }

  /**
   * A string is well formed exactly when every high surrogate is followed by a low one, and every low
   * one follows a high one.
   */
  lemma {:induction false} WellFormedMeans(s: JsString)
    ensures WellFormed(s) <==> forall i: nat :: i < |s| ==> PairedAt(s, i)
  {
    if s != [] {
      var n := PointUnits(s);
      var rest := s[n..];
      WellFormedMeans(rest);
      if WellFormed(s) {
        forall i: nat | i < |s|
          ensures PairedAt(s, i)
        {
          assert i >= n ==> PairedAt(rest, i - n);
        }
      }
      if forall i: nat :: i < |s| ==> PairedAt(s, i) {
        assert PairedAt(s, 0);
        forall i: nat | i < |rest|
          ensures PairedAt(rest, i)
        {
          assert PairedAt(s, i + n);
        }
      }
    }
  }

  function Above(b: Byte, base: int): int {
    b as int - base
  }

  predicate IsContinuation(b: Byte) {
    0x80 <= b < 0xC0
  }

  /** The bytes of a code point by the table of section 3 of RFC 3629: the shortest form, the leading bits first. */
  lemma {:induction false} EncodedPointIs(p: CodePoint)
    ensures var b := EncodePoint(p);
            && (p < 0x80 ==> |b| == 1 && b[0] == p)
            && (0x80 <= p < 0x800 ==>
                 |b| == 2 && 0xC2 <= b[0] < 0xE0 && IsContinuation(b[1])
                   && p == Above(b[0], 0xC0) * 64 + Above(b[1], 0x80))
            && (0x800 <= p < 0x1_0000 ==>
                 |b| == 3 && 0xE0 <= b[0] < 0xF0 && IsContinuation(b[1]) && IsContinuation(b[2])
                 && p == Above(b[0], 0xE0) * 4096 + Above(b[1], 0x80) * 64 + Above(b[2], 0x80))
            && (0x1_0000 <= p ==>
                 |b| == 4 && 0xF0 <= b[0] < 0xF5 && IsContinuation(b[1]) && IsContinuation(b[2]) && IsContinuation(b[3])
                 && p == Above(b[0], 0xF0) * 262144 + Above(b[1], 0x80) * 4096 + Above(b[2], 0x80) * 64
                    + Above(b[3], 0x80))
  {
    PointFromDigits(p);
  }

  /** One unit, a two-byte and a three-byte point, and a surrogate pair. */
  lemma {:induction false} EncodedTexts()
    ensures Utf8([0x41]) == [0x41] && Utf8([0xE9]) == [0xC3, 0xA9] && Utf8([0x20AC]) == [0xE2, 0x82, 0xAC]
    ensures Utf8([0xD83D, 0xDE00]) == [0xF0, 0x9F, 0x98, 0x80]
    ensures Utf8([0x41, 0xD83D, 0xDE00, 0x42]) == [0x41, 0xF0, 0x9F, 0x98, 0x80, 0x42]
  {
    var pair: JsString := [0xD83D, 0xDE00];
    var text: JsString := [0x41, 0xD83D, 0xDE00, 0x42];
    assert pair[2..] == [] && [0x41 as CodeUnit][1..] == [] && [0xE9 as CodeUnit][1..] == []
      && [0x20AC as CodeUnit][1..] == [];
    assert text[1..] == [0xD83D, 0xDE00, 0x42] && text[1..][2..] == [0x42] && text[1..][2..][1..] == [];
    assert FirstPoint(pair) == 0x1F600 && FirstPoint(text[1..]) == 0x1F600;
  }
}
