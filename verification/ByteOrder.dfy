/**
 * Lexicographic comparison of byte arrays, and the site order built on it.
 * A text that the compiler only ever compares through its UTF-8 bytes is
 * represented by those bytes.
 */
module ByteOrder {
  import opened Lexicographic

  type Byte = n: nat | n < 256

  type Bytes = seq<Byte>

  /** The difference at the first position where the arrays disagree, else the length difference. */
  function Compare(left: Bytes, right: Bytes): int
  {
    if left == [] || right == [] then |left| - |right|
    else if left[0] != right[0] then left[0] - right[0]
    else Compare(left[1..], right[1..])
  }

  method CompareBytes(left: Bytes, right: Bytes) returns (difference: int)
    ensures difference == Compare(left, right)
  {
    var length := if |left| < |right| then |left| else |right|;
    for index := 0 to length
      invariant Compare(left, right) == Compare(left[index..], right[index..])
    {
      difference := left[index] as int - right[index] as int;
      if difference != 0 {
        return;
      }
      assert left[index..][1..] == left[index + 1..];
      assert right[index..][1..] == right[index + 1..];
    }
    difference := |left| - |right|;
  }

  lemma {:induction false} CompareZero(left: Bytes, right: Bytes)
    ensures Compare(left, right) == 0 <==> left == right
  {
    if left != [] && right != [] {
      CompareZero(left[1..], right[1..]);
      assert left == [left[0]] + left[1..] && right == [right[0]] + right[1..];
    }
  }

  lemma {:induction false} CompareFlips(left: Bytes, right: Bytes)
    ensures Compare(left, right) == -Compare(right, left)
  {
    if left != [] && right != [] {
      CompareFlips(left[1..], right[1..]);
    }
  }

  lemma {:induction false} CompareTransitive(a: Bytes, b: Bytes, c: Bytes)
    requires Compare(a, b) <= 0 && Compare(b, c) <= 0
    ensures Compare(a, c) <= 0
    ensures Compare(a, b) < 0 || Compare(b, c) < 0 ==> Compare(a, c) < 0
  {
    if a != [] && b != [] && c != [] && a[0] == b[0] == c[0] {
      CompareTransitive(a[1..], b[1..], c[1..]);
    }
  }

  /** A comparison is negative exactly when the left array comes first lexicographically. */
  lemma {:induction false} CompareIsLexicographic(left: Bytes, right: Bytes)
    ensures Compare(left, right) < 0 <==> LexLess(left, right)
  {
    LexLessStep(left, right);
    if left != [] && right != [] && left[0] == right[0] {
      CompareIsLexicographic(left[1..], right[1..]);
    }
  }

  /** A discovered sema site: where it is, its identity, and its input names in order. */
  datatype Site = Site(functionId: Bytes, path: Bytes, start: nat, inputs: seq<Bytes>)

  /** Path bytes first, then start, then identifier bytes: the first nonzero difference decides. */
  function SiteCompare(left: Site, right: Site): int
  {
    var byPath := Compare(left.path, right.path);
    if byPath != 0 then byPath
    else if left.start != right.start then left.start - right.start
    else Compare(left.functionId, right.functionId)
  }

  predicate Before(left: Site, right: Site) {
    SiteCompare(left, right) < 0
  }

  method CompareSites(left: Site, right: Site) returns (order: int)
    ensures order == SiteCompare(left, right)
  {
    CompareZero(left.path, right.path);
    order := CompareBytes(left.path, right.path);
    if order == 0 {
      order := left.start - right.start;
    }
    if order == 0 {
      order := CompareBytes(left.functionId, right.functionId);
    }
  }

  /** Sites are ordered by path, then by ascending start, then by identifier, texts by their bytes. */
  lemma {:induction false} SiteOrderIs(a: Site, b: Site)
    ensures Before(a, b) <==>
            || LexLess(a.path, b.path)
            || (a.path == b.path && a.start < b.start)
            || (a.path == b.path && a.start == b.start && LexLess(a.functionId, b.functionId))
  {
    CompareZero(a.path, b.path);
    CompareIsLexicographic(a.path, b.path);
    CompareIsLexicographic(a.functionId, b.functionId);
  }

  /**
   * The site order is a strict total order up to identity: no site precedes itself, order
   * composes, and two sites are unordered exactly when path, start and identifier all agree.
   */
  lemma {:induction false} SiteOrderIsTotal(a: Site, b: Site, c: Site)
    ensures !Before(a, a)
    ensures !(Before(a, b) && Before(b, a))
    ensures Before(a, b) && Before(b, c) ==> Before(a, c)
    ensures !Before(b, a) && !Before(c, b) ==> !Before(c, a)
    ensures !Before(a, b) && !Before(b, a) <==>
            a.path == b.path && a.start == b.start && a.functionId == b.functionId
  {
    CompareZero(a.path, a.path);
    CompareZero(a.functionId, a.functionId);
    PairFacts(a, b);
    PairFacts(b, c);
    PairFacts(a, c);
    if Compare(a.path, b.path) <= 0 && Compare(b.path, c.path) <= 0 {
      CompareTransitive(a.path, b.path, c.path);
    }
    if Compare(a.functionId, b.functionId) <= 0 && Compare(b.functionId, c.functionId) <= 0 {
      CompareTransitive(a.functionId, b.functionId, c.functionId);
    }
  }

  lemma {:induction false} PairFacts(a: Site, b: Site)
    ensures Compare(a.path, b.path) == 0 <==> a.path == b.path
    ensures Compare(a.functionId, b.functionId) == 0 <==> a.functionId == b.functionId
    ensures SiteCompare(a, b) == -SiteCompare(b, a)
  {
    CompareZero(a.path, b.path);
    CompareZero(a.functionId, b.functionId);
    CompareFlips(a.path, b.path);
    CompareFlips(a.functionId, b.functionId);
  }
}
