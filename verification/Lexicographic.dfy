/**
 * Lexicographic order of number sequences, stated by positions: the reference for the orders of
 * byte arrays and of strings.
 */
module Lexicographic {

  /** The sequences agree up to the position; there the left one ends first, or has the smaller element. */
  ghost predicate LessAt(left: seq<nat>, right: seq<nat>, k: nat) {
    && k <= |left| && k < |right| && left[..k] == right[..k]
    && (k == |left| || left[k] < right[k])
  }

  /** Elements ascending, a proper prefix first. */
  ghost predicate LexLess(left: seq<nat>, right: seq<nat>) {
    exists k: nat :: LessAt(left, right, k)
  }

  lemma {:induction false} FirstAgrees(left: seq<nat>, right: seq<nat>, k: nat)
    requires LessAt(left, right, k) && k > 0
    ensures left[0] == right[0] && LessAt(left[1..], right[1..], k - 1)
  {
    assert left[..k][0] == right[..k][0];
    assert left[1..][..k - 1] == left[..k][1..] && right[1..][..k - 1] == right[..k][1..];
  }

  lemma {:induction false} FirstAdded(left: seq<nat>, right: seq<nat>, k: nat)
    requires left != [] && right != [] && left[0] == right[0] && LessAt(left[1..], right[1..], k)
    ensures LessAt(left, right, k + 1)
  {
    assert left[..k + 1] == [left[0]] + left[1..][..k] && right[..k + 1] == [right[0]] + right[1..][..k];
  }

  /** The order, one element at a time. */
  lemma {:induction false} LexLessStep(left: seq<nat>, right: seq<nat>)
    ensures left == [] ==> (LexLess(left, right) <==> right != [])
    ensures left != [] && right == [] ==> !LexLess(left, right)
    ensures left != [] && right != [] && left[0] != right[0] ==> (LexLess(left, right) <==> left[0] < right[0])
    ensures left != [] && right != [] && left[0] == right[0] ==>
            (LexLess(left, right) <==> LexLess(left[1..], right[1..]))
  {
    if right != [] && (left == [] || left[0] < right[0]) {
      assert LessAt(left, right, 0);
    }
    if LexLess(left, right) {
      var k: nat :| LessAt(left, right, k);
      if k > 0 {
        FirstAgrees(left, right, k);
      }
    }
    if left != [] && right != [] && left[0] == right[0] && LexLess(left[1..], right[1..]) {
      var k: nat :| LessAt(left[1..], right[1..], k);
      FirstAdded(left, right, k);
    }
  }
}
