/** Facts about sequences shared by the naming and filtering components. */
module Sequences {

  /** No element occurs twice. */
  predicate NoDup<T(==)>(s: seq<T>) {
    forall i, j :: 0 <= i < j < |s| ==> s[i] != s[j]
  }

  /** Two positions of a duplicate-free sequence hold different elements. */
  lemma NoDupDistinct<T>(s: seq<T>, i: nat, j: nat)
    requires NoDup(s) && i < j < |s|
    ensures s[i] != s[j]
  {
  }

  /** Dropping the last element keeps a sequence duplicate-free. */
  lemma NoDupInit<T>(s: seq<T>)
    requires NoDup(s) && |s| > 0
    ensures NoDup(s[..|s| - 1])
  {
  }

  /** `a` is `b` with some elements left out and the rest in their original order. */
  predicate IsSubsequence<T(==)>(a: seq<T>, b: seq<T>)
    decreases |b|
  {
    if a == [] then true
    else if b == [] then false
    else if a[|a| - 1] == b[|b| - 1] then IsSubsequence(a[..|a| - 1], b[..|b| - 1])
    else IsSubsequence(a, b[..|b| - 1])
  }

  /** Leaving out the last element of a subsequence gives a subsequence. */
  lemma {:induction false} SubsequenceDropLast<T>(a: seq<T>, b: seq<T>)
    requires |a| > 0 && IsSubsequence(a, b)
    ensures IsSubsequence(a[..|a| - 1], b)
    decreases |b|, 0
  {
    var a', b' := a[..|a| - 1], b[..|b| - 1];
    if a[|a| - 1] == b[|b| - 1] {
      if |a'| > 0 {
        SubsequenceDropLast(a', b');
        SubsequenceSnoc(a'[..|a'| - 1], b', b[|b| - 1]);
        assert b' + [b[|b| - 1]] == b;
      }
    } else {
      SubsequenceDropLast(a, b');
      SubsequenceSnoc(a', b', b[|b| - 1]);
      assert b' + [b[|b| - 1]] == b;
    }
  }

  /** A subsequence stays one when the sequence grows at the end. */
  lemma {:induction false} SubsequenceSnoc<T>(a: seq<T>, b: seq<T>, x: T)
    requires IsSubsequence(a, b)
    ensures IsSubsequence(a, b + [x])
    decreases |b|, 1
  {
    var b2 := b + [x];
    assert b2[..|b2| - 1] == b;
    if |a| > 0 && a[|a| - 1] == x {
      SubsequenceDropLast(a, b);
    }
  }

  /** The position of the first occurrence of `x` (Python's `list.index`). */
  function FirstIndex<T(==)>(s: seq<T>, x: T): (i: nat)
    requires x in s
    ensures i < |s| && s[i] == x && x !in s[..i]
  {
    if s[0] == x then 0 else 1 + FirstIndex(s[1..], x)
  }

  /** `s` with `x` inserted so that it sits at position `pos`. */
  function InsertAt<T>(s: seq<T>, pos: nat, x: T): (r: seq<T>)
    requires pos <= |s|
    ensures |r| == |s| + 1 && r[pos] == x
    ensures forall k {:trigger r[k]} :: 0 <= k < pos ==> r[k] == s[k]
    ensures forall k {:trigger r[k]} :: pos < k < |r| ==> r[k] == s[k - 1]
  {
    s[..pos] + [x] + s[pos..]
  }

  /** `r` is `s` with one element put in at position `pos`: every other element is `s`'s, in order. */
  predicate InsertedAt<T(==)>(r: seq<T>, s: seq<T>, pos: nat) {
    && |r| == |s| + 1 && pos < |r|
    && (forall k {:trigger r[k]} :: 0 <= k < pos ==> r[k] == s[k])
    && (forall k {:trigger r[k]} :: pos < k < |r| ==> r[k] == s[k - 1])
  }

  /** An occurrence before the last element is found in the prefix without it. */
  lemma FirstIndexInit<T>(s: seq<T>, x: T)
    requires |s| > 0 && x in s[..|s| - 1]
    ensures FirstIndex(s, x) == FirstIndex(s[..|s| - 1], x)
  {
    var init := s[..|s| - 1];
    var a, b := FirstIndex(s, x), FirstIndex(init, x);
    assert forall j :: 0 <= j < b ==> init[..b][j] == s[j];
    assert forall j :: 0 <= j < a ==> s[..a][j] == s[j];
  }

  /** An element found only at the end has the last position. */
  lemma FirstIndexLast<T>(s: seq<T>, x: T)
    requires |s| > 0 && x == s[|s| - 1] && x !in s[..|s| - 1]
    ensures FirstIndex(s, x) == |s| - 1
  {
    var a := FirstIndex(s, x);
    assert forall j :: 0 <= j < |s| - 1 ==> s[..|s| - 1][j] == s[j];
  }

  /** Some element of `s` satisfies `p` exactly when one of `init`, all but its last, does, or the last does. */
  lemma ExistsSnoc<T>(s: seq<T>, init: seq<T>, p: T -> bool)
    requires |s| > 0 && init == s[..|s| - 1]
    ensures (exists i :: 0 <= i < |s| && p(s[i]))
        <==> ((exists i :: 0 <= i < |init| && p(init[i])) || p(s[|s| - 1]))
  {
    assert forall i :: 0 <= i < |init| ==> s[i] == init[i];
  }
}
