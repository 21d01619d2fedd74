/** Generic list facts: duplicate-free lists and order-preserving sub-lists. */
module Sequences {

  /** No value occurs twice in `s`. */
  predicate NoDuplicates<T(==)>(s: seq<T>)
  {
    forall j, k :: 0 <= j < k < |s| ==> s[j] != s[k]
  }

  lemma NoDuplicatesPrefix<T>(s: seq<T>, n: nat)
    requires NoDuplicates(s) && n <= |s|
    ensures NoDuplicates(s[..n])
  {
  }

  /**
   * `a` is obtained from `b` by deleting entries, keeping the rest in order
   * (matched greedily from the front).
   */
  predicate IsSubsequence<T(==)>(a: seq<T>, b: seq<T>)
    decreases |b|
  {
    if a == [] then true
    else if b == [] then false
    else if a[0] == b[0] then IsSubsequence(a[1..], b[1..])
    else IsSubsequence(a, b[1..])
  }

  /** Dropping the head of a sub-list keeps it a sub-list. */
  lemma {:induction false} SubsequenceDropHead<T>(a: seq<T>, b: seq<T>)
    requires a != [] && IsSubsequence(a, b)
    ensures IsSubsequence(a[1..], b)
    decreases |b|, 1
  {
    if a[0] == b[0] {
      SubsequenceExtend(a[1..], b[1..], b[0]);
      assert [b[0]] + b[1..] == b;
    } else {
      SubsequenceDropHead(a, b[1..]);
      SubsequenceExtend(a[1..], b[1..], b[0]);
      assert [b[0]] + b[1..] == b;
    }
  }

  /** Putting an entry in front of the larger list keeps a sub-list a sub-list. */
  lemma {:induction false} SubsequenceExtend<T>(a: seq<T>, b: seq<T>, x: T)
    requires IsSubsequence(a, b)
    ensures IsSubsequence(a, [x] + b)
    decreases |b| + 1, 0
  {
    assert ([x] + b)[1..] == b;
    if a != [] && a[0] == x {
      SubsequenceDropHead(a, b);
    }
  }
}
