/** General facts about sequences used by the document-structure proofs. */
module Sequences {

  /** The concatenation of `blocks`, in order. */
  function Flatten<T>(blocks: seq<seq<T>>): seq<T> {
    if blocks == [] then []
    else Flatten(blocks[..|blocks| - 1]) + blocks[|blocks| - 1]
  }

  /** Every block holds exactly `n` elements. */
  predicate UniformSize<T>(blocks: seq<seq<T>>, n: nat) {
    forall i :: 0 <= i < |blocks| ==> |blocks[i]| == n
  }

  /** Appending a block appends its elements. */
  lemma FlattenAppend<T>(blocks: seq<seq<T>>, b: seq<T>)
    ensures Flatten(blocks + [b]) == Flatten(blocks) + b
  {
    assert (blocks + [b])[..|blocks|] == blocks;
  }

  /** Blocks of `n` elements each flatten to `n` times as many elements, and
      the `k`-th run of `n` elements is the `k`-th block. */
  lemma {:induction false} FlattenBlockAt<T>(blocks: seq<seq<T>>, n: nat, k: nat)
    requires UniformSize(blocks, n) && k < |blocks|
    ensures |Flatten(blocks)| == n * |blocks| && n * k + n <= n * |blocks|
    ensures Flatten(blocks)[n * k..n * k + n] == blocks[k]
  {
    MulStep(n, k, |blocks|);
    var m := |blocks| - 1;
    var prefix := blocks[..m];
    assert UniformSize(prefix, n) by {
      assert forall i :: 0 <= i < m ==> prefix[i] == blocks[i];
    }
    FlattenLength(blocks, n);
    FlattenLength(prefix, n);
    var before := Flatten(prefix);
    assert Flatten(blocks) == before + blocks[m];
    if k < m {
      FlattenBlockAt(prefix, n, k);
      MulStep(n, k, m);
      SliceOfFirst(before, blocks[m], n * k, n * k + n);
    } else {
      SliceOfMiddle(before, blocks[m], [], 0, n);
      assert before + blocks[m] + [] == before + blocks[m];
    }
  }

  lemma {:induction false} MulStep(n: nat, k: nat, m: nat)
    requires k < m
    ensures n * k + n <= n * m
    decreases m - k
  {
    assert n * (k + 1) == n * k + n;
    if k + 1 < m {
      MulStep(n, k + 1, m);
    }
  }

  /** A slice inside the first part of `a + b` is a slice of `a`. */
  lemma SliceOfFirst<T>(a: seq<T>, b: seq<T>, i: nat, j: nat)
    requires i <= j <= |a|
    ensures (a + b)[i..j] == a[i..j]
  {
  }

  lemma {:induction false} FlattenLength<T>(blocks: seq<seq<T>>, n: nat)
    requires UniformSize(blocks, n)
    ensures |Flatten(blocks)| == n * |blocks|
  {
    if blocks != [] {
      var prefix := blocks[..|blocks| - 1];
      assert UniformSize(prefix, n) by {
        assert forall i :: 0 <= i < |prefix| ==> prefix[i] == blocks[i];
      }
      FlattenLength(prefix, n);
      assert |blocks| == |prefix| + 1;
      assert n * |blocks| == n * |prefix| + n;
    }
  }

  /** Every element of the concatenation comes from one of the blocks. */
  lemma {:induction false} FlattenMember<T>(blocks: seq<seq<T>>, x: T)
    requires x in Flatten(blocks)
    ensures exists b :: b in blocks && x in b
  {
    var prefix := blocks[..|blocks| - 1];
    var last := blocks[|blocks| - 1];
    if x in Flatten(prefix) {
      FlattenMember(prefix, x);
      var b :| b in prefix && x in b;
      assert b in blocks;
    } else {
      assert x in last;
    }
  }

  /** A slice that lies inside the middle part of `a + b + c` is a slice of
      `b`. */
  lemma SliceOfMiddle<T>(a: seq<T>, b: seq<T>, c: seq<T>, i: nat, j: nat)
    requires i <= j <= |b|
    ensures (a + b + c)[|a| + i..|a| + j] == b[i..j]
  {
    var s := a + b + c;
    var t := s[|a| + i..|a| + j];
    forall k | 0 <= k < j - i ensures t[k] == b[i..j][k] {
      assert t[k] == s[|a| + i + k];
    }
  }

  /** `b` can be obtained from `a` by deleting elements: the elements of `b` occur in
      `a` in the same order. */
  ghost predicate IsSubsequence<T>(b: seq<T>, a: seq<T>)
    decreases |a|
  {
    || b == []
    || (a != [] && b[|b| - 1] == a[|a| - 1] && IsSubsequence(b[..|b| - 1], a[..|a| - 1]))
    || (a != [] && IsSubsequence(b, a[..|a| - 1]))
  }
}
