/** Regrouping facts about sequence concatenation, stated over plain sequences so
    that proofs about the parser can use them without unfolding its definitions. */
module Seqs {
  lemma Assoc<T>(x: seq<T>, y: seq<T>, z: seq<T>)
    ensures (x + y) + z == x + (y + z)
  {
  }

  /** `a + bc == total` with `bc == b + c` regroups as `(a + b) + c == total`. */
  lemma Regroup<T>(a: seq<T>, b: seq<T>, c: seq<T>, bc: seq<T>, total: seq<T>)
    requires a + bc == total && bc == b + c
    ensures (a + b) + c == total
  {
    Assoc(a, b, c);
  }

  /** The element after a prefix `p` of `p + [x] + q` is `x`. */
  lemma SpliceIndex<T>(p: seq<T>, x: T, q: seq<T>)
    ensures |p| < |p + [x] + q| && (p + [x] + q)[|p|] == x
  {
  }

  /** An element of a non-empty sequence is in its front part or is its last element. */
  lemma InFrontOrLast<T>(xs: seq<T>, x: T)
    requires x in xs
    ensures x in xs[..|xs| - 1] || x == xs[|xs| - 1]
  {
    var k :| 0 <= k < |xs| && xs[k] == x;
    if k < |xs| - 1 {
      assert xs[..|xs| - 1][k] == x;
    }
  }

  /** An element of the front part of a sequence is an element of the sequence. */
  lemma FrontIn<T>(xs: seq<T>, n: nat, x: T)
    requires n <= |xs| && x in xs[..n]
    ensures x in xs
  {
    var k :| 0 <= k < n && xs[..n][k] == x;
    assert xs[k] == x;
  }

  /** A slice of a slice is a slice of the whole. */
  lemma SliceOfSlice<T>(s: seq<T>, a: nat, b: nat, i: nat, j: nat)
    requires a <= b <= |s| && i <= j <= b - a
    ensures s[a..b][i..j] == s[a + i..a + j]
  {
    forall k | 0 <= k < j - i
      ensures s[a..b][i..j][k] == s[a + i..a + j][k]
    {
      calc {
        s[a..b][i..j][k];
        s[a..b][i + k];
        s[a + i + k];
      }
    }
  }

  /** Cutting the suffix of `s` from `i` at `n` cuts `s` at `i + n`. */
  lemma SliceOfSuffix<T>(s: seq<T>, i: nat, n: nat)
    requires i + n <= |s|
    ensures s[i..][..n] == s[i..i + n] && s[i..][n..] == s[i + n..]
  {
  }
}
