/**
 * Facts about slicing sequences, stated once so that the proofs which need
 * them can call them on their own terms.
 */
module Seqs {

  lemma SliceSplit<T>(s: seq<T>, i: nat, j: nat)
    requires i <= j <= |s|
    ensures s[i..] == s[i..j] + s[j..]
  {
  }

  lemma SliceCons<T>(s: seq<T>, k: nat)
    requires k < |s|
    ensures s[k..] == [s[k]] + s[k + 1..]
  {
  }

  lemma SliceAround<T>(s: seq<T>, k: nat, x: T)
    requires k < |s|
    ensures s == s[..k] + [s[k]] + s[k + 1..]
    ensures s[k := x] == s[..k] + [x] + s[k + 1..]
  {
  }

  /** Replacing element `k` by `x` and appending `y`. */
  lemma SliceClose<T>(s: seq<T>, k: nat, x: T, y: T)
    requires k < |s|
    ensures s[k := x] + [y] == s[..k] + ([x] + s[k + 1..] + [y])
  {
  }

  lemma PrefixOfConcat<T>(a: seq<T>, b: seq<T>)
    ensures (a + b)[..|a|] == a
  {
  }

  lemma AppendAssoc<T>(a: seq<T>, b: seq<T>, c: seq<T>)
    ensures a + b + c == a + (b + c)
  {
  }
}
