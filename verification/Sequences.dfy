// Facts about sequences.
module Sequences {
  lemma Associate<T>(a: seq<T>, b: seq<T>, c: seq<T>)
    ensures a + b + c == a + (b + c)
  {
  }

  lemma PrefixSlice<T>(a: seq<T>, p: nat, i: nat, j: nat)
    requires i <= j < p <= |a|
    ensures a[i..j] == a[..p][i..j] && a[j] == a[..p][j]
  {
  }
}
