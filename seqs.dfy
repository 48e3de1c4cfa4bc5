/** Facts about sequences that hold whatever their elements are. */
module Seqs {
  lemma Associative<T>(x: seq<T>, y: seq<T>, z: seq<T>)
    ensures (x + y) + z == x + (y + z)
  {
  }

  lemma SplitAt<T>(s: seq<T>, i: nat)
    requires i < |s|
    ensures s == s[..i] + [s[i]] + s[i + 1..]
  {
  }

  /** s[i..a], one element at a time from the front. */
  lemma ConsSlice<T>(s: seq<T>, i: nat, a: nat)
    requires i < a <= |s|
    ensures s[i..a] == [s[i]] + s[i + 1..a]
  {
  }
}
