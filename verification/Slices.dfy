/** Slices of slices. */
module Slices {

  lemma DropSlice<T>(s: seq<T>, c: nat, a: nat, b: nat)
    requires a <= b && c + b <= |s|
    ensures s[c..][a..b] == s[c + a..c + b]
  {
    forall i | 0 <= i < b - a ensures s[c..][a..b][i] == s[c + a..c + b][i] { }
  }

  lemma DropDrop<T>(s: seq<T>, c: nat, a: nat)
    requires c + a <= |s|
    ensures s[c..][a..] == s[c + a..]
  {
  }

  lemma SliceSlice<T>(s: seq<T>, a: nat, b: nat, c: nat, d: nat)
    requires a <= b <= |s| && c <= d <= b - a
    ensures s[a..b][c..d] == s[a + c..a + d]
  {
    forall i | 0 <= i < d - c ensures s[a..b][c..d][i] == s[a + c..a + d][i] { }
  }
}
