/** Equalities of sequences that the solver needs to be told. */
module Sequences {

  lemma Associative<T>(a: seq<T>, b: seq<T>, c: seq<T>)
    ensures a + b + c == a + (b + c)
  {
  }

  lemma EmptyEnds<T>(s: seq<T>)
    ensures s[0..] == s && s[..|s|] == s && [] + s == s && s + [] == s
  {
  }

  lemma DropDrop<T>(s: seq<T>, m: nat, n: nat)
    requires m + n <= |s|
    ensures s[m..][n..] == s[m + n..]
  {
  }

  lemma TakeTake<T>(s: seq<T>, m: nat, n: nat)
    requires n <= m <= |s|
    ensures s[..m][..n] == s[..n]
  {
  }

  lemma TwoParts<T>(s: seq<T>, n: nat)
    requires n <= |s|
    ensures s[..n] + s[n..] == s
  {
  }

  /** A sequence given piece by piece. */
  lemma ThreeParts<T>(before: seq<T>, s: seq<T>, after: seq<T>, all: seq<T>)
    requires |all| == |before| + |s| + |after|
    requires forall i :: 0 <= i < |before| ==> all[i] == before[i]
    requires forall i :: |before| <= i < |before| + |s| ==> all[i] == s[i - |before|]
    requires forall i :: |before| + |s| <= i < |all| ==> all[i] == after[i - |before| - |s|]
    ensures all == before + s + after && all[..|before| + |s|] == before + s
    ensures before == [] ==> before + s == s
    ensures after == [] ==> before + s + after == before + s
  {
  }

  lemma TakeDrop<T>(s: seq<T>, m: nat, n: nat)
    requires m + n <= |s|
    ensures s[..m + n][m..] == s[m..][..n]
  {
  }

  lemma SliceOfMiddle<T>(a: seq<T>, b: seq<T>, c: seq<T>)
    ensures (a + b + c)[|a|..|a| + |b|] == b
  {
  }

  lemma SplitInThree<T>(a: seq<T>, b: seq<T>, c: seq<T>)
    ensures (a + b + c)[..|a|] == a && (a + b + c)[|a|..|a| + |b|] == b && (a + b + c)[|a| + |b|..] == c
  {
  }

  lemma TakeOfConcat<T>(a: seq<T>, b: seq<T>, i: nat)
    requires i <= |a| + |b|
    ensures (a + b)[..i] == if i < |a| then a[..i] else a + b[..i - |a|]
  {
  }

  lemma UpdateTake<T>(s: seq<T>, i: nat, x: T, n: nat)
    requires i < |s| && n <= |s|
    ensures s[i := x][..n] == if i < n then s[..n][i := x] else s[..n]
  {
  }

  /** A slice of a slice. */
  lemma SubSlice<T>(s: seq<T>, start: nat, n: nat, i: nat, j: nat)
    requires start + n <= |s| && i <= j <= n
    ensures s[start..start + n][i..j] == s[start + i..start + j]
    ensures i == 0 ==> s[start..start + n][..j] == s[start..start + j]
    ensures j == n ==> s[start..start + n][i..] == s[start + i..start + n]
  {
    var t := s[start..start + n];
    var u, v := t[i..j], s[start + i..start + j];
    assert |u| == |v| && forall k :: 0 <= k < |v| ==> u[k] == s[start + i + k] == v[k];
    assert u == v;
    assert i == 0 ==> t[..j] == u;
    assert j == n ==> t[i..] == u;
  }
}
