/** The sorts and the search of the standard library. */
module Sorting {
  import opened Addresses

  /** `r` is `s` rearranged: position `i` of `r` comes from position `origin[i]` of `s`, each used once. */
  ghost predicate Rearranged<T>(s: seq<T>, r: seq<T>, origin: seq<nat>) {
    && |r| == |s| == |origin|
    && (forall i :: 0 <= i < |origin| ==> origin[i] < |s| && r[i] == s[origin[i]])
    && (forall k :: 0 <= k < |s| ==> k in origin)
    && (forall i, j :: 0 <= i < j < |origin| ==> origin[i] != origin[j])
  }

  ghost predicate SortedBy<T>(s: seq<T>, key: T -> Address) {
    forall i, j :: 0 <= i < j < |s| ==> key(s[i]) <= key(s[j])
  }

  /** Elements with equal keys keep their order. */
  ghost predicate Stable<T>(r: seq<T>, key: T -> Address, origin: seq<nat>)
    requires |r| == |origin|
  {
    forall i, j :: 0 <= i < j < |r| && key(r[i]) == key(r[j]) ==> origin[i] < origin[j]
  }

  /** `std::sort`: the result is a sorted rearrangement; the order of equal keys is not promised. */
  method Sort<T>(s: seq<T>, key: T -> Address) returns (r: seq<T>, ghost origin: seq<nat>)
    ensures Rearranged(s, r, origin)
    ensures SortedBy(r, key)
  {
    r, origin := StableSort(s, key);
  }

  /** `std::stable_sort`. */
  method StableSort<T>(s: seq<T>, key: T -> Address) returns (r: seq<T>, ghost origin: seq<nat>)
    ensures Rearranged(s, r, origin)
    ensures SortedBy(r, key) && Stable(r, key, origin)
  {
    r, origin := [], [];
    for n := 0 to |s|
      invariant Rearranged(s[..n], r, origin)
      invariant SortedBy(r, key) && Stable(r, key, origin)
    {
      var j := n;
      while j > 0 && key(s[n]) < key(r[j - 1])
        invariant 0 <= j <= n
        invariant j < n ==> key(s[n]) < key(r[j])
      {
        j := j - 1;
      }
      InsertKeepsSorted(r, key, s[n], j);
      InsertKeepsStable(r, key, origin, n, s[n], j);
      InsertKeepsRearranged(s, n, r, origin, j);
      r, origin := r[..j] + [s[n]] + r[j..], origin[..j] + [n] + origin[j..];
    }
    assert s[..|s|] == s;
  }

  lemma InsertKeepsSorted<T>(r: seq<T>, key: T -> Address, x: T, j: nat)
    requires SortedBy(r, key) && j <= |r|
    requires j > 0 ==> key(r[j - 1]) <= key(x)
    requires j < |r| ==> key(x) < key(r[j])
    ensures SortedBy(r[..j] + [x] + r[j..], key)
  {
    var r' := r[..j] + [x] + r[j..];
    forall a, b | 0 <= a < b < |r'| ensures key(r'[a]) <= key(r'[b]) {
      assert 0 < j && a < j - 1 ==> key(r[a]) <= key(r[j - 1]);
      assert j < |r| && j + 1 < b ==> key(r[j]) <= key(r[b - 1]);
    }
  }

  lemma InsertKeepsRearranged<T>(s: seq<T>, n: nat, r: seq<T>, origin: seq<nat>, j: nat)
    requires n < |s| && Rearranged(s[..n], r, origin) && j <= n
    ensures Rearranged(s[..n + 1], r[..j] + [s[n]] + r[j..], origin[..j] + [n] + origin[j..])
  {
    var o := origin[..j] + [n] + origin[j..];
    forall k | 0 <= k < n + 1
      ensures k in o
    {
      if k != n {
        assert k in origin;
      }
      Inserted(origin, n, j, k);
    }
    forall i | 0 <= i < |o|
      ensures o[i] < n + 1 && (r[..j] + [s[n]] + r[j..])[i] == s[o[i]]
    {
      assert i < j ==> r[i] == s[..n][origin[i]];
      assert i > j ==> r[i - 1] == s[..n][origin[i - 1]];
    }
  }

  lemma Inserted<T>(s: seq<T>, x: T, j: nat, y: T)
    requires j <= |s| && (y == x || y in s)
    ensures y in s[..j] + [x] + s[j..]
  {
    var t := s[..j] + [x] + s[j..];
    if y == x {
      assert t[j] == x;
    } else {
      var i :| 0 <= i < |s| && s[i] == y;
      assert t[if i < j then i else i + 1] == y;
    }
  }

  lemma InsertKeepsStable<T>(r: seq<T>, key: T -> Address, origin: seq<nat>, n: nat, x: T, j: nat)
    requires |r| == |origin| && SortedBy(r, key) && Stable(r, key, origin) && j <= |r|
    requires forall i :: 0 <= i < |origin| ==> origin[i] < n
    requires j < |r| ==> key(x) < key(r[j])
    ensures Stable(r[..j] + [x] + r[j..], key, origin[..j] + [n] + origin[j..])
  {
    var r', o := r[..j] + [x] + r[j..], origin[..j] + [n] + origin[j..];
    forall a, b | 0 <= a < b < |r'| && key(r'[a]) == key(r'[b])
      ensures o[a] < o[b]
    {
      assert j + 1 < b ==> key(r[j]) <= key(r[b - 1]);
    }
  }

  /** `std::upper_bound`: a binary search for the first element above `x`. */
  method UpperBound(s: seq<Address>, x: Address) returns (k: nat)
    requires forall i, j :: 0 <= i < j < |s| ==> s[i] <= s[j]
    ensures k <= |s|
    ensures forall i :: 0 <= i < k ==> s[i] <= x
    ensures forall i :: k <= i < |s| ==> x < s[i]
  {
    var hi := |s|;
    k := 0;
    while k < hi
      invariant k <= hi <= |s|
      invariant forall i :: 0 <= i < k ==> s[i] <= x
      invariant forall i :: hi <= i < |s| ==> x < s[i]
    {
      var mid := (k + hi) / 2;
      if s[mid] <= x {
        k := mid + 1;
      } else {
        hi := mid;
      }
    }
  }
}
