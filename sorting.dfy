/** The slice sorts the build script calls (`sort`, `sort_by_key`), specified by the order they
    establish and by being permutations of their input. The sort key is an integer: `sort` on
    `Ipv6Network` compares address then prefix, which one integer key `addr * 256 + prefix`
    encodes; `sort_by_key` passes the prefix. */
module Sorting {

  predicate SortedBy<T>(s: seq<T>, key: T -> int)
  {
    forall i, j :: 0 <= i < j < |s| ==> key(s[i]) <= key(s[j])
  }

  /** Putting `x` between a sorted prefix whose keys are not above its own and a sorted suffix
      whose keys are above it keeps the sequence sorted. */
  lemma InsertKeepsSorted<T>(s: seq<T>, x: T, key: T -> int, j: int)
    requires SortedBy(s, key) && 0 <= j <= |s|
    requires j > 0 ==> key(s[j - 1]) <= key(x)
    requires forall k :: j <= k < |s| ==> key(s[k]) > key(x)
    ensures SortedBy(s[..j] + [x] + s[j..], key)
  {
    var r := s[..j] + [x] + s[j..];
    forall a, b | 0 <= a < b < |r|
      ensures key(r[a]) <= key(r[b])
    {
      var sa := if a < j then a else a - 1;
      if a != j && b != j {
        assert r[a] == s[sa];
      }
    }
  }

  /** Inserts `x` after every element whose key is not above its own, so equal keys keep the
      order in which they arrive. */
  method InsertBy<T>(s: seq<T>, x: T, key: T -> int) returns (r: seq<T>)
    requires SortedBy(s, key)
    ensures SortedBy(r, key)
    ensures multiset(r) == multiset(s) + multiset{x}
  {
    var j := |s|;
    while j > 0 && key(s[j - 1]) > key(x)
      invariant 0 <= j <= |s|
      invariant forall k :: j <= k < |s| ==> key(s[k]) > key(x)
    {
      j := j - 1;
    }
    InsertKeepsSorted(s, x, key, j);
    r := s[..j] + [x] + s[j..];
    assert s == s[..j] + s[j..];
  }

  /** A stable sort by `key` (insertion sort). */
  method SortBy<T>(s: seq<T>, key: T -> int) returns (r: seq<T>)
    ensures SortedBy(r, key)
    ensures multiset(r) == multiset(s)
  {
    r := [];
    for i := 0 to |s|
      invariant SortedBy(r, key)
      invariant multiset(r) == multiset(s[..i])
    {
      r := InsertBy(r, s[i], key);
      assert s[..i + 1] == s[..i] + [s[i]];
    }
    assert s[..|s|] == s;
  }

  /** `sub` is `s` with some elements left out and the others in their order. */
  ghost predicate Subsequence<T>(sub: seq<T>, s: seq<T>)
  {
    exists idx: seq<int> :: Embedding(idx, sub, s)
  }

  /** `idx` lists, in increasing order, the positions of `s` that `sub` keeps. */
  ghost predicate Embedding<T>(idx: seq<int>, sub: seq<T>, s: seq<T>)
  {
    |idx| == |sub| &&
    (forall k :: 0 <= k < |idx| ==> 0 <= idx[k] < |s| && sub[k] == s[idx[k]]) &&
    (forall k, l :: 0 <= k < l < |idx| ==> idx[k] < idx[l])
  }

  /** Keeping one more element, later than all kept so far. */
  lemma EmbeddingPush<T>(idx: seq<int>, sub: seq<T>, s: seq<T>, j: int)
    requires Embedding(idx, sub, s) && 0 <= j < |s|
    requires forall k :: 0 <= k < |idx| ==> idx[k] < j
    ensures Embedding(idx + [j], sub + [s[j]], s)
  {
  }

  lemma SubsequenceMembers<T>(sub: seq<T>, s: seq<T>)
    requires Subsequence(sub, s)
    ensures forall x :: x in sub ==> x in s
  {
    var idx :| Embedding(idx, sub, s);
    forall x | x in sub
      ensures x in s
    {
      var k :| 0 <= k < |sub| && sub[k] == x;
      assert s[idx[k]] == x;
    }
  }

  /** Leaving elements out of a sorted sequence leaves it sorted. */
  lemma SubsequenceSorted<T>(sub: seq<T>, s: seq<T>, key: T -> int)
    requires Subsequence(sub, s) && SortedBy(s, key)
    ensures SortedBy(sub, key)
  {
    var idx :| Embedding(idx, sub, s);
    forall i, j | 0 <= i < j < |sub|
      ensures key(sub[i]) <= key(sub[j])
    {
      assert sub[i] == s[idx[i]] && sub[j] == s[idx[j]];
    }
  }
}
