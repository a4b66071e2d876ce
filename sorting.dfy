/** The library sorts the index builders call (qsort in mkroot.c,
    list.sort in mkroot.py), stated by their contract: the result is a
    permutation of the input, ordered by a total preorder `le`. Neither
    library sort is stable where it matters here, so the contract says
    nothing about the order of equivalent elements. */
module Sorting {
  import opened Bytes

  /** Any two elements are comparable. */
  ghost predicate Total<T(!new)>(le: (T, T) -> bool)
  {
    forall a, b :: le(a, b) || le(b, a)
  }

  ghost predicate Transitive<T(!new)>(le: (T, T) -> bool)
  {
    forall a, b, c :: le(a, b) && le(b, c) ==> le(a, c)
  }

  /** Every element is `le` every element after it. */
  ghost predicate SortedBy<T>(s: seq<T>, le: (T, T) -> bool)
  {
    forall i, j :: 0 <= i < j < |s| ==> le(s[i], s[j])
  }

  /** x placed after the last element of the sorted r that is `le` it. */
  method Insert<T(!new)>(r: seq<T>, x: T, le: (T, T) -> bool) returns (r': seq<T>)
    requires Total(le) && Transitive(le) && SortedBy(r, le)
    ensures multiset(r') == multiset(r) + multiset{x}
    ensures SortedBy(r', le)
  {
    var j := InsertPoint(r, x, le);
    r' := r[..j] + [x] + r[j..];
    InsertCount(r, x, j);
    InsertSorted(r, x, j, le);
  }

  /** Placing x anywhere in r adds exactly one x. */
  lemma InsertCount<T>(r: seq<T>, x: T, j: nat)
    requires j <= |r|
    ensures multiset(r[..j] + [x] + r[j..]) == multiset(r) + multiset{x}
  {
    assert r == r[..j] + r[j..];
  }

  /** The position after the last element of r that is `le` x, found from
      the end: x is `le` every element from there on. */
  method InsertPoint<T(!new)>(r: seq<T>, x: T, le: (T, T) -> bool) returns (j: nat)
    requires Total(le)
    ensures j <= |r| && (j > 0 ==> le(r[j - 1], x))
    ensures forall k :: j <= k < |r| ==> le(x, r[k])
  {
    j := |r|;
    while j > 0 && !le(r[j - 1], x)
      invariant 0 <= j <= |r|
      invariant forall k :: j <= k < |r| ==> le(x, r[k])
    {
      assert le(r[j - 1], x) || le(x, r[j - 1]);
      j := j - 1;
    }
  }

  /** Placing x at j keeps a sorted sequence sorted when the element
      before j is `le` x and x is `le` every element from j on. */
  lemma InsertSorted<T(!new)>(r: seq<T>, x: T, j: nat, le: (T, T) -> bool)
    requires Transitive(le) && SortedBy(r, le) && j <= |r|
    requires j > 0 ==> le(r[j - 1], x)
    requires forall k :: j <= k < |r| ==> le(x, r[k])
    ensures SortedBy(r[..j] + [x] + r[j..], le)
  {
    var r' := r[..j] + [x] + r[j..];
    forall a, b | 0 <= a < b < |r'|
      ensures le(r'[a], r'[b])
    {
      if b < j {
        assert r'[a] == r[a] && r'[b] == r[b];
      } else if b == j {
        assert r'[a] == r[a] && le(r[j - 1], x);
        if a < j - 1 {
          assert le(r[a], r[j - 1]);
        }
      } else if a < j {
        assert r'[a] == r[a] && r'[b] == r[b - 1];
      } else if a == j {
        assert r'[b] == r[b - 1];
      } else {
        assert r'[a] == r[a - 1] && r'[b] == r[b - 1];
      }
    }
  }

  /** A sorted permutation of s. */
  method Sort<T(!new)>(s: seq<T>, le: (T, T) -> bool) returns (r: seq<T>)
    requires Total(le) && Transitive(le)
    ensures multiset(r) == multiset(s)
    ensures SortedBy(r, le)
  {
    r := [];
    var i := 0;
    while i < |s|
      invariant i <= |s|
      invariant multiset(r) == multiset(s[..i])
      invariant SortedBy(r, le)
    {
      r := Insert(r, s[i], le);
      assert s[..i + 1] == s[..i] + [s[i]];
      i := i + 1;
    }
    assert s[..|s|] == s;
  }

  /** In a sequence without repeats each element occurs at most once. */
  lemma {:induction false} DistinctCount<T>(s: seq<T>, x: T)
    requires Distinct(s)
    ensures multiset(s)[x] <= 1
  {
    if s != [] {
      assert s == [s[0]] + s[1..];
      assert Distinct(s[1..]) by {
        forall i, j | 0 <= i < j < |s[1..]|
          ensures s[1..][i] != s[1..][j]
        {
          assert s[1..][i] == s[i + 1] && s[1..][j] == s[j + 1];
        }
      }
      DistinctCount(s[1..], x);
      if s[0] == x {
        assert x !in s[1..];
      }
    }
  }

  /** A permutation of a sequence without repeats has none either. */
  lemma DistinctPermutation<T>(s: seq<T>, r: seq<T>)
    requires Distinct(s) && multiset(r) == multiset(s)
    ensures Distinct(r)
  {
    forall i, j | 0 <= i < j < |r|
      ensures r[i] != r[j]
    {
      if r[i] == r[j] {
        assert r == r[..j] + r[j..];
        assert r[i] in r[..j] && r[j..][0] == r[j];
        assert multiset(r)[r[i]] == multiset(r[..j])[r[i]] + multiset(r[j..])[r[i]];
        DistinctCount(s, r[i]);
      }
    }
  }
}
