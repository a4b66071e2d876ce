/** Boyer-Moore search with the bad-character rule only (boyer-moore.c).
    bm_skip fills a 256-entry table from the needle; bm_find scans the
    haystack right to left inside each window and shifts by the larger
    of the table entry and the length of the matched suffix plus one. */
module BoyerMoore {
  import opened Bytes

  const INT_MAX: int := 0x7fff_ffff

  /** The needle occurs in the haystack starting at position p. */
  predicate MatchAt(n: seq<byte>, hs: seq<byte>, p: int)
  {
    0 <= p && p + |n| <= |hs| && hs[p..p + |n|] == n
  }

  /** Index of the last occurrence of c in x, or -1 when c does not occur. */
  function LastIndex(x: seq<byte>, c: byte): int
  {
    if x == [] then -1
    else if x[|x| - 1] == c then |x| - 1
    else LastIndex(x[..|x| - 1], c)
  }

  lemma {:induction false} LastIndexIsLast(x: seq<byte>, c: byte)
    ensures -1 <= LastIndex(x, c) < |x|
    ensures LastIndex(x, c) >= 0 ==> x[LastIndex(x, c)] == c
    ensures forall k :: LastIndex(x, c) < k < |x| ==> x[k] != c
  {
    if x != [] && x[|x| - 1] != c {
      var y := x[..|x| - 1];
      LastIndexIsLast(y, c);
      forall k | LastIndex(x, c) < k < |x| - 1 ensures x[k] != c {
        assert x[k] == y[k];
      }
    }
  }

  /** The bad-character shift for byte c: how far the end of the window may
      move so that the last c of the needle lands where c was seen. */
  function SkipEntry(x: seq<byte>, c: byte): int
  {
    var l := LastIndex(x, c);
    if l < 0 then |x| + 1 else |x| - l
  }

  /** `skip` is the table bm_skip builds for needle x. */
  predicate IsSkipTable(x: seq<byte>, skip: seq<int>)
  {
    |skip| == 256 && forall c: byte :: skip[c] == SkipEntry(x, c)
  }

  /** bm_skip: every entry becomes plen + 1, then each needle byte x[i]
      gets plen - i, later positions overwriting earlier ones. */
  method BmSkip(x: seq<byte>, skip: array<int>)
    requires skip.Length == 256
    modifies skip
    ensures IsSkipTable(x, skip[..])
  {
    var plen := |x|;
    var k := 256;
    while k != 0
      invariant 0 <= k <= 256
      invariant forall c :: k <= c < 256 ==> skip[c] == plen + 1
    {
      k := k - 1;
      skip[k] := plen + 1;
    }
    var i := 0;
    while i < plen
      invariant i <= plen
      invariant forall c: byte ::
        skip[c] == if LastIndex(x[..i], c) < 0 then plen + 1 else plen - LastIndex(x[..i], c)
    {
      assert x[..i + 1][..i] == x[..i];
      skip[x[i]] := plen - i;
      i := i + 1;
    }
    assert x[..plen] == x;
  }

  /** With a correct table, no window ending strictly between the window
      that failed at haystack position b and the next window can match. */
  lemma SkippedWindowsFail(n: seq<byte>, hs: seq<byte>, skip: seq<int>, b: nat, p: nat, w: int)
    requires IsSkipTable(n, skip)
    requires p < |n| && b < |hs| && hs[b] != n[p]
    requires b + |n| - p < w < b + skip[hs[b]]
    ensures !MatchAt(n, hs, w - |n|)
  {
    var c := hs[b];
    LastIndexIsLast(n, c);
    var q := w - |n|;
    if 0 <= q && q + |n| <= |hs| {
      assert q <= b < q + |n| && n[b - q] != c;
      assert hs[q..q + |n|][b - q] == c;
    }
  }

  /** bm_find: the position of the needle in the haystack, or None.
      The result is a true occurrence whatever the table holds; with the
      table bm_skip builds it is the leftmost one, and None means there is
      none. The source reads hs[-1] for an empty needle, so the needle must
      be non-empty, and it asserts hlen < INT_MAX. */
  method BmFind(n: seq<byte>, hs: seq<byte>, skip: seq<int>) returns (r: Option<nat>)
    requires 0 < |n| && |hs| < INT_MAX && |skip| == 256
    ensures r.Some? ==> MatchAt(n, hs, r.value)
    ensures IsSkipTable(n, skip) && r.Some? ==> forall q :: 0 <= q < r.value ==> !MatchAt(n, hs, q)
    ensures IsSkipTable(n, skip) && r.None? ==> forall q :: !MatchAt(n, hs, q)
  {
    var nlen := |n|;
    var e := nlen;
    while e <= |hs|
      invariant nlen <= e
      invariant IsSkipTable(n, skip) ==> forall q :: 0 <= q && q + nlen < e ==> !MatchAt(n, hs, q)
      decreases |hs| + 1 - e
    {
      var b, p := e, nlen;
      while true
        invariant 0 < p <= nlen && b == e - (nlen - p)
        invariant hs[b..e] == n[p..nlen]
        decreases p
      {
        b, p := b - 1, p - 1;
        if hs[b] != n[p] {
          break;
        }
        assert hs[b..e] == [hs[b]] + hs[b + 1..e];
        assert n[p..nlen] == [n[p]] + n[p + 1..nlen];
        if p == 0 {
          return Some(b);
        }
      }
      var skipStride := skip[hs[b]];
      var shiftStride := (nlen - p) + 1;
      var next := b + if skipStride - shiftStride > 0 then skipStride else shiftStride;
      if IsSkipTable(n, skip) {
        forall q | 0 <= q && q + nlen < next ensures !MatchAt(n, hs, q) {
          if q + nlen == e {
            assert hs[q..q + nlen][p] == hs[b];
          } else if q + nlen > e {
            SkippedWindowsFail(n, hs, skip, b, p, q + nlen);
          }
        }
      }
      e := next;
    }
    r := None;
  }
}
