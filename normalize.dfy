/** The URL normaliser (normalize.c) as the code runs it: every pass
    rewrites the static buffer uribuf in place, reading at `in` and
    writing at `out <= in`, and stops at the C string's NUL. Each pass is
    proved against its specification in NormalizeSpec. The ghost
    parameter n is where the NUL ending the pass's input string lies. */
module Normalize {
  import opened Bytes
  import opened NormalizeSpec

  const NADS_MAX_URI: nat := 16384
  const NADS_OK: nat := 1
  const NADS_FAIL: nat := 0
  const NADS_ERR_SUCCESS: nat := 0

  /** s[start..n] is a C string: a NUL at n and none before it. */
  ghost predicate CStringAt(s: seq<byte>, start: nat, n: nat)
  {
    start <= n < |s| && s[n] == NUL && NoNul(s[start..n])
  }

  /** memcpy of src to a[at..]. */
  method Put(a: array<byte>, at: nat, src: seq<byte>)
    requires at + |src| <= a.Length
    modifies a
    ensures forall k :: 0 <= k < |src| ==> a[at + k] == src[k]
    ensures forall k :: 0 <= k < a.Length && !(at <= k < at + |src|) ==> a[k] == old(a[k])
  {
    var j := 0;
    while j < |src|
      invariant j <= |src|
      invariant forall k :: 0 <= k < j ==> a[at + k] == src[k]
      invariant forall k :: 0 <= k < a.Length && !(at <= k < at + j) ==> a[k] == old(a[k])
    {
      a[at + j] := src[j];
      j := j + 1;
    }
  }

  /** out written pointwise at start and followed by a NUL is the C string
      there. */
  lemma CStringWritten(s: seq<byte>, start: nat, m: nat, out: seq<byte>)
    requires m == start + |out| < |s| && s[m] == NUL && NoNul(out)
    requires forall k :: 0 <= k < |out| ==> s[start + k] == out[k]
    ensures CStringAt(s, start, m) && s[start..m] == out
  {
    assert s[start..m] == out;
  }

  /** The state of n_hex's loop over the input a0[start..n]: bytes from i
      on are untouched, a[start..o] holds the output so far (ghost out), and
      that output followed by the decoding of the rest, from state st with
      pending digit h, is the decoding of the whole input. */
  ghost predicate HexLoop(a: array<byte>, a0: seq<byte>, start: nat, n: nat, i: nat, o: nat,
                          st: nat, h: byte, out: seq<byte>)
    reads a
  {
    |a0| == a.Length && CStringAt(a0, start, n) && start <= o <= i <= n && st <= 2 && o - start == |out| &&
    (forall k :: 0 <= k < start ==> a[k] == a0[k]) &&
    (forall k :: i <= k < a.Length ==> a[k] == a0[k]) &&
    (forall k :: 0 <= k < |out| ==> a[start + k] == out[k]) &&
    HexDecode(a0[start..n]) == PrependAll(out, HexRun(a0[i..n], st, if st == 2 then h else 0))
  }

  lemma HexLoopInit(a: array<byte>, start: nat, n: nat)
    requires CStringAt(a[..], start, n)
    ensures HexLoop(a, a[..], start, n, start, start, 0, 0, [])
  {
    ghost var s0 := a[..][start..n];
    assert a[..][start..n] == s0;
    assert PrependAll([], HexRun(s0, 0, 0)) == HexRun(s0, 0, 0) by {
      if HexRun(s0, 0, 0).Ok? {
        assert [] + HexRun(s0, 0, 0).value == HexRun(s0, 0, 0).value;
      }
    }
  }

  /** At the NUL, the input is used up: n_hex fails unless it is between
      escapes, and otherwise the output is the decoding. */
  lemma HexLoopDone(a: array<byte>, a0: seq<byte>, start: nat, n: nat, i: nat, o: nat,
                    st: nat, h: byte, out: seq<byte>)
    requires HexLoop(a, a0, start, n, i, o, st, h, out) && a[i] == NUL
    ensures i == n && o < a.Length
    ensures st != 0 ==> HexDecode(a0[start..n]) == Err(BadHex)
    ensures st == 0 ==> HexDecode(a0[start..n]) == Ok(out) && NoNul(out) && |out| <= n - start
  {
    assert a0[i..n] == [];
    if st == 0 {
      assert out + [] == out;
      HexRunShrinks(a0[start..n], 0, 0);
    }
  }

  /** One byte of n_hex's loop: copy it, open an escape, take a hex digit,
      or complete an escape; a byte that is not a hex digit inside an
      escape, and an escape that decodes to NUL, are errors. */
  method HexOne(a: array<byte>, ghost a0: seq<byte>, start: nat, ghost n: nat, i: nat, o: nat,
                st: nat, h: byte, ghost out: seq<byte>)
    returns (err: Option<Error>, o': nat, st': nat, h': byte, ghost out': seq<byte>)
    requires HexLoop(a, a0, start, n, i, o, st, h, out) && a[i] != NUL
    modifies a
    ensures err.None? ==> HexLoop(a, a0, start, n, i + 1, o', st', h', out')
    ensures err.Some? ==> HexDecode(a0[start..n]) == Err(err.value) && unchanged(a)
  {
    assert i < n;
    var c := a[i];
    ghost var r := a0[i..n];
    assert r[0] == c && r[1..] == a0[i + 1..n];
    err, o', st', h', out' := None, o, st, h, out;
    if st == 0 {
      if c == PERCENT {
        st' := 1;
      } else {
        a[o] := c;
        PrependAllAppend(out, [c], HexRun(r[1..], 0, 0));
        o', out' := o + 1, out + [c];
      }
    } else if IsHex(c) {
      if st == 1 {
        h', st' := c, 2;
      } else {
        var d := HexChar(h) * 16 + HexChar(c);
        st' := 0;
        if d == 0 {
          err := Some(NulChar);
          return;
        }
        a[o] := d as byte;
        PrependAllAppend(out, [d as byte], HexRun(r[1..], 0, 0));
        o', out' := o + 1, out + [d as byte];
      }
    } else {
      err := Some(BadHex);
    }
  }

  /** n_hex: percent-decode the string at start in place. */
  method Hex(a: array<byte>, start: nat, ghost n: nat) returns (err: Option<Error>, ghost m: nat)
    requires CStringAt(a[..], start, n)
    modifies a
    ensures forall k :: 0 <= k < a.Length && !(start <= k <= n) ==> a[k] == old(a[k])
    ensures err.None? <==> HexDecode(old(a[start..n])).Ok?
    ensures err.Some? ==> HexDecode(old(a[start..n])) == Err(err.value)
    ensures err.None? ==> start <= m <= n && CStringAt(a[..], start, m) && a[start..m] == HexDecode(old(a[start..n])).value
  {
    ghost var a0 := a[..];
    ghost var out: seq<byte> := [];
    var i, o := start, start;
    var st: nat := 0;
    var h: byte := 0;
    HexLoopInit(a, start, n);
    while a[i] != NUL
      invariant HexLoop(a, a0, start, n, i, o, st, h, out)
      decreases n - i
    {
      var e;
      e, o, st, h, out := HexOne(a, a0, start, n, i, o, st, h, out);
      if e.Some? {
        return e, 0;
      }
      i := i + 1;
    }
    HexLoopDone(a, a0, start, n, i, o, st, h, out);
    if st != 0 {
      return Some(BadHex), 0;
    }
    a[o] := NUL;
    m := o;
    CStringWritten(a[..], start, m, out);
    err := None;
  }

  /** What n_pcount's loop keeps true: the output so far followed by the
      collapse of the rest is the collapse of the whole input, and the
      count is the number of slashes output. */
  ghost predicate PCountInv(s0: seq<byte>, out: seq<byte>, rest: seq<byte>, prev: bool, cnt: nat)
  {
    Collapse(s0, false) == out + Collapse(rest, prev) && cnt == SlashCount(out)
  }

  lemma PCountStep(s0: seq<byte>, out: seq<byte>, rest: seq<byte>, prev: bool, cnt: nat)
    requires rest != [] && PCountInv(s0, out, rest, prev, cnt)
    ensures var c := SlashFold(rest[0]);
      if c == SLASH && prev then PCountInv(s0, out, rest[1..], true, cnt)
      else PCountInv(s0, out + [c], rest[1..], c == SLASH, cnt + (if c == SLASH then 1 else 0))
  {
    CollapseAdvance(Collapse(s0, false), out, rest, prev);
    SlashCountSnoc(out, SlashFold(rest[0]));
  }

  /** The state of n_pcount's loop over the input a0[start..n]: bytes at
      and after `i` are untouched, a[start..o] holds the output so far
      (ghost `out`), `last` is where the last slash was read (-1 for none). */
  ghost predicate PCountLoop(a: array<byte>, a0: seq<byte>, start: nat, n: nat, i: nat, o: nat,
                             last: int, cnt: nat, out: seq<byte>)
    reads a
  {
    |a0| == a.Length && CStringAt(a0, start, n) && start <= o <= i <= n && last < i && o - start == |out| &&
    a[..start] == a0[..start] &&
    (forall k :: i <= k < a.Length ==> a[k] == a0[k]) &&
    (forall k :: 0 <= k < |out| ==> a[start + k] == out[k]) &&
    PCountInv(a0[start..n], out, a0[i..n], last >= 0 && last == i - 1, cnt)
  }

  lemma PCountLoopInit(a: array<byte>, start: nat, n: nat)
    requires CStringAt(a[..], start, n)
    ensures PCountLoop(a, a[..], start, n, start, start, -1, 0, [])
  {
    assert a[..][start..n][0..] == a[..][start..n];
    assert [] + Collapse(a[..][start..n], false) == Collapse(a[..][start..n], false);
  }

  lemma PCountLoopDone(a: array<byte>, a0: seq<byte>, start: nat, n: nat, i: nat, o: nat,
                       last: int, cnt: nat, out: seq<byte>)
    requires PCountLoop(a, a0, start, n, i, o, last, cnt, out) && a[i] == NUL
    ensures i == n && out == Collapse(a0[start..n], false) && cnt == SlashCount(out)
    ensures NoNul(out) && o == start + |out| && |out| <= n - start
    ensures a[..start] == a0[..start] && a[start..o] == out
    ensures forall k :: n <= k < a.Length ==> a[k] == a0[k]
  {
    assert out + [] == out;
    CollapseProperties(a0[start..n], false);
  }

  /** One step of n_pcount's loop: fold a backslash, then either drop a
      repeated slash or copy the byte to the output. */
  method PCountOne(a: array<byte>, ghost a0: seq<byte>, start: nat, ghost n: nat, i: nat, o: nat,
                   last: int, cnt: nat, ghost out: seq<byte>)
    returns (i': nat, o': nat, last': int, cnt': nat, ghost out': seq<byte>)
    requires PCountLoop(a, a0, start, n, i, o, last, cnt, out) && a[i] != NUL
    modifies a
    ensures PCountLoop(a, a0, start, n, i', o', last', cnt', out') && i' == i + 1
  {
    assert i < n;
    ghost var r := a0[i..n];
    assert r[0] == a[i] && r[1..] == a0[i + 1..n];
    PCountStep(a0[start..n], out, r, last >= 0 && last == i - 1, cnt);
    if a[i] == BACKSLASH {
      a[i] := SLASH;
    }
    var c := a[i];
    i' := i + 1;
    if c == SLASH && last >= 0 && last == i - 1 {
      o', last', cnt', out' := o, i, cnt, out;
    } else {
      a[o] := c;
      o', last', cnt', out' := o + 1, if c == SLASH then i else last, if c == SLASH then cnt + 1 else cnt, out + [c];
    }
  }

  /** n_pcount: turn backslashes into slashes and drop repeated slashes in
      place; the count is the number of slashes kept. */
  method PCount(a: array<byte>, start: nat, ghost n: nat) returns (cnt: nat, ghost m: nat)
    requires CStringAt(a[..], start, n)
    modifies a
    ensures a[..start] == old(a[..start]) && a[n + 1..] == old(a[n + 1..])
    ensures start <= m <= n && CStringAt(a[..], start, m)
    ensures a[start..m] == Collapse(old(a[start..n]), false)
    ensures cnt == SlashCount(a[start..m])
  {
    ghost var a0 := a[..];
    ghost var out: seq<byte> := [];
    var i, o := start, start;
    var last: int := -1;
    cnt := 0;
    PCountLoopInit(a, start, n);
    while a[i] != NUL
      invariant PCountLoop(a, a0, start, n, i, o, last, cnt, out)
      decreases n - i
    {
      i, o, last, cnt, out := PCountOne(a, a0, start, n, i, o, last, cnt, out);
    }
    PCountLoopDone(a, a0, start, n, i, o, last, cnt, out);
    a[o] := NUL;
    m := o;
    assert a[start..m] == out;
  }

  /** What n_path's reconstruction loop has written after i of the kept
      components: those components joined, and a separator when more follow. */
  ghost function Rebuilt(ks: seq<seq<byte>>, i: nat): seq<byte>
    requires i <= |ks|
  {
    if i == 0 then [] else Join(ks[..i]) + (if i < |ks| then [SLASH] else [])
  }

  lemma RebuiltStep(ks: seq<seq<byte>>, i: nat)
    requires i < |ks|
    ensures Rebuilt(ks, i + 1) == Rebuilt(ks, i) + ks[i] + (if i < |ks| - 1 then [SLASH] else [])
  {
    assert ks[..i + 1][..i] == ks[..i];
    if i > 0 {
      assert Join(ks[..i + 1]) == Join(ks[..i]) + [SLASH] + ks[i];
    }
  }

  lemma {:induction false} RebuiltGrows(ks: seq<seq<byte>>, i: nat, j: nat)
    requires i <= j <= |ks|
    ensures |Rebuilt(ks, i)| <= |Rebuilt(ks, j)|
    decreases j - i
  {
    if i < j {
      RebuiltStep(ks, i);
      RebuiltGrows(ks, i + 1, j);
    }
  }

  lemma RebuiltAll(ks: seq<seq<byte>>)
    ensures Rebuilt(ks, |ks|) == Join(ks)
  {
    assert ks[..|ks|] == ks;
  }

  /** Reading one more byte of t extends its components as n_path's first
      loop does. */
  lemma GrabStep(t: seq<byte>, j: nat)
    requires j < |t|
    ensures t[j] == SLASH ==>
      (Components(t[..j + 1]) == Components(t[..j]) + [[]] && SlashCount(t[..j + 1]) == SlashCount(t[..j]) + 1)
    ensures t[j] != SLASH ==> SlashCount(t[..j + 1]) == SlashCount(t[..j])
    ensures t[j] != SLASH && Components(t[..j]) == [] ==> Components(t[..j + 1]) == []
    ensures t[j] != SLASH && Components(t[..j]) != [] ==>
      var cs := Components(t[..j]);
      Components(t[..j + 1]) == cs[..|cs| - 1] + [cs[|cs| - 1] + [t[j]]]
    ensures SlashCount(t[..j + 1]) <= SlashCount(t)
  {
    assert t[..j + 1][..j] == t[..j];
    SlashCountPrefix(t, j + 1);
  }

  /** The state of n_path's first loop over a0[start..m], on the buffer s
      and the component table cs: bytes from p on are untouched and cs[..i]
      holds the components of the input before p. */
  ghost predicate GrabInv(s: seq<byte>, cs: seq<seq<byte>>, a0: seq<byte>, start: nat, m: nat, p: nat, i: nat)
  {
    |a0| == |s| && CStringAt(a0, start, m) && start <= p <= m && i <= |cs| &&
    |cs| == SlashCount(a0[start..m]) &&
    (forall k :: 0 <= k < start ==> s[k] == a0[k]) &&
    (forall k :: p <= k < |s| ==> s[k] == a0[k]) &&
    cs[..i] == Components(a0[start..m][..p - start]) && i == SlashCount(a0[start..m][..p - start])
  }

  lemma GrabInvInit(s: seq<byte>, cs: seq<seq<byte>>, start: nat, m: nat)
    requires CStringAt(s, start, m) && |cs| == SlashCount(s[start..m])
    ensures GrabInv(s, cs, s, start, m, start, 0)
  {
    assert s[start..m][..0] == [];
  }

  /** A slash read by n_path's first loop becomes a NUL and opens a new
      component. */
  lemma GrabInvSlash(s: seq<byte>, cs: seq<seq<byte>>, a0: seq<byte>, start: nat, m: nat, p: nat, i: nat)
    requires GrabInv(s, cs, a0, start, m, p, i) && s[p] == SLASH
    ensures i < |cs| && GrabInv(s[p := NUL], cs[i := []], a0, start, m, p + 1, i + 1)
  {
    ghost var t := a0[start..m];
    assert s[p] == a0[p];
    assert p != m by { assert a0[m] == NUL; }
    assert t[p - start] == a0[p];
    GrabStep(t, p - start);
    assert i + 1 == SlashCount(t[..p + 1 - start]) <= SlashCount(t) == |cs|;
    assert cs[i := []][..i + 1] == cs[..i] + [[]];
    ghost var s' := s[p := NUL];
    assert forall k :: 0 <= k < start ==> s'[k] == a0[k];
    assert forall k :: p + 1 <= k < |s'| ==> s'[k] == a0[k];
  }

  /** Any other byte read by n_path's first loop extends the last
      component. */
  lemma GrabInvByte(s: seq<byte>, cs: seq<seq<byte>>, a0: seq<byte>, start: nat, m: nat, p: nat, i: nat)
    requires GrabInv(s, cs, a0, start, m, p, i) && s[p] != NUL && s[p] != SLASH && i > 0
    ensures GrabInv(s, cs[i - 1 := cs[i - 1] + [s[p]]], a0, start, m, p + 1, i)
  {
    ghost var t := a0[start..m];
    assert s[p] == a0[p];
    assert p != m by { assert a0[m] == NUL; }
    assert t[p - start] == a0[p];
    GrabStep(t, p - start);
    assert cs[i - 1 := cs[i - 1] + [s[p]]][..i] == cs[..i - 1] + [cs[i - 1] + [s[p]]];
  }

  /** Bytes before the first slash belong to no component. */
  lemma GrabInvSkip(s: seq<byte>, cs: seq<seq<byte>>, a0: seq<byte>, start: nat, m: nat, p: nat)
    requires GrabInv(s, cs, a0, start, m, p, 0) && s[p] != NUL && s[p] != SLASH
    ensures GrabInv(s, cs, a0, start, m, p + 1, 0)
  {
    ghost var t := a0[start..m];
    assert s[p] == a0[p];
    assert p != m by { assert a0[m] == NUL; }
    assert t[p - start] == a0[p];
    GrabStep(t, p - start);
  }

  lemma GrabInvDone(s: seq<byte>, cs: seq<seq<byte>>, a0: seq<byte>, start: nat, m: nat, p: nat, i: nat)
    requires GrabInv(s, cs, a0, start, m, p, i) && s[p] == NUL
    ensures cs == Components(a0[start..m])
    ensures s[..start] == a0[..start] && s[m..] == a0[m..]
  {
    ghost var t := a0[start..m];
    assert t[..p - start] == t;
    ComponentsCount(t);
  }

  /** n_path's first loop: one component per slash, each slash overwritten
      by a NUL. The components are kept as values (see README). */
  method GrabComponents(a: array<byte>, start: nat, ghost m: nat, cnt: nat) returns (c: array<seq<byte>>)
    requires CStringAt(a[..], start, m) && cnt == SlashCount(a[start..m])
    modifies a
    ensures fresh(c) && c[..] == Components(old(a[start..m]))
    ensures a[..start] == old(a[..start]) && a[m..] == old(a[m..])
  {
    ghost var a0 := a[..];
    c := new seq<byte>[cnt];
    var p := start;
    var i := 0;
    GrabInvInit(a[..], c[..], start, m);
    while a[p] != NUL
      invariant GrabInv(a[..], c[..], a0, start, m, p, i)
      decreases m - p
    {
      var b := a[p];
      if b == SLASH {
        GrabInvSlash(a[..], c[..], a0, start, m, p, i);
        a[p] := NUL;
        c[i] := [];
        i := i + 1;
      } else {
        if i > 0 {
          GrabInvByte(a[..], c[..], a0, start, m, p, i);
          c[i - 1] := c[i - 1] + [b];
        } else {
          GrabInvSkip(a[..], c[..], a0, start, m, p);
        }
      }
      p := p + 1;
    }
    GrabInvDone(a[..], c[..], a0, start, m, p, i);
  }

  /** n_path's second loop: drop "." and let ".." cancel the last kept
      component; out is how many components are kept in c[..out]. */
  method StripDots(c: array<seq<byte>>) returns (err: Option<Error>, out: nat)
    modifies c
    ensures out <= c.Length
    ensures err.None? <==> Resolve(old(c[..]), []).Ok?
    ensures err.Some? ==> err.value == Traversal && Resolve(old(c[..]), []) == Err(Traversal)
    ensures err.None? ==> c[..out] == Resolve(old(c[..]), []).value
  {
    ghost var cs := c[..];
    var i := 0;
    out := 0;
    assert cs[0..] == cs;
    while i < c.Length
      invariant out <= i <= c.Length && c[i..] == cs[i..]
      invariant Resolve(cs, []) == Resolve(cs[i..], c[..out])
    {
      ghost var r := cs[i..];
      ghost var kept := c[..out];
      assert r[0] == c[i] && r[1..] == cs[i + 1..];
      if c[i] == DOT1 {
      } else if c[i] == DOT2 {
        if out == 0 {
          return Some(Traversal), 0;
        }
        assert c[..out - 1] == kept[..|kept| - 1];
        out := out - 1;
      } else {
        c[out] := c[i];
        assert c[..out + 1] == kept + [r[0]];
        out := out + 1;
      }
      i := i + 1;
    }
    assert cs[i..] == [];
    err := None;
  }

  /** w has been written at `at` and ends before str; nothing else differs
      from a0, and the writing stays below lim. */
  ghost predicate Written(a: array<byte>, a0: seq<byte>, at: nat, str: nat, w: seq<byte>, lim: nat)
    reads a
  {
    |a0| == a.Length && str == at + |w| && str <= lim < a.Length &&
    (forall k :: 0 <= k < |w| ==> a[at + k] == w[k]) &&
    (forall k :: 0 <= k < a.Length && !(at <= k < str) ==> a[k] == a0[k])
  }

  /** Copy src to str and move str past it. */
  method Append(a: array<byte>, ghost a0: seq<byte>, at: nat, str: nat, ghost w: seq<byte>, ghost lim: nat, src: seq<byte>)
    returns (str': nat, ghost w': seq<byte>)
    requires Written(a, a0, at, str, w, lim) && str + |src| <= lim
    modifies a
    ensures Written(a, a0, at, str', w', lim) && w' == w + src
  {
    Put(a, str, src);
    str', w' := str + |src|, w + src;
    assert forall k :: 0 <= k < |w'| ==> a[at + k] == w'[k] by {
      forall k | 0 <= k < |w'|
        ensures a[at + k] == w'[k]
      {
        if k >= |w| {
          assert a[str + (k - |w|)] == src[k - |w|];
        }
      }
    }
  }

  /** When the third loop is done: the kept components, joined, follow a
      slash at start and end with a NUL at str. */
  lemma RebuildDone(a: seq<byte>, a0: seq<byte>, start: nat, ks: seq<seq<byte>>, str: nat)
    requires |a0| == |a| && start + 1 + |Join(ks)| == str < |a| && NoNul(Join(ks))
    requires a[start] == SLASH && a[str] == NUL
    requires forall k :: 0 <= k < |Join(ks)| ==> a[start + 1 + k] == Join(ks)[k]
    requires forall k :: 0 <= k < |a| && !(start <= k <= str) ==> a[k] == a0[k]
    ensures a[..start] == a0[..start] && (forall k :: str < k < |a| ==> a[k] == a0[k])
    ensures CStringAt(a, start, str) && a[start..str] == [SLASH] + Join(ks)
  {
    assert a[start..str] == [SLASH] + Join(ks);
  }

  /** n_path's third loop and its ending: write the kept components,
      joined by single slashes, from start + 1 on, then put a slash at start
      and a NUL after the last byte written. */
  method Rebuild(a: array<byte>, start: nat, c: array<seq<byte>>, out: nat) returns (str: nat)
    requires out <= c.Length && start + 1 + |Join(c[..out])| < a.Length && NoNul(Join(c[..out]))
    modifies a
    ensures str == start + 1 + |Join(c[..out])|
    ensures a[..start] == old(a[..start]) && forall k :: str < k < a.Length ==> a[k] == old(a[k])
    ensures CStringAt(a[..], start, str) && a[start..str] == [SLASH] + Join(c[..out])
  {
    ghost var ks := c[..out];
    ghost var a0 := a[..];
    ghost var w: seq<byte> := [];
    ghost var lim := start + 1 + |Join(ks)|;
    var i := 0;
    str := start + 1;
    RebuiltAll(ks);
    while i < out
      invariant i <= out && Written(a, a0, start + 1, str, w, lim) && w == Rebuilt(ks, i)
    {
      RebuiltStep(ks, i);
      RebuiltGrows(ks, i + 1, |ks|);
      str, w := Append(a, a0, start + 1, str, w, lim, c[i]);
      if i < out - 1 {
        str, w := Append(a, a0, start + 1, str, w, lim, [SLASH]);
      }
      i := i + 1;
    }
    a[start] := SLASH;
    a[str] := NUL;
    RebuildDone(a[..], a0, start, ks, str);
  }

  /** Path in terms of the components cs that n_path's first loop yields:
      it fails as resolving them fails, and otherwise the kept components,
      which hold no NUL, are joined after a slash into no more bytes than
      the input had (one, for an empty input). */
  lemma PathParts(s0: seq<byte>, cs: seq<seq<byte>>)
    requires NoNul(s0) && cs == Components(Collapse(s0, false))
    ensures Resolve(cs, []).Err? ==> Path(s0) == Err(Resolve(cs, []).error)
    ensures Resolve(cs, []).Ok? ==>
      var ks := Resolve(cs, []).value;
      Path(s0) == Ok([SLASH] + Join(ks)) && NoNul(Join(ks)) &&
      |Join(ks)| + 1 <= (if |s0| == 0 then 1 else |s0|)
  {
    var c := Collapse(s0, false);
    if Resolve(cs, []).Ok? {
      var ks := Resolve(cs, []).value;
      assert |Join(ks)| + 1 <= (if |s0| == 0 then 1 else |s0|) by {
        CollapseProperties(s0, false);
        ComponentsMeasure(c);
        ResolveMeasure(cs, []);
        if |ks| >= 1 {
          JoinLength(ks);
        }
      }
      assert NoNul(Join(ks)) by {
        CollapseProperties(s0, false);
        ComponentsCount(c);
        ResolveKeeps(cs, []);
        JoinNoNul(ks);
      }
    }
  }

  /** n_path: collapse slashes, split into components, resolve "." and
      "..", and write the result back as a rooted path. The output is never
      longer than the input, except that an empty input becomes "/", whose
      NUL lands at start + 1. */
  method PathPass(a: array<byte>, start: nat, ghost n: nat) returns (err: Option<Error>, ghost m: nat)
    requires CStringAt(a[..], start, n) && start + 1 < a.Length
    modifies a
    ensures a[..start] == old(a[..start])
    ensures forall k :: (if n == start then start + 1 else n) < k < a.Length ==> a[k] == old(a[k])
    ensures err.None? <==> Path(old(a[start..n])).Ok?
    ensures err.Some? ==> Path(old(a[start..n])) == Err(err.value)
    ensures err.None? ==> CStringAt(a[..], start, m) && a[start..m] == Path(old(a[start..n])).value
    ensures err.None? ==> m <= (if n == start then start + 1 else n)
  {
    ghost var s0 := a[start..n];
    var x, m1 := PCount(a, start, n);
    var c := GrabComponents(a, start, m1, x);
    ghost var cs := c[..];
    var e, out := StripDots(c);
    PathParts(s0, cs);
    if e.Some? {
      return e, 0;
    }
    m := Rebuild(a, start, c, out);
    err := None;
  }

  /** The low-bit masks n_ucs4 applies to a lead byte, by sequence length
      minus two. */
  const FMASK: seq<nat> := [0x1f, 0x0f, 0x07, 0x03, 0x01, 0]

  /** Testing bit (7 - len) of a lead byte whose top len bits are set tells
      whether the sequence length is len. */
  lemma LeadBit(c: byte, len: nat)
    requires 1 <= len <= 6 && c >= 0x80 && len <= LeadLen(c)
    ensures (c as int / Pow2(7 - len)) % 2 == 0 <==> LeadLen(c) == len
  {
    assert Pow2(1) == 2 && Pow2(2) == 4 && Pow2(3) == 8 && Pow2(4) == 16 && Pow2(5) == 32 && Pow2(6) == 64;
  }

  /** n_utf8's lead-length loop: count the one bits below the top bit,
      testing each with the single-bit mask n (`*in & n` is a bit test,
      written here as division). */
  method LeadLength(c: byte) returns (len: nat)
    requires c >= 0x80
    ensures len == LeadLen(c)
  {
    var n: nat := 0x40;
    len := 1;
    assert Pow2(6) == 64;
    while n != 0x01
      invariant 1 <= len <= 7 && n == Pow2(7 - len) && len <= LeadLen(c)
      decreases n
    {
      LeadBit(c, len);
      if (c as int / n) % 2 == 0 {
        return;
      }
      n := n / 2;
      len := len + 1;
    }
  }

  /** n_ucs4: the code point of the sequence chr[..len], taken from the back:
      six bits from each following byte and the FMASK bits of the lead. The
      pieces occupy disjoint bits, so the C code's |= is an addition, and
      `x & (2^k - 1)` is `x % 2^k`. */
  method Ucs4Of(chr: array<byte>, len: nat) returns (v: nat)
    requires 2 <= len <= 6 && len <= chr.Length
    ensures v == Ucs4(chr[..len])
  {
    ghost var cs := chr[..len];
    var i := len;
    var s := 0;
    v := 0;
    assert cs[len..] == [];
    assert FMASK[len - 2] + 1 == Pow2(7 - len) by {
      assert Pow2(1) == 2 && Pow2(2) == 4 && Pow2(3) == 8 && Pow2(4) == 16 && Pow2(5) == 32;
    }
    while i > 0
      invariant i <= len && s == 6 * (len - i)
      invariant i >= 1 ==> v == Low6(cs[i..])
      invariant i == 0 ==> v == Ucs4(cs)
    {
      i := i - 1;
      var mask := if i == 0 then FMASK[len - 2] else 0x3f;
      if i > 0 {
        Low6Cons(chr[i], cs[i + 1..]);
        assert cs[i..] == [chr[i]] + cs[i + 1..];
      }
      v := v + (chr[i] as nat % (mask + 1)) * Pow2(s);
      s := s + 6;
    }
  }

  /** What n_utf8's loop keeps true about the specification: outside a
      sequence (st == 0) the output so far followed by the pass over the
      rest is the pass over the whole input; inside one, the same with the
      pending bytes pend of a sequence of len bytes. */
  ghost predicate Utf8Inv(s0: seq<byte>, out: seq<byte>, rest: seq<byte>, st: nat, pend: seq<byte>, len: nat)
  {
    st <= 1 &&
    (st == 0 ==> Utf8(s0) == PrependAll(out, Utf8(rest))) &&
    (st == 1 ==> 2 <= len <= 6 && 1 <= |pend| < len && Utf8(s0) == PrependAll(out, Utf8Pending(pend, len, rest)))
  }

  lemma Utf8StepReject(s0: seq<byte>, out: seq<byte>, rest: seq<byte>, st: nat, pend: seq<byte>, len: nat)
    requires Utf8Inv(s0, out, rest, st, pend, len) && rest != [] && rest[0] >= 0xFE
    ensures Utf8(s0) == Err(BadUtf8)
  {
  }

  lemma Utf8StepAscii(s0: seq<byte>, out: seq<byte>, rest: seq<byte>, pend: seq<byte>, len: nat)
    requires Utf8Inv(s0, out, rest, 0, pend, len) && rest != [] && rest[0] < 0x80
    ensures Utf8Inv(s0, out + [rest[0]], rest[1..], 0, pend, len)
  {
    PrependAllAppend(out, [rest[0]], Utf8(rest[1..]));
  }

  lemma Utf8StepLead(s0: seq<byte>, out: seq<byte>, rest: seq<byte>, pend: seq<byte>, len: nat)
    requires Utf8Inv(s0, out, rest, 0, pend, len) && rest != [] && 0x80 <= rest[0] < 0xFE
    ensures LeadLen(rest[0]) == 1 ==> Utf8(s0) == Err(BadUtf8)
    ensures LeadLen(rest[0]) != 1 ==> Utf8Inv(s0, out, rest[1..], 1, [rest[0]], LeadLen(rest[0]))
  {
  }

  lemma Utf8StepCont(s0: seq<byte>, out: seq<byte>, rest: seq<byte>, pend: seq<byte>, len: nat)
    requires Utf8Inv(s0, out, rest, 1, pend, len) && rest != [] && rest[0] < 0xFE
    ensures |pend| + 1 >= len ==> Utf8Inv(s0, out + Emit(pend + [rest[0]]), rest[1..], 0, [], 0)
    ensures |pend| + 1 < len ==> Utf8Inv(s0, out, rest[1..], 1, pend + [rest[0]], len)
  {
    if |pend| + 1 >= len {
      PrependAllAppend(out, Emit(pend + [rest[0]]), Utf8(rest[1..]));
    }
  }

  lemma Utf8End(s0: seq<byte>, out: seq<byte>, st: nat, pend: seq<byte>, len: nat)
    requires Utf8Inv(s0, out, [], st, pend, len)
    ensures st == 0 ==> Utf8(s0) == Ok(out)
    ensures st == 1 ==> Utf8(s0) == Err(BadUtf8)
  {
    assert out + [] == out;
  }

  /** The state of n_utf8's loop over a0[start..n]: bytes outside
      a[start..i] are untouched, a[start..o] holds out, and chr[..k] holds
      the pending bytes of an unfinished sequence. */
  ghost predicate Utf8Loop(a: array<byte>, chr: array<byte>, a0: seq<byte>, start: nat, n: nat, i: nat, o: nat,
                           st: nat, k: nat, len: nat, out: seq<byte>)
    reads a, chr
  {
    |a0| == a.Length && CStringAt(a0, start, n) && chr.Length == 6 && k <= 6 &&
    start <= o <= i <= n && o == start + |out| && (st == 1 ==> o + k <= i) &&
    Holds(a[..], a0, start, i, out) && Utf8Inv(a0[start..n], out, a0[i..n], st, chr[..k], len)
  }

  /** s differs from a0 only in s[start..i], and s[start..] begins with out. */
  ghost predicate Holds(s: seq<byte>, a0: seq<byte>, start: nat, i: nat, out: seq<byte>)
  {
    |a0| == |s| && start + |out| <= |s| &&
    (forall j :: 0 <= j < |s| && !(start <= j < i) ==> s[j] == a0[j]) &&
    (forall j :: 0 <= j < |out| ==> s[start + j] == out[j])
  }

  /** Writing w right after out, within the bytes already read, keeps Holds
      with one more byte read. */
  lemma HoldsWrite(s: seq<byte>, s': seq<byte>, a0: seq<byte>, start: nat, i: nat, out: seq<byte>, w: seq<byte>)
    requires Holds(s, a0, start, i, out) && start + |out| + |w| <= i + 1 && i < |s| == |s'|
    requires forall j :: 0 <= j < |w| ==> s'[start + |out| + j] == w[j]
    requires forall j :: 0 <= j < |s| && !(start + |out| <= j < start + |out| + |w|) ==> s'[j] == s[j]
    ensures Holds(s', a0, start, i + 1, out + w)
  {
  }

  /** One round of n_utf8's loop, for the byte at i. */
  method Utf8One(a: array<byte>, chr: array<byte>, ghost a0: seq<byte>, start: nat, ghost n: nat, i: nat, o: nat,
                 st: nat, k: nat, len: nat, ghost out: seq<byte>)
    returns (err: Option<Error>, o': nat, st': nat, k': nat, len': nat, ghost out': seq<byte>)
    requires Utf8Loop(a, chr, a0, start, n, i, o, st, k, len, out) && a[i] != NUL && a != chr
    modifies a, chr
    ensures err.Some? ==> Utf8(a0[start..n]) == Err(err.value) && a[..] == old(a[..])
    ensures err.None? ==> Utf8Loop(a, chr, a0, start, n, i + 1, o', st', k', len', out')
  {
    assert i < n;
    assert a0[i..n][0] == a[i];
    if a[i] >= 0xFE {
      Utf8StepReject(a0[start..n], out, a0[i..n], st, chr[..k], len);
      return Some(BadUtf8), o, st, k, len, out;
    }
    if st == 0 {
      err, o', st', k', len', out' := Utf8Plain(a, chr, a0, start, n, i, o, k, len, out);
    } else {
      err, o', st', k', len', out' := Utf8Cont(a, chr, a0, start, n, i, o, k, len, out);
    }
  }

  /** n_utf8 outside a sequence: copy an ASCII byte, or start a sequence. */
  method Utf8Plain(a: array<byte>, chr: array<byte>, ghost a0: seq<byte>, start: nat, ghost n: nat, i: nat, o: nat,
                   k: nat, len: nat, ghost out: seq<byte>)
    returns (err: Option<Error>, o': nat, st': nat, k': nat, len': nat, ghost out': seq<byte>)
    requires Utf8Loop(a, chr, a0, start, n, i, o, 0, k, len, out) && i < n && a[i] < 0xFE && a != chr
    modifies a, chr
    ensures err.Some? ==> Utf8(a0[start..n]) == Err(err.value) && a[..] == old(a[..])
    ensures err.None? ==> Utf8Loop(a, chr, a0, start, n, i + 1, o', st', k', len', out')
  {
    ghost var s0, rest, pend := a0[start..n], a0[i..n], chr[..k];
    var c := a[i];
    assert rest[0] == c && rest[1..] == a0[i + 1..n];
    err := None;
    if c >= 0x80 {
      len' := LeadLength(c);
      Utf8StepLead(s0, out, rest, pend, len);
      if len' == 1 {
        return Some(BadUtf8), o, 0, k, len, out;
      }
      chr[0] := c;
      assert chr[..1] == [c];
      o', st', k', out' := o, 1, 1, out;
    } else {
      Utf8StepAscii(s0, out, rest, pend, len);
      a[o] := c;
      o', st', k', len', out' := o + 1, 0, k, len, out + [c];
    }
  }

  /** n_utf8 inside a sequence: store the byte in chr and, once the
      sequence is complete, write it out, as one byte when its code point
      is below 0x100. */
  method Utf8Cont(a: array<byte>, chr: array<byte>, ghost a0: seq<byte>, start: nat, ghost n: nat, i: nat, o: nat,
                  k: nat, len: nat, ghost out: seq<byte>)
    returns (err: Option<Error>, o': nat, st': nat, k': nat, len': nat, ghost out': seq<byte>)
    requires Utf8Loop(a, chr, a0, start, n, i, o, 1, k, len, out) && i < n && a[i] < 0xFE && a != chr
    modifies a, chr
    ensures err.None? && Utf8Loop(a, chr, a0, start, n, i + 1, o', st', k', len', out')
  {
    ghost var s0, rest, pend := a0[start..n], a0[i..n], chr[..k];
    var c := a[i];
    assert rest[0] == c && rest[1..] == a0[i + 1..n];
    err := None;
    chr[k] := c;
    assert chr[..k + 1] == pend + [c];
    o', st', k', len', out' := o, 1, k + 1, len, out;
    Utf8StepCont(s0, out, rest, pend, len);
    ghost var s := a[..];
    if k' >= len {
      st', k', len' := 0, 0, 0;
      ghost var p := chr[..len];
      o' := EmitSeq(a, chr, o, len, p);
      out' := out + Emit(p);
      HoldsWrite(s, a[..], a0, start, i, out, Emit(p));
      assert chr[..0] == [];
    } else {
      HoldsWrite(s, a[..], a0, start, i, out, []);
      assert out + [] == out;
    }
  }

  /** Write out the complete sequence chr[..len] at o: one byte when its
      code point is below 0x100, otherwise the sequence itself. */
  method EmitSeq(a: array<byte>, chr: array<byte>, o: nat, len: nat, ghost p: seq<byte>) returns (o': nat)
    requires 2 <= len <= 6 && len <= chr.Length && o + len <= a.Length && a != chr && chr[..len] == p
    modifies a
    ensures o' == o + |Emit(p)| && |a[..]| == |old(a[..])|
    ensures forall j :: 0 <= j < |Emit(p)| ==> a[..][o + j] == Emit(p)[j]
    ensures forall j :: 0 <= j < a.Length && !(o <= j < o') ==> a[..][j] == old(a[..])[j]
  {
    var v := Ucs4Of(chr, len);
    if v >= 0x100 {
      Put(a, o, chr[..len]);
      o' := o + len;
    } else {
      a[o] := v as byte;
      o' := o + 1;
    }
  }

  /** n_utf8: collapse UTF-8 sequences whose code point is below 0x100 to
      that byte, keep the others, and reject 0xFE, 0xFF, a stray
      continuation byte in lead position and a truncated sequence. An
      overlong NUL (0xC0 0x80) becomes a NUL byte, which ends the string
      for the passes that follow. */
  method Utf8Pass(a: array<byte>, start: nat, ghost n: nat) returns (err: Option<Error>, ghost m: nat)
    requires CStringAt(a[..], start, n)
    modifies a
    ensures forall j :: 0 <= j < a.Length && !(start <= j <= n) ==> a[j] == old(a[j])
    ensures err.None? <==> Utf8(old(a[start..n])).Ok?
    ensures err.Some? ==> Utf8(old(a[start..n])) == Err(err.value)
    ensures err.None? ==> start <= m <= n && a[m] == NUL && a[start..m] == Utf8(old(a[start..n])).value
  {
    ghost var a0 := a[..];
    ghost var out: seq<byte> := [];
    var chr := new byte[6];
    var i, o := start, start;
    var st: nat, k: nat, len: nat := 0, 0, 0;
    Utf8LoopInit(a, chr, start, n);
    while a[i] != NUL
      invariant Utf8Loop(a, chr, a0, start, n, i, o, st, k, len, out)
      decreases n - i
    {
      var e;
      e, o, st, k, len, out := Utf8One(a, chr, a0, start, n, i, o, st, k, len, out);
      if e.Some? {
        return e, 0;
      }
      i := i + 1;
    }
    Utf8LoopDone(a, chr, a0, start, n, i, o, st, k, len, out);
    if st != 0 {
      return Some(BadUtf8), 0;
    }
    a[o] := NUL;
    m := o;
    SliceOf(a[..], start, out);
    err := None;
  }

  /** At the NUL the input is used up: n_utf8 fails inside a sequence,
      and otherwise its output is a[start..o]. */
  lemma Utf8LoopDone(a: array<byte>, chr: array<byte>, a0: seq<byte>, start: nat, n: nat, i: nat, o: nat,
                     st: nat, k: nat, len: nat, out: seq<byte>)
    requires Utf8Loop(a, chr, a0, start, n, i, o, st, k, len, out) && a[i] == NUL
    ensures i == n && start <= o <= n && o == start + |out|
    ensures st != 0 ==> Utf8(a0[start..n]) == Err(BadUtf8)
    ensures st == 0 ==> Utf8(a0[start..n]) == Ok(out)
    ensures forall j :: 0 <= j < |out| ==> a[start + j] == out[j]
    ensures forall j :: 0 <= j < a.Length && !(start <= j < n) ==> a[j] == a0[j]
  {
    assert a0[i..n] == [];
    Utf8End(a0[start..n], out, st, chr[..k], len);
  }

  lemma Utf8LoopInit(a: array<byte>, chr: array<byte>, start: nat, n: nat)
    requires CStringAt(a[..], start, n) && chr.Length == 6
    ensures Utf8Loop(a, chr, a[..], start, n, start, start, 0, 0, 0, [])
  {
    ghost var s0 := a[..][start..n];
    assert Utf8(s0) == PrependAll([], Utf8(s0)) by {
      if Utf8(s0).Ok? {
        assert [] + Utf8(s0).value == Utf8(s0).value;
      }
    }
  }

  /** Bytes equal pointwise to out form the slice out. */
  lemma SliceOf(s: seq<byte>, start: nat, out: seq<byte>)
    requires start + |out| <= |s| && forall k :: 0 <= k < |out| ==> s[start + k] == out[k]
    ensures s[start..start + |out|] == out
  {
  }

  /** A buffer holding w at start and then a NUL holds the C string
      CStr(w) at start. */
  lemma CStrIn(s: seq<byte>, start: nat, w: seq<byte>)
    requires start + |w| < |s| && s[start..start + |w|] == w && s[start + |w|] == NUL
    ensures CStringAt(s, start, start + |CStr(w)|) && s[start..start + |CStr(w)|] == CStr(w)
  {
    var n := |CStr(w)|;
    assert s[start..start + n] == w[..n];
    if n < |w| {
      assert s[start + n] == w[n];
    }
  }

  /** What C code reads at start is the C string found there. */
  lemma CStrOf(s: seq<byte>, start: nat, n: nat)
    requires CStringAt(s, start, n)
    ensures CStr(s[start..]) == s[start..n]
  {
    assert s[start..][n - start] == NUL && s[start..][..n - start] == s[start..n];
    CStrUpTo(s[start..], n - start);
    CStrNoNul(s[start..n]);
  }

  /** n_utf8 and then n_path over the C string h at the start of a.
      Nothing after max(|h|, 1) changes. */
  method Recoding(a: array<byte>, ghost h: seq<byte>, ghost m1: nat) returns (err: Option<Error>, ghost m: nat)
    requires 2 <= a.Length && CStringAt(a[..], 0, m1) && a[0..m1] == h
    modifies a
    ensures forall k :: (if m1 == 0 then 1 else m1) < k < a.Length ==> a[k] == old(a[k])
    ensures err.None? <==> Recode(h).Ok?
    ensures err.Some? ==> Recode(h) == Err(err.value)
    ensures err.None? ==> CStringAt(a[..], 0, m) && a[..m] == Recode(h).value
    ensures err.None? ==> m <= (if m1 == 0 then 1 else m1)
  {
    var e2, m2 := Utf8Pass(a, 0, m1);
    if e2.Some? {
      return e2, 0;
    }
    ghost var w := a[0..m2];
    ghost var n2 := |CStr(w)|;
    CStrIn(a[..], 0, w);
    var e3, m3 := PathPass(a, 0, n2);
    if e3.Some? {
      return e3, 0;
    }
    m := m3;
    err := None;
    assert a[..m] == a[0..m];
  }

  /** The passes nads_normalize runs over the request target held at the
      start of a, up to its first NUL (u is the target's bytes, NUL at |u|):
      n_hex, n_utf8 and n_path. Nothing after max(|u|, 1) changes. */
  method UriPasses(a: array<byte>, ghost u: seq<byte>) returns (err: Option<Error>, ghost m: nat)
    requires 2 <= a.Length && |u| < a.Length && a[0..|u|] == u && a[|u|] == NUL
    modifies a
    ensures forall k :: (if |u| == 0 then 1 else |u|) < k < a.Length ==> a[k] == old(a[k])
    ensures err.None? <==> NormalizeUri(u).Ok?
    ensures err.Some? ==> NormalizeUri(u) == Err(err.value)
    ensures err.None? ==> CStringAt(a[..], 0, m) && a[..m] == NormalizeUri(u).value
    ensures err.None? ==> m <= (if |u| == 0 then 1 else |u|)
  {
    ghost var n0 := |CStr(u)|;
    CStrIn(a[..], 0, u);
    var e1, m1 := Hex(a, 0, n0);
    if e1.Some? {
      return e1, 0;
    }
    err, m := Recoding(a, a[0..m1], m1);
  }

  /** n_split's first loop: copy bytes until the first '?', which becomes
      a NUL; i is where copying stopped. */
  method SplitTarget(a: array<byte>, buf: seq<byte>) returns (i: nat, found: bool)
    requires |buf| < a.Length
    modifies a
    ensures i <= |buf| && (found ==> 0 < i && buf[i - 1] == QMARK && a[i - 1] == NUL) && (!found ==> i == |buf|)
    ensures forall k :: 0 <= k < (if found then i - 1 else i) ==> buf[k] != QMARK && a[k] == buf[k]
    ensures forall j :: i <= j < a.Length ==> a[j] == old(a[j])
  {
    i, found := 0, false;
    while i < |buf|
      invariant i <= |buf| && forall k :: 0 <= k < i ==> buf[k] != QMARK && a[k] == buf[k]
      invariant forall j :: i <= j < a.Length ==> a[j] == old(a[j])
    {
      if buf[i] == QMARK {
        a[i] := NUL;
        return i + 1, true;
      }
      a[i] := buf[i];
      i := i + 1;
    }
  }

  /** n_split's second loop and its end: copy the rest and add a NUL. */
  method SplitRest(a: array<byte>, buf: seq<byte>, i: nat)
    requires i <= |buf| < a.Length
    modifies a
    ensures forall j :: 0 <= j < i ==> a[j] == old(a[j])
    ensures forall j :: i <= j < |buf| ==> a[j] == buf[j]
    ensures a[|buf|] == NUL && forall j :: |buf| < j < a.Length ==> a[j] == old(a[j])
  {
    var k := i;
    while k < |buf|
      invariant i <= k <= |buf|
      invariant forall j :: 0 <= j < i ==> a[j] == old(a[j])
      invariant forall j :: i <= j < k ==> a[j] == buf[j]
      invariant forall j :: k <= j < a.Length ==> a[j] == old(a[j])
    {
      a[k] := buf[k];
      k := k + 1;
    }
    a[k] := NUL;
  }

  /** The normaliser's static state: the buffer uribuf that holds the
      split request and the last error code (nads_errcode). */
  class Normaliser {
    var uribuf: array<byte>
    var errcode: nat

    ghost predicate Valid()
      reads this
    {
      uribuf.Length == NADS_MAX_URI
    }

    constructor()
      ensures Valid() && fresh(uribuf) && errcode == NADS_ERR_SUCCESS
    {
      uribuf := new byte[NADS_MAX_URI];
      errcode := NADS_ERR_SUCCESS;
    }

    /** n_split: copy the request into uribuf, ending the target with a NUL
        where the first '?' was; the query, if any, starts right after that
        NUL and ends with a NUL too. The target always starts at 0. */
    method Split(buf: seq<byte>) returns (query: Option<nat>)
      requires Valid() && |buf| < NADS_MAX_URI
      modifies uribuf
      ensures query.None? <==> SplitQuery(buf).None?
      ensures uribuf[..|SplitUri(buf)|] == SplitUri(buf) && uribuf[|SplitUri(buf)|] == NUL
      ensures query.Some? ==>
        (query.value == |SplitUri(buf)| + 1 && uribuf[query.value..|buf|] == SplitQuery(buf).value &&
         uribuf[|buf|] == NUL)
      ensures forall j :: |buf| < j < uribuf.Length ==> uribuf[j] == old(uribuf[j])
    {
      var i, found := SplitTarget(uribuf, buf);
      query := if found then Some(i) else None;
      ghost var u := if found then i - 1 else i;
      SplitMark(buf, u, found);
      SplitRest(uribuf, buf, i);
      CopiedHalves(uribuf[..], buf, u);
    }

    /** nads_normalize: split, then n_hex, n_utf8 and n_path on the target
        and n_hex on the query. As written, with an empty target the query
        is read back as empty (see NormalizeAsWritten). */
    method Normalize(buf: seq<byte>) returns (status: nat, query: Option<nat>)
      requires Valid() && |buf| < NADS_MAX_URI
      modifies this, uribuf
      ensures Valid() && uribuf == old(uribuf)
      ensures Outcome(uribuf[..], status, query, errcode, NormalizeAsWritten(buf))
    {
      ghost var u := SplitUri(buf);
      query := Split(buf);
      ghost var s1 := uribuf[..];
      var e, m := UriPasses(uribuf, u);
      if e.Some? {
        errcode, status := ErrorCode(e.value), NADS_FAIL;
        OutcomeFailed(uribuf[..], query, buf, NormalizeUri(u));
        return;
      }
      if query.None? {
        CStrOf(uribuf[..], 0, m);
        assert uribuf[0..] == uribuf[..];
        errcode, status := NADS_ERR_SUCCESS, NADS_OK;
        OutcomeNoQuery(uribuf[..], buf);
        return;
      }
      var qp := query.value;
      ghost var q := QuerySeen(buf).value;
      QueryInPlace(s1, uribuf[..], buf, m);
      ghost var s2 := uribuf[..];
      var e2 := QueryPass(uribuf, qp, q);
      if e2.Some? {
        errcode, status := ErrorCode(e2.value), NADS_FAIL;
        OutcomeQueryFailed(uribuf[..], query, buf);
        return;
      }
      CStrKept(s2, uribuf[..], m, qp);
      errcode, status := NADS_ERR_SUCCESS, NADS_OK;
      OutcomeQuery(uribuf[..], qp, buf);
    }
  }

  /** Where n_split's first loop stops: at the first '?' when found, and
      the two halves it then copies. */
  lemma SplitMark(buf: seq<byte>, u: nat, found: bool)
    requires u <= |buf| && (found ==> u < |buf| && buf[u] == QMARK) && (!found ==> u == |buf|)
    requires forall k :: 0 <= k < u ==> buf[k] != QMARK
    ensures SplitUri(buf) == buf[..u]
    ensures SplitQuery(buf) == if found then Some(buf[u + 1..]) else None
  {
    assert QueryMark(buf) == (if found then u else -1);
  }

  /** Pointwise copies of the two halves are the halves. */
  lemma CopiedHalves(s: seq<byte>, buf: seq<byte>, u: nat)
    requires u <= |buf| < |s|
    requires forall j :: 0 <= j < u ==> s[j] == buf[j]
    requires forall j :: u < j < |buf| ==> s[j] == buf[j]
    ensures s[..u] == buf[..u]
    ensures u < |buf| ==> s[u + 1..|buf|] == buf[u + 1..]
  {
  }

  /** What nads_normalize leaves behind for the result r of the
      specification: the status, the error code, and the target and query
      as the C strings at uribuf[0] and uribuf[query]. */
  ghost predicate Outcome(s: seq<byte>, status: nat, query: Option<nat>, errcode: nat, r: Result<Normalised>)
  {
    (status == NADS_OK <==> r.Ok?) && (status == NADS_FAIL <==> r.Err?) &&
    (r.Err? ==> errcode == ErrorCode(r.error)) &&
    (r.Ok? ==>
      errcode == NADS_ERR_SUCCESS && CStr(s) == r.value.uri &&
      (query.Some? <==> r.value.query.Some?) &&
      (query.Some? ==> query.value < |s| && CStr(s[query.value..]) == r.value.query.value))
  }

  lemma OutcomeFailed(s: seq<byte>, query: Option<nat>, buf: seq<byte>, uri: Result<seq<byte>>)
    requires uri == NormalizeUri(SplitUri(buf)) && uri.Err?
    ensures Outcome(s, NADS_FAIL, query, ErrorCode(uri.error), NormalizeAsWritten(buf))
  {
  }

  lemma OutcomeNoQuery(s: seq<byte>, buf: seq<byte>)
    requires NormalizeUri(SplitUri(buf)).Ok? && SplitQuery(buf).None?
    requires CStr(s) == NormalizeUri(SplitUri(buf)).value
    ensures Outcome(s, NADS_OK, None, NADS_ERR_SUCCESS, NormalizeAsWritten(buf))
  {
  }

  lemma OutcomeQueryFailed(s: seq<byte>, query: Option<nat>, buf: seq<byte>)
    requires NormalizeUri(SplitUri(buf)).Ok? && QuerySeen(buf).Some?
    requires HexDecode(CStr(QuerySeen(buf).value)).Err?
    ensures Outcome(s, NADS_FAIL, query, ErrorCode(HexDecode(CStr(QuerySeen(buf).value)).error), NormalizeAsWritten(buf))
  {
  }

  lemma OutcomeQuery(s: seq<byte>, qp: nat, buf: seq<byte>)
    requires NormalizeUri(SplitUri(buf)).Ok? && QuerySeen(buf).Some?
    requires HexDecode(CStr(QuerySeen(buf).value)).Ok? && qp < |s|
    requires CStr(s) == NormalizeUri(SplitUri(buf)).value
    requires CStr(s[qp..]) == HexDecode(CStr(QuerySeen(buf).value)).value
    ensures Outcome(s, NADS_OK, Some(qp), NADS_ERR_SUCCESS, NormalizeAsWritten(buf))
  {
  }

  /** After the target's passes, the query n_hex sees sits where n_split
      put it, followed by a NUL: the target's passes stop short of it,
      except that n_path's terminator for an empty target lands on its
      first byte. */
  lemma QueryInPlace(s1: seq<byte>, s: seq<byte>, buf: seq<byte>, m: nat)
    requires |buf| < |s1| == |s| && SplitQuery(buf).Some?
    requires s1[|SplitUri(buf)| + 1..|buf|] == SplitQuery(buf).value && s1[|buf|] == NUL
    requires forall k :: (if SplitUri(buf) == [] then 1 else |SplitUri(buf)|) < k < |s| ==> s[k] == s1[k]
    requires CStringAt(s, 0, m) && (SplitUri(buf) == [] ==> m == 1)
    ensures var qp, q := |SplitUri(buf)| + 1, QuerySeen(buf).value;
      qp + |q| < |s| && s[qp..qp + |q|] == q && s[qp + |q|] == NUL
  {
    var u := SplitUri(buf);
    SplitRejoins(buf);
    if u != [] {
      assert s[|u| + 1..|buf|] == s1[|u| + 1..|buf|];
    }
  }

  /** n_hex on the query string q held at qp. */
  method QueryPass(a: array<byte>, qp: nat, ghost q: seq<byte>) returns (err: Option<Error>)
    requires qp + |q| < a.Length && a[qp..qp + |q|] == q && a[qp + |q|] == NUL
    modifies a
    ensures a[..qp] == old(a[..qp])
    ensures err.None? <==> HexDecode(CStr(q)).Ok?
    ensures err.Some? ==> HexDecode(CStr(q)) == Err(err.value)
    ensures err.None? ==> CStr(a[qp..]) == HexDecode(CStr(q)).value
  {
    CStrIn(a[..], qp, q);
    ghost var m;
    err, m := Hex(a, qp, qp + |CStr(q)|);
    if err.None? {
      CStrOf(a[..], qp, m);
    }
  }

  /** The C string at 0 survives a change beyond it. */
  lemma CStrKept(s: seq<byte>, s': seq<byte>, m: nat, qp: nat)
    requires CStringAt(s, 0, m) && m <= qp < |s'| == |s| && s'[..qp] == s[..qp]
    requires m == qp ==> CStr(s'[qp..]) == []
    ensures CStr(s') == s[..m]
  {
    assert s'[m] == NUL by {
      if m < qp {
        assert s'[..qp][m] == s[..qp][m];
      }
    }
    assert s'[..m] == s[..m];
    CStrOf(s', 0, m);
    assert s'[0..] == s';
  }
}
