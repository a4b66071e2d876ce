/** The non-blocking I/O reactor of nbio.c. An I/O thread keeps every
    registered endpoint on exactly one of three lists (active, inactive,
    deleted), each in list order. Endpoints are numbered; the mask and
    flags bytes of each live in `eps`. The eventloop plugin's hooks and
    the endpoints' read/write/dtor callbacks are not code this model can
    see: each call is recorded, in order, in `hooks`, and a callback is
    taken to change nothing. */
module Nbio {
  import opened Bytes

  const READ: bv8 := 1
  const WRITE: bv8 := 2
  const ERROR: bv8 := 4
  const WAIT: bv8 := 7
  /** The value of NBIO_DELETED. */
  const NBIO_DELETED: nat := 0x8000
  /** What storing NBIO_DELETED in the uint8_t mask field leaves there
      (see DeletedTruncates). */
  const DELETED: bv8 := 0

  /** The store keeps the low byte of NBIO_DELETED, which is 0: a deleted
      endpoint's mask cannot be told from one that waits for nothing. */
  lemma DeletedTruncates()
    ensures NBIO_DELETED % 0x100 == DELETED as int
    ensures DELETED & WAIT == 0
  {
  }

  /** The mask and flags bytes of one endpoint. */
  datatype Ep = Ep(mask: bv8, flags: bv8)

  /** An eventloop plugin: its name and whether its init hook succeeds. */
  datatype Eventloop = Eventloop(name: string, initOk: bool)

  /** The three lists of an I/O thread. */
  datatype Queue = ActiveList | InactiveList | DeletedList

  /** A call out of nbio.c: a plugin hook or an endpoint callback. */
  datatype Hook =
    | PluginActive(n: nat)
    | PluginInactive(n: nat)
    | PluginPump
    | PluginFini
    | Read(n: nat)
    | Write(n: nat)
    | Dtor(n: nat)

  /** The list with n unlinked. */
  function Remove(s: seq<nat>, n: nat): seq<nat>
  {
    if s == [] then []
    else if s[0] == n then Remove(s[1..], n)
    else [s[0]] + Remove(s[1..], n)
  }

  /** Unlinking n keeps every other element and only them; a list
      without n is unchanged. */
  lemma {:induction false} RemoveIn(s: seq<nat>, n: nat)
    ensures forall m :: m in Remove(s, n) <==> m in s && m != n
    ensures n !in s ==> Remove(s, n) == s
    decreases |s|
  {
    if s != [] {
      RemoveIn(s[1..], n);
      assert s == [s[0]] + s[1..];
    }
  }

  lemma {:induction false} RemoveDistinct(s: seq<nat>, n: nat)
    requires Distinct(s)
    ensures Distinct(Remove(s, n))
    decreases |s|
  {
    if s != [] {
      RemoveDistinct(s[1..], n);
      if s[0] != n {
        var r := Remove(s[1..], n);
        RemoveIn(s[1..], n);
        assert s[0] !in r;
        forall i, j | 0 <= i < j < |[s[0]] + r|
          ensures ([s[0]] + r)[i] != ([s[0]] + r)[j]
        {
          if i > 0 {
            assert ([s[0]] + r)[i] == r[i - 1];
          }
        }
      }
    }
  }

  /** Unlinking the element of a list that sits between h and t, both of
      which are free of it. */
  lemma {:induction false} RemoveMiddle(h: seq<nat>, n: nat, t: seq<nat>)
    requires n !in h && n !in t
    ensures Remove(h + [n] + t, n) == h + t
    decreases |h|
  {
    var s := h + [n] + t;
    if h == [] {
      assert s[0] == n && s[1..] == t;
      RemoveIn(t, n);
    } else {
      assert s[0] == h[0] && s[0] != n;
      assert s[1..] == h[1..] + [n] + t;
      RemoveMiddle(h[1..], n, t);
      assert Remove(s, n) == [h[0]] + (h[1..] + t);
      assert [h[0]] + (h[1..] + t) == h + t;
    }
  }

  /** list_move_tail: n leaves its list and goes to the tail of `to`. */
  function MoveTail(s: seq<nat>, n: nat, here: bool): seq<nat>
  {
    Remove(s, n) + (if here then [n] else [])
  }

  /** The list n is on, given the three lists. */
  function Where(a: seq<nat>, i: seq<nat>, d: seq<nat>, n: nat): Option<Queue>
  {
    if n in a then Some(ActiveList)
    else if n in i then Some(InactiveList)
    else if n in d then Some(DeletedList)
    else None
  }

  /** A move puts n on the list asked for and leaves every other element where it was. */
  lemma MoveWhere(a: seq<nat>, i: seq<nat>, d: seq<nat>, n: nat, q: Queue, m: nat)
    ensures Where(MoveTail(a, n, q == ActiveList), MoveTail(i, n, q == InactiveList),
                  MoveTail(d, n, q == DeletedList), m) ==
            if m == n then Some(q) else Where(a, i, d, m)
  {
    RemoveIn(a, n);
    RemoveIn(i, n);
    RemoveIn(d, n);
  }

  /** Every key is on exactly one of the three lists, once. */
  ghost predicate Partition(a: seq<nat>, i: seq<nat>, d: seq<nat>, keys: set<nat>)
  {
    Distinct(a) && Distinct(i) && Distinct(d) &&
    (forall n :: n in a ==> n !in i && n !in d) &&
    (forall n :: n in i ==> n !in d) &&
    (forall n :: n in keys <==> n in a || n in i || n in d)
  }

  lemma MoveDistinct(s: seq<nat>, n: nat, here: bool)
    requires Distinct(s)
    ensures Distinct(MoveTail(s, n, here))
  {
    RemoveDistinct(s, n);
    RemoveIn(s, n);
    var r := Remove(s, n);
    if here {
      forall x, y | 0 <= x < y < |r + [n]| ensures (r + [n])[x] != (r + [n])[y]
      {
        if y == |r| {
          assert (r + [n])[x] == r[x];
        } else {
          assert (r + [n])[x] == r[x] && (r + [n])[y] == r[y];
        }
      }
    }
  }

  /** After a move the lists stay pairwise disjoint. */
  lemma MoveDisjoint(a: seq<nat>, i: seq<nat>, d: seq<nat>, n: nat, q: Queue,
                     a2: seq<nat>, i2: seq<nat>, d2: seq<nat>)
    requires forall m :: m in a ==> m !in i && m !in d
    requires forall m :: m in i ==> m !in d
    requires a2 == MoveTail(a, n, q == ActiveList) && i2 == MoveTail(i, n, q == InactiveList)
    requires d2 == MoveTail(d, n, q == DeletedList)
    ensures forall m :: m in a2 ==> m !in i2 && m !in d2
    ensures forall m :: m in i2 ==> m !in d2
  {
    RemoveIn(a, n);
    RemoveIn(i, n);
    RemoveIn(d, n);
  }

  /** After a move the lists hold the old keys and n. */
  lemma MoveKeys(a: seq<nat>, i: seq<nat>, d: seq<nat>, keys: set<nat>, n: nat, q: Queue,
                 a2: seq<nat>, i2: seq<nat>, d2: seq<nat>)
    requires forall m :: m in keys <==> m in a || m in i || m in d
    requires a2 == MoveTail(a, n, q == ActiveList) && i2 == MoveTail(i, n, q == InactiveList)
    requires d2 == MoveTail(d, n, q == DeletedList)
    ensures forall m :: m in keys + {n} <==> m in a2 || m in i2 || m in d2
  {
    RemoveIn(a, n);
    RemoveIn(i, n);
    RemoveIn(d, n);
  }

  /** A move keeps the partition, and registers n if it was new. */
  lemma MovePartition(a: seq<nat>, i: seq<nat>, d: seq<nat>, keys: set<nat>, n: nat, q: Queue)
    requires Partition(a, i, d, keys)
    ensures Partition(MoveTail(a, n, q == ActiveList), MoveTail(i, n, q == InactiveList),
                      MoveTail(d, n, q == DeletedList), keys + {n})
  {
    MoveDistinct(a, n, q == ActiveList);
    MoveDistinct(i, n, q == InactiveList);
    MoveDistinct(d, n, q == DeletedList);
    var a2 := MoveTail(a, n, q == ActiveList);
    var i2 := MoveTail(i, n, q == InactiveList);
    var d2 := MoveTail(d, n, q == DeletedList);
    MoveDisjoint(a, i, d, n, q, a2, i2, d2);
    MoveKeys(a, i, d, keys, n, q, a2, i2, d2);
  }

  /** Adding a key the partition already has changes nothing. */
  lemma PartitionHas(a: seq<nat>, i: seq<nat>, d: seq<nat>, keys: set<nat>, n: nat)
    requires n in keys && Partition(a, i, d, keys + {n})
    ensures Partition(a, i, d, keys)
  {
    assert keys + {n} == keys;
  }

  /** The callbacks one pump pass makes for endpoint n in state e. */
  function Fired(n: nat, e: Ep): seq<Hook>
  {
    if e.flags & ERROR != 0 then []
    else
      (if (e.flags & e.mask) & READ != 0 then [Read(n)] else []) +
      (if (e.flags & e.mask) & WRITE != 0 then [Write(n)] else [])
  }

  /** Whether a pump pass retires endpoint n. */
  predicate Faulted(eps: map<nat, Ep>, n: nat)
  {
    n in eps && eps[n].flags & ERROR != 0
  }

  /** The endpoints of s a pump pass leaves on the active list. */
  function Healthy(s: seq<nat>, eps: map<nat, Ep>): seq<nat>
  {
    if s == [] then [] else
    Healthy(s[..|s| - 1], eps) + (if Faulted(eps, s[|s| - 1]) then [] else [s[|s| - 1]])
  }

  /** The endpoints of s a pump pass moves to the deleted list. */
  function Faulty(s: seq<nat>, eps: map<nat, Ep>): seq<nat>
  {
    if s == [] then [] else
    Faulty(s[..|s| - 1], eps) + (if Faulted(eps, s[|s| - 1]) then [s[|s| - 1]] else [])
  }

  /** A pump pass keeps on the active list exactly the endpoints of s
      that are not flagged with an error, and retires exactly the others. */
  lemma {:induction false} PassSplits(s: seq<nat>, eps: map<nat, Ep>)
    ensures forall n :: n in Healthy(s, eps) <==> n in s && !Faulted(eps, n)
    ensures forall n :: n in Faulty(s, eps) <==> n in s && Faulted(eps, n)
    decreases |s|
  {
    if s != [] {
      PassSplits(s[..|s| - 1], eps);
      assert s == s[..|s| - 1] + [s[|s| - 1]];
    }
  }

  /** The callbacks a pump pass over s makes, in order. */
  function Callbacks(s: seq<nat>, eps: map<nat, Ep>): seq<Hook>
    requires forall n :: n in s ==> n in eps
  {
    if s == [] then [] else
    Callbacks(s[..|s| - 1], eps) + Fired(s[|s| - 1], eps[s[|s| - 1]])
  }

  /** A retired endpoint's record: mask NBIO_DELETED, flags 0. */
  function Retire(eps: map<nat, Ep>, s: seq<nat>): (r: map<nat, Ep>)
    ensures r.Keys == eps.Keys
  {
    map n | n in eps :: if n in s then Ep(DELETED, 0) else eps[n]
  }

  /** The dtor calls for the endpoints of s, in order. */
  function Dtors(s: seq<nat>): (r: seq<Hook>)
    ensures |r| == |s| && forall k :: 0 <= k < |s| ==> r[k] == Dtor(s[k])
  {
    if s == [] then [] else [Dtor(s[0])] + Dtors(s[1..])
  }

  lemma DtorsSnoc(s: seq<nat>, n: nat)
    ensures Dtors(s + [n]) == Dtors(s) + [Dtor(n)]
  {
    var l, r := Dtors(s + [n]), Dtors(s) + [Dtor(n)];
    assert |l| == |r|;
    forall k | 0 <= k < |l| ensures l[k] == r[k] {
      if k < |s| {
        assert (s + [n])[k] == s[k];
      }
    }
  }

  /** The plugin's active hook for each endpoint of s, in order. */
  function Activations(s: seq<nat>): (r: seq<Hook>)
    ensures |r| == |s| && forall k :: 0 <= k < |s| ==> r[k] == PluginActive(s[k])
  {
    if s == [] then [] else [PluginActive(s[0])] + Activations(s[1..])
  }

  /** A read callback fires for n exactly when n is on the list, is not
      flagged with an error, and READ is both flagged and wanted. */
  lemma {:induction false} ReadGated(s: seq<nat>, eps: map<nat, Ep>, n: nat)
    requires forall m :: m in s ==> m in eps
    ensures Read(n) in Callbacks(s, eps) <==>
      n in s && eps[n].flags & ERROR == 0 && (eps[n].flags & eps[n].mask) & READ != 0
    decreases |s|
  {
    if s != [] {
      ReadGated(s[..|s| - 1], eps, n);
      assert s == s[..|s| - 1] + [s[|s| - 1]];
      FiredRead(s[|s| - 1], eps[s[|s| - 1]], n);
    }
  }

  /** One endpoint's callbacks include a read for n exactly when it is n,
      without an error flag, with READ flagged and wanted. */
  lemma FiredRead(m: nat, e: Ep, n: nat)
    ensures Read(n) in Fired(m, e) <==>
      m == n && e.flags & ERROR == 0 && (e.flags & e.mask) & READ != 0
  {
  }

  /** The same gate for write callbacks. */
  lemma {:induction false} WriteGated(s: seq<nat>, eps: map<nat, Ep>, n: nat)
    requires forall m :: m in s ==> m in eps
    ensures Write(n) in Callbacks(s, eps) <==>
      n in s && eps[n].flags & ERROR == 0 && (eps[n].flags & eps[n].mask) & WRITE != 0
    decreases |s|
  {
    if s != [] {
      WriteGated(s[..|s| - 1], eps, n);
      assert s == s[..|s| - 1] + [s[|s| - 1]];
      FiredWrite(s[|s| - 1], eps[s[|s| - 1]], n);
    }
  }

  /** One endpoint's callbacks include a write for n exactly when it is n,
      without an error flag, with WRITE flagged and wanted. */
  lemma FiredWrite(m: nat, e: Ep, n: nat)
    ensures Write(n) in Fired(m, e) <==>
      m == n && e.flags & ERROR == 0 && (e.flags & e.mask) & WRITE != 0
  {
  }

  /** The dtor calls for a duplicate-free list name each of its endpoints once. */
  lemma DtorsOnce(s: seq<nat>, n: nat)
    requires Distinct(s)
    ensures Distinct(Dtors(s)) && (Dtor(n) in Dtors(s) <==> n in s)
  {
    var r := Dtors(s);
    forall x, y | 0 <= x < y < |r| ensures r[x] != r[y]
    {
      assert s[x] != s[y];
    }
    if Dtor(n) in r {
      var k :| 0 <= k < |r| && r[k] == Dtor(n);
      assert s[k] == n;
    }
    if n in s {
      var k :| 0 <= k < |s| && s[k] == n;
      assert r[k] == Dtor(n);
    }
  }

  /** The map without the keys of s. */
  function Forget(eps: map<nat, Ep>, s: seq<nat>): (r: map<nat, Ep>)
    ensures forall n :: n in r <==> n in eps && n !in s
  {
    map n | n in eps && n !in s :: eps[n]
  }

  /** What a pump pass has produced once it has handled the first i
      endpoints of s (the active list it started from): the endpoints it
      kept, the deleted list, the records and the calls made. */
  ghost predicate PassedUpTo(s: seq<nat>, i: nat, eps0: map<nat, Ep>, d0: seq<nat>, h0: seq<Hook>,
                             kept: seq<nat>, d: seq<nat>, eps: map<nat, Ep>, hooks: seq<Hook>)
  {
    i <= |s| && (forall n :: n in s ==> n in eps0) &&
    kept == Healthy(s[..i], eps0) &&
    d == d0 + Faulty(s[..i], eps0) &&
    eps == Retire(eps0, Faulty(s[..i], eps0)) &&
    hooks == h0 + Callbacks(s[..i], eps0)
  }

  lemma PassStart(s: seq<nat>, eps0: map<nat, Ep>, d0: seq<nat>, h0: seq<Hook>)
    requires forall n :: n in s ==> n in eps0
    ensures PassedUpTo(s, 0, eps0, d0, h0, [], d0, eps0, h0)
  {
    assert s[..0] == [];
    assert Retire(eps0, []) == eps0;
  }

  lemma PassDone(s: seq<nat>, eps0: map<nat, Ep>, d0: seq<nat>, h0: seq<Hook>,
                 kept: seq<nat>, d: seq<nat>, eps: map<nat, Ep>, hooks: seq<Hook>)
    requires PassedUpTo(s, |s|, eps0, d0, h0, kept, d, eps, hooks)
    ensures kept == Healthy(s, eps0) && d == d0 + Faulty(s, eps0)
    ensures eps == Retire(eps0, Faulty(s, eps0)) && hooks == h0 + Callbacks(s, eps0)
  {
    assert s[..|s|] == s;
  }

  /** The next endpoint of the pass still has its starting record. */
  lemma PassStep(s: seq<nat>, i: nat, eps0: map<nat, Ep>, d0: seq<nat>, h0: seq<Hook>,
                 kept: seq<nat>, d: seq<nat>, eps: map<nat, Ep>, hooks: seq<Hook>)
    requires PassedUpTo(s, i, eps0, d0, h0, kept, d, eps, hooks) && i < |s| && Distinct(s)
    ensures s[i] in eps && eps[s[i]] == eps0[s[i]]
  {
    var n := s[i];
    PassSplits(s[..i], eps0);
    assert n !in s[..i] by {
      forall j | 0 <= j < i ensures s[..i][j] != n { assert s[j] != s[i]; }
    }
  }

  /** Retiring the next endpoint, flagged with an error. */
  lemma PassRetire(s: seq<nat>, i: nat, eps0: map<nat, Ep>, d0: seq<nat>, h0: seq<Hook>,
                   kept: seq<nat>, d: seq<nat>, eps: map<nat, Ep>, hooks: seq<Hook>)
    requires PassedUpTo(s, i, eps0, d0, h0, kept, d, eps, hooks) && i < |s|
    requires eps0[s[i]].flags & ERROR != 0
    ensures PassedUpTo(s, i + 1, eps0, d0, h0, kept, d + [s[i]], eps[s[i] := Ep(DELETED, 0)], hooks)
  {
    var n := s[i];
    var pre := s[..i];
    var f := Faulty(pre, eps0);
    assert s[..i + 1] == pre + [n];
    assert (pre + [n])[..|pre + [n]| - 1] == pre;
    assert Healthy(pre + [n], eps0) == Healthy(pre, eps0);
    assert Faulty(pre + [n], eps0) == f + [n];
    assert Callbacks(pre + [n], eps0) == Callbacks(pre, eps0) + Fired(n, eps0[n]);
    assert Retire(eps0, f + [n]) == eps[n := Ep(DELETED, 0)];
  }

  /** Making the next endpoint's callbacks, not flagged with an error. */
  lemma PassFire(s: seq<nat>, i: nat, eps0: map<nat, Ep>, d0: seq<nat>, h0: seq<Hook>,
                 kept: seq<nat>, d: seq<nat>, eps: map<nat, Ep>, hooks: seq<Hook>)
    requires PassedUpTo(s, i, eps0, d0, h0, kept, d, eps, hooks) && i < |s|
    requires eps0[s[i]].flags & ERROR == 0
    ensures PassedUpTo(s, i + 1, eps0, d0, h0, kept + [s[i]], d, eps, hooks + Fired(s[i], eps0[s[i]]))
  {
    var n := s[i];
    var pre := s[..i];
    assert s[..i + 1] == pre + [n];
    assert (pre + [n])[..|pre + [n]| - 1] == pre;
    assert Healthy(pre + [n], eps0) == Healthy(pre, eps0) + [n];
    assert Faulty(pre + [n], eps0) == Faulty(pre, eps0);
    assert Callbacks(pre + [n], eps0) == Callbacks(pre, eps0) + Fired(n, eps0[n]);
  }

  /** A filter of a duplicate-free list has no duplicates. */
  lemma {:induction false} FilterDistinct(s: seq<nat>, eps: map<nat, Ep>)
    requires Distinct(s)
    ensures Distinct(Healthy(s, eps)) && Distinct(Faulty(s, eps))
    decreases |s|
  {
    if s != [] {
      var p := s[..|s| - 1];
      var x := s[|s| - 1];
      assert Distinct(p) by {
        forall i, j | 0 <= i < j < |p| ensures p[i] != p[j] { assert p[i] == s[i] && p[j] == s[j]; }
      }
      FilterDistinct(p, eps);
      PassSplits(p, eps);
      assert x !in p by {
        forall j | 0 <= j < |p| ensures p[j] != x { assert p[j] == s[j]; }
      }
      SnocDistinct(Healthy(p, eps), x);
      SnocDistinct(Faulty(p, eps), x);
    }
  }

  lemma SnocDistinct(s: seq<nat>, x: nat)
    requires Distinct(s) && x !in s
    ensures Distinct(s + [x])
  {
    forall i, j | 0 <= i < j < |s + [x]| ensures (s + [x])[i] != (s + [x])[j]
    {
      assert (s + [x])[i] == s[i];
      if j < |s| { assert (s + [x])[j] == s[j]; }
    }
  }

  /** A pump pass keeps the partition: the active list splits into the
      kept endpoints and the ones appended to the deleted list. */
  lemma PassPartition(s: seq<nat>, inact: seq<nat>, d0: seq<nat>, eps0: map<nat, Ep>,
                       kept: seq<nat>, d: seq<nat>, keys: set<nat>)
    requires Partition(s, inact, d0, eps0.Keys)
    requires kept == Healthy(s, eps0) && d == d0 + Faulty(s, eps0)
    requires keys == Retire(eps0, Faulty(s, eps0)).Keys
    ensures Partition(kept, inact, d, keys)
  {
    FilterDistinct(s, eps0);
    PassSplits(s, eps0);
    var f := Faulty(s, eps0);
    forall i, j | 0 <= i < j < |d| ensures d[i] != d[j]
    {
      if j < |d0| {
        assert d[i] == d0[i] && d[j] == d0[j];
      } else if i >= |d0| {
        assert d[i] == f[i - |d0|] && d[j] == f[j - |d0|];
      } else {
        assert d[i] == d0[i] && d[i] in d0;
        assert d[j] == f[j - |d0|] && d[j] in f;
      }
    }
  }

  /** The state of nbio_pump's reaping loop after the first i deleted
      endpoints of d have been destroyed. */
  ghost predicate ReapedUpTo(d: seq<nat>, i: nat, eps0: map<nat, Ep>, h0: seq<Hook>,
                             a: seq<nat>, inact: seq<nat>, dl: seq<nat>, eps: map<nat, Ep>, hooks: seq<Hook>)
  {
    i <= |d| && Partition(a, inact, dl, eps.Keys) && dl == d[i..] &&
    eps == Forget(eps0, d[..i]) && hooks == h0 + Dtors(d[..i])
  }

  lemma ReapStart(d: seq<nat>, eps0: map<nat, Ep>, h0: seq<Hook>, a: seq<nat>, inact: seq<nat>)
    requires Partition(a, inact, d, eps0.Keys)
    ensures ReapedUpTo(d, 0, eps0, h0, a, inact, d, eps0, h0)
  {
    assert d[..0] == [] && d[0..] == d;
    assert Forget(eps0, []) == eps0;
  }

  lemma ReapDone(d: seq<nat>, eps0: map<nat, Ep>, h0: seq<Hook>,
                 a: seq<nat>, inact: seq<nat>, dl: seq<nat>, eps: map<nat, Ep>, hooks: seq<Hook>)
    requires ReapedUpTo(d, |d|, eps0, h0, a, inact, dl, eps, hooks)
    ensures Partition(a, inact, dl, eps.Keys) && dl == []
    ensures eps == Forget(eps0, d) && hooks == h0 + Dtors(d)
  {
    assert d[..|d|] == d;
  }

  /** Destroying the next deleted endpoint: unlinked, its dtor called. */
  lemma ReapStep(d: seq<nat>, i: nat, eps0: map<nat, Ep>, h0: seq<Hook>,
                 a: seq<nat>, inact: seq<nat>, dl: seq<nat>, eps: map<nat, Ep>, hooks: seq<Hook>)
    requires ReapedUpTo(d, i, eps0, h0, a, inact, dl, eps, hooks) && i < |d|
    ensures ReapedUpTo(d, i + 1, eps0, h0, a, inact, dl[1..], eps - {d[i]}, hooks + [Dtor(d[i])])
  {
    var pre := d[..i];
    assert d[..i + 1] == pre + [d[i]];
    assert Dtors(pre + [d[i]]) == Dtors(pre) + [Dtor(d[i])];
    assert d[i + 1..] == dl[1..];
    assert Forget(eps0, pre + [d[i]]) == eps - {d[i]};
    TailOf(dl);
  }

  /** Unlinking the head of a duplicate-free list leaves the others. */
  lemma TailOf(dl: seq<nat>)
    requires Distinct(dl) && dl != []
    ensures Distinct(dl[1..])
    ensures forall n :: n in dl[1..] <==> n in dl && n != dl[0]
  {
    var dl' := dl[1..];
    forall x, y | 0 <= x < y < |dl'| ensures dl'[x] != dl'[y]
    {
      assert dl'[x] == dl[x + 1] && dl'[y] == dl[y + 1];
    }
    forall n | n in dl' ensures n in dl && n != dl[0]
    {
      var k :| 0 <= k < |dl'| && dl'[k] == n;
      assert dl[k + 1] == n;
    }
    assert dl == [dl[0]] + dl';
  }

  /** eventloop_find's result: the first plugin with that name. */
  function FindLoop(loops: seq<Eventloop>, name: string): (r: Option<nat>)
    ensures r.Some? ==>
      r.value < |loops| && loops[r.value].name == name &&
      forall k :: 0 <= k < r.value ==> loops[k].name != name
    ensures r.None? <==> forall k :: 0 <= k < |loops| ==> loops[k].name != name
  {
    if loops == [] then None
    else if loops[0].name == name then Some(0)
    else match FindLoop(loops[1..], name)
      case None => None
      case Some(k) => Some(k + 1)
  }

  /** The first plugin at or after i whose init succeeds. */
  function FirstInit(loops: seq<Eventloop>, i: nat): (r: Option<nat>)
    requires i <= |loops|
    ensures r.Some? ==>
      i <= r.value < |loops| && loops[r.value].initOk &&
      forall k :: i <= k < r.value ==> !loops[k].initOk
    ensures r.None? <==> forall k :: i <= k < |loops| ==> !loops[k].initOk
    decreases |loops| - i
  {
    if i == |loops| then None
    else if loops[i].initOk then Some(i)
    else FirstInit(loops, i + 1)
  }

  /** The registered eventloop plugins (the global ev_list), head first. */
  class Registry {
    var loops: seq<Eventloop>

    constructor()
      ensures loops == []
    {
      loops := [];
    }

    /** eventloop_find: walks the list from its head. */
    method Find(name: string) returns (r: Option<nat>)
      ensures r == FindLoop(loops, name)
    {
      var k := 0;
      while k < |loops|
        invariant k <= |loops|
        invariant forall j :: 0 <= j < k ==> loops[j].name != name
      {
        if loops[k].name == name {
          return Some(k);
        }
        k := k + 1;
      }
      return None;
    }

    /** eventloop_add: a name already registered is ignored, any other
        plugin goes to the head of the list. */
    method Add(e: Eventloop)
      modifies this
      ensures FindLoop(old(loops), e.name).Some? ==> loops == old(loops)
      ensures FindLoop(old(loops), e.name).None? ==> loops == [e] + old(loops)
    {
      var found := Find(e.name);
      if found.Some? {
        return;
      }
      loops := [e] + loops;
    }
  }

  /** Plugin hook call h concerns endpoint n. */
  predicate HookOn(h: Hook, n: nat)
  {
    match h
    case PluginActive(m) => m == n
    case PluginInactive(m) => m == n
    case Read(m) => m == n
    case Write(m) => m == n
    case _ => false
  }

  /** What an I/O thread holds at one moment: its endpoints, its three
      lists, its plugin and the plugin hooks called so far. */
  datatype Snapshot = Snapshot(eps: map<nat, Ep>, active: seq<nat>, inactive: seq<nat>, deleted: seq<nat>,
                               plugin: Option<nat>, hooks: seq<Hook>)

  /** From s0 to s1 only endpoint n has changed: every other endpoint
      keeps its list and its wait bits, no other endpoint came or went,
      the plugin is the same and every hook called since concerns n. */
  ghost predicate Touched(n: nat, s0: Snapshot, s1: Snapshot)
  {
    s1.eps.Keys - {n} == s0.eps.Keys - {n} &&
    (forall m :: m in s0.eps && m != n ==> m in s1.eps && s1.eps[m] == s0.eps[m]) &&
    (forall m :: m != n ==>
       Where(s1.active, s1.inactive, s1.deleted, m) == Where(s0.active, s0.inactive, s0.deleted, m)) &&
    s1.plugin == s0.plugin && |s0.hooks| <= |s1.hooks| && s1.hooks[..|s0.hooks|] == s0.hooks &&
    (forall k :: |s0.hooks| <= k < |s1.hooks| ==> HookOn(s1.hooks[k], n))
  }

  /** Two steps that each touch only n touch only n. */
  lemma TouchedTrans(n: nat, s0: Snapshot, s1: Snapshot, s2: Snapshot)
    requires Touched(n, s0, s1) && Touched(n, s1, s2)
    ensures Touched(n, s0, s2)
  {
    assert s2.hooks[..|s0.hooks|] == s2.hooks[..|s1.hooks|][..|s0.hooks|];
  }

  /** One list move of endpoint n to q, with n's entry set to e and one
      hook call about n, touches only n. */
  lemma StepTouched(n: nat, s0: Snapshot, q: Queue, e: Ep, h: Hook)
    requires HookOn(h, n)
    ensures Touched(n, s0, Snapshot(s0.eps[n := e], MoveTail(s0.active, n, q == ActiveList),
                                    MoveTail(s0.inactive, n, q == InactiveList),
                                    MoveTail(s0.deleted, n, q == DeletedList), s0.plugin, s0.hooks + [h]))
  {
    forall m | m != n
      ensures Where(MoveTail(s0.active, n, q == ActiveList), MoveTail(s0.inactive, n, q == InactiveList),
                    MoveTail(s0.deleted, n, q == DeletedList), m) == Where(s0.active, s0.inactive, s0.deleted, m)
    {
      MoveWhere(s0.active, s0.inactive, s0.deleted, n, q, m);
    }
  }

  /** An I/O thread (`struct iothread`). */
  class IoThread {
    var active: seq<nat>
    var inactive: seq<nat>
    var deleted: seq<nat>
    var eps: map<nat, Ep>
    var plugin: Option<nat>
    var hooks: seq<Hook>

    ghost predicate Valid()
      reads this
    {
      Partition(active, inactive, deleted, eps.Keys)
    }

    /** The list endpoint n is on. */
    function ListOf(n: nat): Option<Queue>
      reads this`active, this`inactive, this`deleted
    {
      Where(active, inactive, deleted, n)
    }

    /** A thread with no lists set up and no plugin. */
    constructor()
      ensures Valid() && active == [] && inactive == [] && deleted == []
      ensures eps == map[] && plugin.None? && hooks == []
    {
      active, inactive, deleted := [], [], [];
      eps := map[];
      plugin := None;
      hooks := [];
    }

    /** The thread's state as a value. */
    function State(): Snapshot
      reads this
    {
      Snapshot(eps, active, inactive, deleted, plugin, hooks)
    }

    /** Each registered endpoint is on exactly one list. */
    lemma OnOneList(n: nat)
      requires Valid() && n in eps
      ensures (if n in active then 1 else 0) + (if n in inactive then 1 else 0) +
              (if n in deleted then 1 else 0) == 1
    {
    }

    /** The three list moves at once. */
    method Move(n: nat, q: Queue)
      requires Valid()
      modifies this`active, this`inactive, this`deleted
      ensures Partition(active, inactive, deleted, eps.Keys + {n})
      ensures active == MoveTail(old(active), n, q == ActiveList)
      ensures inactive == MoveTail(old(inactive), n, q == InactiveList)
      ensures deleted == MoveTail(old(deleted), n, q == DeletedList)
      ensures forall m :: ListOf(m) == if m == n then Some(q) else old(ListOf(m))
    {
      MovePartition(active, inactive, deleted, eps.Keys, n, q);
      forall m ensures Where(MoveTail(active, n, q == ActiveList), MoveTail(inactive, n, q == InactiveList),
          MoveTail(deleted, n, q == DeletedList), m) == if m == n then Some(q) else Where(active, inactive, deleted, m)
      {
        MoveWhere(active, inactive, deleted, n, q, m);
      }
      active := MoveTail(active, n, q == ActiveList);
      inactive := MoveTail(inactive, n, q == InactiveList);
      deleted := MoveTail(deleted, n, q == DeletedList);
    }

    /** nbio_init: picks the named plugin, or when none is named the
        first plugin of the registry; when that plugin's init fails, a
        named plugin is an error and otherwise the next plugin is tried.
        On success the three lists start empty. */
    method Init(loops: seq<Eventloop>, name: Option<string>) returns (ok: bool)
      requires Valid()
      modifies this
      ensures Valid()
      ensures name.Some? ==>
        (ok <==> FindLoop(loops, name.value).Some? && loops[FindLoop(loops, name.value).value].initOk)
      ensures name.None? ==> (ok <==> FirstInit(loops, 0).Some?)
      ensures ok && name.Some? ==> plugin == FindLoop(loops, name.value)
      ensures ok && name.None? ==> plugin == FirstInit(loops, 0)
      ensures ok ==> active == [] && inactive == [] && deleted == [] && eps == map[]
      ensures !ok ==>
        active == old(active) && inactive == old(inactive) &&
        deleted == old(deleted) && eps == old(eps)
      ensures hooks == old(hooks)
    {
      var k: nat;
      if name.None? {
        if loops == [] {
          plugin := None;
          return false;
        }
        k := 0;
      } else {
        var f := FindLoop(loops, name.value);
        plugin := f;
        if f.None? {
          return false;
        }
        k := f.value;
      }
      plugin := Some(k);
      while !loops[k].initOk
        invariant k < |loops|
        invariant plugin == Some(k)
        invariant active == old(active) && inactive == old(inactive) && deleted == old(deleted)
        invariant eps == old(eps) && hooks == old(hooks)
        invariant name.Some? ==> Some(k) == FindLoop(loops, name.value)
        invariant name.None? ==> forall j :: 0 <= j < k ==> !loops[j].initOk
        decreases |loops| - k
      {
        if name.Some? || k + 1 == |loops| {
          return false;
        }
        k := k + 1;
        plugin := Some(k);
      }
      active, inactive, deleted := [], [], [];
      eps := map[];
      return true;
    }

    /** nbio_add: a new endpoint goes on the list its wait calls for. */
    method Add(n: nat, wait: bv8)
      requires Valid() && n !in eps
      modifies this
      ensures Valid() && eps == old(eps)[n := Ep(wait & WAIT, wait & WAIT)]
      ensures ListOf(n) == Some(if wait & WAIT == 0 then InactiveList else ActiveList)
      ensures forall m :: m != n ==> ListOf(m) == old(ListOf(m))
      ensures plugin == old(plugin) && hooks == old(hooks) + [PluginActive(n)]
      ensures Touched(n, old(State()), State())
    {
      SetWait(n, wait);
    }

    /** nbio_set_wait: mask and flags both become the wait bits; the
        endpoint goes to the tail of the inactive list when they are 0
        and of the active list otherwise. */
    method SetWait(n: nat, wait: bv8)
      requires Valid()
      modifies this
      ensures Valid() && eps == old(eps)[n := Ep(wait & WAIT, wait & WAIT)]
      ensures GetWait(n) == wait & WAIT
      ensures ListOf(n) == Some(if wait & WAIT == 0 then InactiveList else ActiveList)
      ensures active == MoveTail(old(active), n, wait & WAIT != 0)
      ensures inactive == MoveTail(old(inactive), n, wait & WAIT == 0)
      ensures deleted == MoveTail(old(deleted), n, false)
      ensures forall m :: m != n ==> ListOf(m) == old(ListOf(m))
      ensures plugin == old(plugin) && hooks == old(hooks) + [PluginActive(n)]
      ensures Touched(n, old(State()), State())
    {
      var w := wait & WAIT;
      StepTouched(n, State(), if w == 0 then InactiveList else ActiveList, Ep(w, w), PluginActive(n));
      hooks := hooks + [PluginActive(n)];
      Move(n, if w == 0 then InactiveList else ActiveList);
      eps := eps[n := Ep(w, w)];
    }

    /** nbio_inactive: to the tail of the inactive list, mask and flags kept. */
    method Inactive(n: nat)
      requires Valid() && n in eps
      modifies this
      ensures Valid() && eps == old(eps) && ListOf(n) == Some(InactiveList)
      ensures active == MoveTail(old(active), n, false)
      ensures inactive == MoveTail(old(inactive), n, true)
      ensures deleted == MoveTail(old(deleted), n, false)
      ensures forall m :: m != n ==> ListOf(m) == old(ListOf(m))
      ensures plugin == old(plugin) && hooks == old(hooks) + [PluginInactive(n)]
      ensures Touched(n, old(State()), State())
    {
      StepTouched(n, State(), InactiveList, eps[n], PluginInactive(n));
      assert eps[n := eps[n]] == eps;
      hooks := hooks + [PluginInactive(n)];
      Move(n, InactiveList);
      PartitionHas(active, inactive, deleted, eps.Keys, n);
    }

    /** nbio_del: mask NBIO_DELETED, flags 0, to the tail of the deleted list. */
    method Del(n: nat)
      requires Valid() && n in eps
      modifies this
      ensures Valid() && eps == old(eps)[n := Ep(DELETED, 0)] && ListOf(n) == Some(DeletedList)
      ensures GetWait(n) == 0
      ensures active == MoveTail(old(active), n, false)
      ensures inactive == MoveTail(old(inactive), n, false)
      ensures deleted == MoveTail(old(deleted), n, true)
      ensures forall m :: m != n ==> ListOf(m) == old(ListOf(m))
      ensures plugin == old(plugin) && hooks == old(hooks) + [PluginActive(n)]
      ensures Touched(n, old(State()), State())
    {
      StepTouched(n, State(), DeletedList, Ep(DELETED, 0), PluginActive(n));
      hooks := hooks + [PluginActive(n)];
      eps := eps[n := Ep(DELETED, 0)];
      Move(n, DeletedList);
      PartitionHas(active, inactive, deleted, eps.Keys, n);
    }

    /** nbio_get_wait. */
    function GetWait(n: nat): bv8
      reads this
      requires n in eps
    {
      eps[n].mask & WAIT
    }

    /** One pass of nbio_pump over the active list: an endpoint flagged
        with an error is retired to the deleted list without a callback;
        any other gets its read callback when READ is flagged and wanted,
        then its write callback when WRITE is. */
    method PumpPass()
      requires Valid()
      modifies this
      ensures Valid()
      ensures active == Healthy(old(active), old(eps))
      ensures deleted == old(deleted) + Faulty(old(active), old(eps))
      ensures inactive == old(inactive)
      ensures eps == Retire(old(eps), Faulty(old(active), old(eps)))
      ensures hooks == old(hooks) + Callbacks(old(active), old(eps))
      ensures plugin == old(plugin)
    {
      var s, eps0, d0, h0, inact := active, eps, deleted, hooks, inactive;
      var kept, d, e, h := [], d0, eps0, h0;
      assert Partition(s, inact, d0, eps0.Keys);
      PassStart(s, eps0, d0, h0);
      var i := 0;
      while i < |s|
        invariant Distinct(s)
        invariant PassedUpTo(s, i, eps0, d0, h0, kept, d, e, h)
        modifies {}
      {
        var n := s[i];
        PassStep(s, i, eps0, d0, h0, kept, d, e, h);
        if e[n].flags & ERROR != 0 {
          PassRetire(s, i, eps0, d0, h0, kept, d, e, h);
          d, e := d + [n], e[n := Ep(DELETED, 0)];
        } else {
          PassFire(s, i, eps0, d0, h0, kept, d, e, h);
          h := h + Fired(n, e[n]);
          kept := kept + [n];
        }
        i := i + 1;
      }
      PassDone(s, eps0, d0, h0, kept, d, e, h);
      PassPartition(s, inact, d0, eps0, kept, d, e.Keys);
      active, deleted, eps, hooks := kept, d, e, h;
    }

    /** The rest of nbio_pump once the active list is empty: every
        deleted endpoint is unlinked and its dtor called, in list order;
        then the plugin's pump runs when the inactive list is not empty. */
    method Reap()
      requires Valid()
      modifies this
      ensures Valid() && deleted == [] && active == old(active) && inactive == old(inactive)
      ensures eps == Forget(old(eps), old(deleted))
      ensures hooks == old(hooks) + Dtors(old(deleted)) + (if inactive != [] then [PluginPump] else [])
      ensures plugin == old(plugin)
    {
      var dl, h0, eps0, a, inact := deleted, hooks, eps, active, inactive;
      var d, e, h := dl, eps0, h0;
      assert Partition(a, inact, dl, eps0.Keys);
      ReapStart(dl, eps0, h0, a, inact);
      var i := 0;
      while i < |dl|
        invariant ReapedUpTo(dl, i, eps0, h0, a, inact, d, e, h)
        modifies {}
      {
        ReapStep(dl, i, eps0, h0, a, inact, d, e, h);
        h := h + [Dtor(dl[i])];
        e := e - {dl[i]};
        d := d[1..];
        i := i + 1;
      }
      ReapDone(dl, eps0, h0, a, inact, d, e, h);
      assert a == active && inact == inactive;
      deleted, eps, hooks := d, e, h;
      assert Valid();
      if inactive != [] {
        hooks := hooks + [PluginPump];
      }
    }

    /** nbio_fini: the inactive endpoints rejoin the active list (with
        the plugin's active hook), then the deleted ones; every endpoint
        on the combined list is unlinked and destroyed; then the plugin's
        fini hook runs. */
    method Fini()
      requires Valid()
      modifies this
      ensures active == [] && inactive == [] && deleted == [] && eps == map[] && Valid()
      ensures hooks == old(hooks) + Activations(old(inactive)) +
        Dtors(old(active) + old(inactive) + old(deleted)) + [PluginFini]
      ensures plugin == old(plugin)
    {
      var all := active + inactive + deleted;
      hooks := hooks + Activations(inactive);
      var h0 := hooks;
      var i := 0;
      while i < |all|
        invariant i <= |all|
        invariant hooks == h0 + Dtors(all[..i])
        invariant plugin == old(plugin)
      {
        assert all[..i + 1] == all[..i] + [all[i]];
        DtorsSnoc(all[..i], all[i]);
        hooks := hooks + [Dtor(all[i])];
        i := i + 1;
      }
      assert all[..i] == all;
      active, inactive, deleted := [], [], [];
      eps := map[];
      hooks := hooks + [PluginFini];
    }
  }

  /** nbio_fini destroys every registered endpoint exactly once: the
      dtor calls have no repeats and name exactly the registered ones. */
  lemma FiniDestroysEachOnce(a: seq<nat>, i: seq<nat>, d: seq<nat>, keys: set<nat>, n: nat)
    requires Partition(a, i, d, keys)
    ensures Distinct(Dtors(a + i + d)) && (Dtor(n) in Dtors(a + i + d) <==> n in keys)
  {
    var all := a + i + d;
    forall x, y | 0 <= x < y < |all| ensures all[x] != all[y]
    {
      if y < |a| {
        assert all[x] == a[x] && all[y] == a[y];
      } else if y < |a| + |i| {
        assert all[y] == i[y - |a|] && all[y] in i;
        if x >= |a| { assert all[x] == i[x - |a|]; }
        else { assert all[x] == a[x] && all[x] in a; }
      } else {
        assert all[y] == d[y - |a| - |i|] && all[y] in d;
        if x >= |a| + |i| { assert all[x] == d[x - |a| - |i|]; }
        else if x >= |a| { assert all[x] == i[x - |a|] && all[x] in i; }
        else { assert all[x] == a[x] && all[x] in a; }
      }
    }
    DtorsOnce(all, n);
  }
}
