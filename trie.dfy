/** The radix-trie builder of trie.c. The sorted URIs of a webroot are
    split into edges whose labels are at most RE_EDGE_MAX bytes; the edges
    are laid out breadth first and written as fixed-size records in which
    every edge finds its children as one consecutive run.

    A trie owns its edges, which are kept in allocation order (the hgang
    pool r_edges); an edge's list of children (e_edges) is a sequence of
    edge indices, and an edge's label is the slice of the entry string it
    was cut from (e_cmp points into the entry). */
module Trie {
  import opened Bytes

  const RE_EDGE_MAX: nat := 8
  const GIDX_INVALID_OID: nat := 0xffff_ffff
  /** sizeof(struct trie_dedge): oid, edges index, edge count, label
      length and an RE_EDGE_MAX-byte label, packed. */
  const DEDGE_SIZE: nat := 18

  /** struct trie_entry: a URI and the object it names. */
  datatype Entry = Entry(str: seq<byte>, oid: nat)

  /** An edge: its label is ents[src].str[ofs..ofs + len], and terminal
      names the entry that ends on it. */
  datatype Edge = Edge(src: nat, ofs: nat, len: nat, terminal: Option<nat>)

  /** struct trie_dedge as it is written to the index file. */
  datatype DEdge = DEdge(oid: nat, edgesIdx: nat, numEdges: nat, strlen: nat, str: seq<byte>)

  predicate Fits(ents: seq<Entry>, ed: Edge)
  {
    ed.src < |ents| && ed.ofs + ed.len <= |ents[ed.src].str|
  }

  /** The edge's label reaches the end of its entry's string. */
  predicate Ends(ents: seq<Entry>, ed: Edge)
    requires Fits(ents, ed)
  {
    ed.ofs + ed.len == |ents[ed.src].str|
  }

  function Label(ents: seq<Entry>, ed: Edge): seq<byte>
    requires Fits(ents, ed)
  {
    ents[ed.src].str[ed.ofs..ed.ofs + ed.len]
  }

  /** Everything up to and including the edge's label. */
  function Spell(ents: seq<Entry>, ed: Edge): seq<byte>
    requires Fits(ents, ed)
  {
    ents[ed.src].str[..ed.ofs + ed.len]
  }

  /** Edge c hangs below edge p: c's entry agrees with p's up to the end of
      p's label, and c's label starts there. */
  predicate Below(ents: seq<Entry>, p: Edge, c: Edge)
    requires Fits(ents, p) && Fits(ents, c)
  {
    c.ofs == p.ofs + p.len && ents[c.src].str[..c.ofs] == Spell(ents, p)
  }

  /** The entries that end on the edges, in edge order. */
  function Terminals(es: seq<Edge>): seq<nat>
  {
    if es == [] then []
    else Terminals(es[..|es| - 1]) +
         (if es[|es| - 1].terminal.Some? then [es[|es| - 1].terminal.value] else [])
  }

  /** The entry indices lo, lo + 1, ..., hi - 1. */
  function Range(lo: nat, hi: nat): seq<nat>
    decreases hi
  {
    if hi <= lo then [] else Range(lo, hi - 1) + [hi - 1]
  }

  lemma {:induction false} TerminalsAppend(a: seq<Edge>, b: seq<Edge>)
    ensures Terminals(a + b) == Terminals(a) + Terminals(b)
    decreases |b|
  {
    if b == [] {
      assert a + b == a;
    } else {
      var b' := b[..|b| - 1];
      assert (a + b)[..|a + b| - 1] == a + b';
      TerminalsAppend(a, b');
    }
  }

  lemma {:induction false} RangeAppend(lo: nat, mid: nat, hi: nat)
    requires lo <= mid <= hi
    ensures Range(lo, mid) + Range(mid, hi) == Range(lo, hi)
    decreases hi
  {
    if hi == mid {
      assert Range(mid, hi) == [];
    } else {
      RangeAppend(lo, mid, hi - 1);
    }
  }

  lemma SharedPrefix(a: seq<byte>, b: seq<byte>, ofs: nat, len: nat)
    requires ofs + len <= |a| && ofs + len <= |b|
    requires a[..ofs] == b[..ofs] && a[ofs..ofs + len] == b[ofs..ofs + len]
    ensures a[..ofs + len] == b[..ofs + len]
  {
    assert a[..ofs + len] == a[..ofs] + a[ofs..ofs + len];
    assert b[..ofs + len] == b[..ofs] + b[ofs..ofs + len];
  }

  /** common_prefix: 0 when ofs is not inside both strings; otherwise the
      number of equal bytes from ofs, capped at RE_EDGE_MAX. */
  method CommonPrefix(a: seq<byte>, b: seq<byte>, ofs: nat) returns (r: nat)
    ensures ofs >= Min(|a|, |b|) ==> r == 0
    ensures ofs < Min(|a|, |b|) ==>
              r <= RE_EDGE_MAX && ofs + r <= Min(|a|, |b|) && a[ofs..ofs + r] == b[ofs..ofs + r] &&
              (r < RE_EDGE_MAX && ofs + r < Min(|a|, |b|) ==> a[ofs + r] != b[ofs + r])
  {
    var min := if |a| < |b| then |a| else |b|;
    if ofs >= min {
      return 0;
    }
    var ret := 0;
    while ret < min - ofs
      invariant ret <= min - ofs && a[ofs..ofs + ret] == b[ofs..ofs + ret]
    {
      if a[ofs + ret] != b[ofs + ret] {
        break;
      }
      assert a[ofs..ofs + ret + 1] == a[ofs..ofs + ret] + [a[ofs + ret]];
      assert b[ofs..ofs + ret + 1] == b[ofs..ofs + ret] + [b[ofs + ret]];
      ret := ret + 1;
    }
    if ret > RE_EDGE_MAX {
      PrefixShrink(a, b, ofs, ret, RE_EDGE_MAX);
      r := RE_EDGE_MAX;
    } else {
      r := ret;
    }
  }

  lemma PrefixShrink(a: seq<byte>, b: seq<byte>, ofs: nat, len: nat, m: nat)
    requires m <= len && ofs + len <= |a| && ofs + len <= |b| && a[ofs..ofs + len] == b[ofs..ofs + len]
    ensures a[ofs..ofs + m] == b[ofs..ofs + m]
  {
    assert a[ofs..ofs + m] == a[ofs..ofs + len][..m];
    assert b[ofs..ofs + m] == b[ofs..ofs + len][..m];
  }

  /** a and b cannot share byte i: one of them ends there or they differ. */
  predicate Stops(a: seq<byte>, b: seq<byte>, i: nat)
  {
    i >= |a| || i >= |b| || a[i] != b[i]
  }

  /** The entries from v on that share a first byte at ofs with entry v
      form v's group, v..last; len is the length of the longest prefix
      from ofs that the whole group shares, capped at RE_EDGE_MAX: every
      member agrees with v on those len bytes, and unless len reached the
      cap some member stops agreeing with v right after them. */
  method FindGroup(ents: seq<Entry>, v: nat, end: nat, ofs: nat) returns (len: nat, last: nat)
    requires v < end <= |ents|
    requires forall k :: v <= k < end ==> ofs <= |ents[k].str|
    ensures v <= last < end && len <= RE_EDGE_MAX && ofs + len <= |ents[v].str|
    ensures len == 0 ==> ofs == |ents[v].str| && last == v
    ensures forall k :: v <= k <= last ==>
              ofs + len <= |ents[k].str| && ents[k].str[ofs..ofs + len] == ents[v].str[ofs..ofs + len]
    ensures last + 1 < end ==>
              ofs == |ents[v].str| || ofs == |ents[last + 1].str| ||
              ents[last + 1].str[ofs] != ents[v].str[ofs]
    ensures len == RE_EDGE_MAX || exists k :: v <= k <= last && Stops(ents[v].str, ents[k].str, ofs + len)
  {
    len := |ents[v].str| - ofs;
    last := v;
    var tmp := v;
    assert Stops(ents[v].str, ents[v].str, ofs + len);
    while tmp < end
      invariant v <= last <= tmp <= end && (tmp == v || last + 1 == tmp)
      invariant ofs + len <= |ents[v].str|
      invariant tmp == v ==> len == |ents[v].str| - ofs
      invariant tmp > v ==> len <= RE_EDGE_MAX && len > 0
      invariant forall k :: v <= k < tmp ==>
                  ofs + len <= |ents[k].str| && ents[k].str[ofs..ofs + len] == ents[v].str[ofs..ofs + len]
      invariant len == RE_EDGE_MAX || exists k :: v <= k <= last && Stops(ents[v].str, ents[k].str, ofs + len)
      decreases end - tmp
    {
      var x := CommonPrefix(ents[v].str, ents[tmp].str, ofs);
      if x == 0 {
        break;
      }
      var m := Min(x, len);
      forall k | v <= k < tmp
        ensures ofs + m <= |ents[k].str| && ents[k].str[ofs..ofs + m] == ents[v].str[ofs..ofs + m]
      {
        PrefixShrink(ents[k].str, ents[v].str, ofs, len, m);
      }
      PrefixShrink(ents[tmp].str, ents[v].str, ofs, x, m);
      if m == x && x < RE_EDGE_MAX {
        assert Stops(ents[v].str, ents[tmp].str, ofs + m);
      }
      len := m;
      last := tmp;
      tmp := tmp + 1;
    }
  }

  /** The group search as trie.c writes it: the loop only runs while
      len < 0x100, and len starts as all that is left of v, so when that
      is 0x100 bytes or more the loop never runs and the whole rest of v
      becomes one label, longer than RE_EDGE_MAX. */
  method FindGroupAsWritten(ents: seq<Entry>, v: nat, end: nat, ofs: nat) returns (len: nat, last: nat)
    requires v < end <= |ents|
    requires forall k :: v <= k < end ==> ofs <= |ents[k].str|
    ensures |ents[v].str| - ofs >= 0x100 ==> len == |ents[v].str| - ofs && len > RE_EDGE_MAX && last == v
    ensures |ents[v].str| - ofs < 0x100 ==> len <= RE_EDGE_MAX && v <= last < end
  {
    if |ents[v].str| - ofs >= 0x100 {
      return |ents[v].str| - ofs, v;
    }
    len, last := FindGroup(ents, v, end, ofs);
  }

  /** n edges form a tree rooted at edge 0: every other edge is on its
      parent's list exactly once, after its parent in allocation order, one
      level deeper; r_max_fanout bounds every fan-out. */
  ghost predicate TreeOk(kids: seq<seq<nat>>, parent: seq<nat>, depth: seq<nat>, n: nat, maxFanout: nat)
  {
    |kids| == n && |parent| == n && |depth| == n &&
    (n > 0 ==> depth[0] == 0) &&
    (forall p :: 0 <= p < n ==> KidsOk(kids, parent, maxFanout, p)) &&
    (forall c :: 0 < c < n ==> Linked(kids, parent, depth, c))
  }

  /** Edge p has at most maxFanout children, each once, each allocated
      after p and naming p as its parent. */
  ghost predicate KidsOk(kids: seq<seq<nat>>, parent: seq<nat>, maxFanout: nat, p: nat)
    requires p < |kids|
  {
    |kids[p]| <= maxFanout && Distinct(kids[p]) &&
    forall j :: 0 <= j < |kids[p]| ==> p < kids[p][j] < |parent| && parent[kids[p][j]] == p
  }

  /** Edge c is on its parent's list, and one level below it. */
  ghost predicate Linked(kids: seq<seq<nat>>, parent: seq<nat>, depth: seq<nat>, c: nat)
    requires c < |parent| == |depth| == |kids|
  {
    parent[c] < c && c in kids[parent[c]] && depth[c] == depth[parent[c]] + 1
  }

  /** What TreeOk says about every edge, spelt out. */
  lemma TreeFacts(kids: seq<seq<nat>>, parent: seq<nat>, depth: seq<nat>, n: nat, maxFanout: nat)
    requires TreeOk(kids, parent, depth, n, maxFanout)
    ensures forall p :: 0 <= p < n ==> |kids[p]| <= maxFanout && Distinct(kids[p])
    ensures forall p, j :: 0 <= p < n && 0 <= j < |kids[p]| ==> p < kids[p][j] < n && parent[kids[p][j]] == p
    ensures forall c :: 0 < c < n ==> parent[c] < c && c in kids[parent[c]] && depth[c] == depth[parent[c]] + 1
  {
    forall p | 0 <= p < n ensures |kids[p]| <= maxFanout && Distinct(kids[p]) {
      assert KidsOk(kids, parent, maxFanout, p);
    }
    forall p, j | 0 <= p < n && 0 <= j < |kids[p]| ensures p < kids[p][j] < n && parent[kids[p][j]] == p {
      assert KidsOk(kids, parent, maxFanout, p);
    }
    forall c | 0 < c < n ensures parent[c] < c && c in kids[parent[c]] && depth[c] == depth[parent[c]] + 1 {
      assert Linked(kids, parent, depth, c);
    }
  }

  /** Every label is a slice of its entry of at most RE_EDGE_MAX bytes
      that starts where its parent's ends; the root's is empty; an edge
      other than the root is terminal exactly when its label reaches the
      end of its entry, and then for that entry. */
  ghost predicate LabelsOk(ents: seq<Entry>, edges: seq<Edge>, parent: seq<nat>)
  {
    |parent| == |edges| &&
    (forall e :: 0 <= e < |edges| ==>
       Fits(ents, edges[e]) && edges[e].len <= RE_EDGE_MAX &&
       edges[e].terminal == (if e > 0 && Ends(ents, edges[e]) then Some(edges[e].src) else None)) &&
    (|edges| > 0 ==> edges[0].ofs + edges[0].len == 0) &&
    (forall e :: 0 < e < |edges| ==> Hangs(ents, edges, parent, e))
  }

  /** Edge e hangs below its parent, which was allocated before it. */
  ghost predicate Hangs(ents: seq<Entry>, edges: seq<Edge>, parent: seq<nat>, e: nat)
    requires e < |edges| == |parent| && forall f :: 0 <= f < |edges| ==> Fits(ents, edges[f])
  {
    parent[e] < e && Below(ents, edges[parent[e]], edges[e])
  }

  lemma TreeGrow(kids: seq<seq<nat>>, parent: seq<nat>, depth: seq<nat>, n: nat, maxFanout: nat, p: nat)
    requires TreeOk(kids, parent, depth, n, maxFanout) && p < n
    ensures TreeOk(kids[p := kids[p] + [n]] + [[]], parent + [p], depth + [depth[p] + 1], n + 1,
                   if |kids[p]| + 1 > maxFanout then |kids[p]| + 1 else maxFanout)
  {
    TreeFacts(kids, parent, depth, n, maxFanout);
    var kids' := kids[p := kids[p] + [n]] + [[]];
    var parent' := parent + [p];
    var depth' := depth + [depth[p] + 1];
    var maxFanout' := if |kids[p]| + 1 > maxFanout then |kids[p]| + 1 else maxFanout;
    forall c | 0 < c < n + 1 ensures Linked(kids', parent', depth', c) {
      if c < n {
        assert c in kids[parent[c]];
      } else {
        assert kids'[p][|kids[p]|] == n;
      }
    }
    forall q | 0 <= q < n + 1 ensures KidsOk(kids', parent', maxFanout', q) {
      forall j | 0 <= j < |kids'[q]| ensures q < kids'[q][j] < n + 1 && parent'[kids'[q][j]] == q {
        if q == p && j == |kids[p]| {
        } else {
          assert kids'[q][j] == kids[q][j];
        }
      }
    }
  }

  lemma LabelsGrow(ents: seq<Entry>, edges: seq<Edge>, parent: seq<nat>, p: nat, ed: Edge)
    requires LabelsOk(ents, edges, parent) && p < |edges|
    requires Fits(ents, ed) && ed.len <= RE_EDGE_MAX && ed.terminal == (if Ends(ents, ed) then Some(ed.src) else None)
    requires Below(ents, edges[p], ed)
    ensures LabelsOk(ents, edges + [ed], parent + [p])
  {
    var edges', parent' := edges + [ed], parent + [p];
    assert forall e :: 0 <= e < |edges| ==> edges'[e] == edges[e];
    forall e | 0 < e < |edges'| ensures Hangs(ents, edges', parent', e) {
      if e < |edges| {
        assert Hangs(ents, edges, parent, e);
      }
    }
  }

  /** struct trie. */
  class Trie {
    const ents: seq<Entry>
    var edges: seq<Edge>
    var kids: seq<seq<nat>>
    /** Edges the pool can still hand out; an allocation fails once it is 0. */
    var room: nat
    var numEdges: nat
    var maxFanout: nat
    var maxCmp: nat
    var maxPath: nat
    var bfsOrder: seq<nat>
    var bfsIdx: seq<nat>
    /** The edge each edge hangs from, and its distance from the root. */
    ghost var parent: seq<nat>
    ghost var depth: seq<nat>

    /** The edges form a tree rooted at edge 0 (TreeOk); r_num_edges
        counts them. */
    ghost predicate Tree()
      reads this`edges, this`numEdges, this`kids, this`parent, this`depth, this`maxFanout
    {
      numEdges == |edges| && TreeOk(kids, parent, depth, |edges|, maxFanout)
    }

    ghost predicate Labels()
      reads this`edges, this`parent
    {
      LabelsOk(ents, edges, parent)
    }

    /** r_max_cmp is at least every label's length. */
    ghost predicate CmpBound()
      reads this`edges, this`maxCmp
    {
      forall e :: 0 <= e < |edges| ==> edges[e].len <= maxCmp
    }

    ghost predicate Valid()
      reads this`edges, this`numEdges, this`kids, this`parent, this`depth, this`maxFanout, this`maxCmp
    {
      Tree() && Labels() && CmpBound()
    }

    /** edge_new with a parent, given the label and terminal do_radix
        stores in the edge straight after: a fresh edge with no children on
        the tail of p's list, r_max_fanout following p's new count, and
        counted in r_num_edges. None, with nothing changed, when the pool
        is exhausted. */
    method EdgeNew(p: nat, ed: Edge) returns (e: Option<nat>)
      requires Valid() && p < |edges| && Fits(ents, ed)
      requires ed.len <= RE_EDGE_MAX && ed.terminal == (if Ends(ents, ed) then Some(ed.src) else None)
      requires Below(ents, edges[p], ed)
      modifies this`edges, this`kids, this`room, this`numEdges, this`maxFanout, this`parent, this`depth
      ensures Tree() && Labels()
      ensures old(room) == 0 ==>
                e.None? && edges == old(edges) && kids == old(kids) && room == 0 &&
                parent == old(parent) && depth == old(depth)
      ensures old(room) > 0 ==>
                e == Some(old(|edges|)) && room == old(room) - 1 && edges == old(edges) + [ed] &&
                parent[..old(|edges|)] == old(parent) && depth[..old(|edges|)] == old(depth) &&
                kids == old(kids)[p := old(kids[p]) + [old(|edges|)]] + [[]] &&
                depth[old(|edges|)] == old(depth[p]) + 1 &&
                maxFanout == if |kids[p]| > old(maxFanout) then |kids[p]| else old(maxFanout)
    {
      if room == 0 {
        return None;
      }
      room := room - 1;
      var id := |edges|;
      var fanout := |kids[p]| + 1;
      var edges', kids' := edges + [ed], kids[p := kids[p] + [id]] + [[]];
      ghost var parent', depth' := parent + [p], depth + [depth[p] + 1];
      var maxFanout' := if fanout > maxFanout then fanout else maxFanout;
      TreeGrow(kids, parent, depth, id, maxFanout, p);
      LabelsGrow(ents, edges, parent, p, ed);
      edges, kids, parent, depth, maxFanout, numEdges := edges', kids', parent', depth', maxFanout', numEdges + 1;
      e := Some(id);
    }

    /** edge_new without a parent, as construct_radix makes the root: the
        first edge, on no list, with an empty label; false when the pool is
        exhausted. */
    method NewRoot() returns (ok: bool)
      requires Valid() && |edges| == 0 && |ents| > 0
      modifies this`edges, this`kids, this`room, this`numEdges, this`parent, this`depth
      ensures Valid() && ok == (old(room) > 0)
      ensures ok ==> edges == [Edge(0, 0, 0, None)] && kids == [[]] && depth == [0] && room == old(room) - 1
      ensures !ok ==> edges == [] && room == 0
    {
      if room == 0 {
        return false;
      }
      room := room - 1;
      edges := [Edge(0, 0, 0, None)];
      kids := [[]];
      parent := [0];
      depth := [0];
      numEdges := 1;
      ok := true;
    }

    /** do_radix: hang the entries v0..end-1, which all agree with edge n's
        spelling up to ofs, below n, one group at a time (Branch); r_max_path
        records the depth of the new edges. Every entry of the range ends on
        exactly one new edge, in order (complete), unless an allocation
        failed, which only happens once the pool is empty; like trie.c, a failure deep in the recursion
        is not reported to the caller. */
    method DoRadix(n: nat, v0: nat, end: nat, ofs: nat, depth: nat)
      returns (ok: bool, ghost complete: bool, ghost added: seq<Edge>)
      requires Valid() && n < |edges| && v0 < end <= |ents|
      requires ofs == edges[n].ofs + edges[n].len
      requires forall k :: v0 <= k < end ==> ofs <= |ents[k].str| && ents[k].str[..ofs] == Spell(ents, edges[n])
      modifies this`edges, this`kids, this`room, this`numEdges, this`maxFanout, this`maxCmp, this`maxPath,
               this`parent, this`depth
      decreases end - v0, |ents[v0].str| - ofs, 2
      ensures Valid() && edges == old(edges) + added
      ensures old(maxPath) <= maxPath && depth <= maxPath
      ensures !ok ==> !complete
      ensures complete ==> Terminals(added) == Range(v0, end)
      ensures room <= old(room) && (room > 0 ==> complete)
    {
      if depth > maxPath {
        maxPath := depth;
      }
      complete, added := true, [];
      var v := v0;
      while v < end
        invariant Valid() && v0 <= v <= end && old(maxPath) <= maxPath && depth <= maxPath
        invariant edges == old(edges) + added
        invariant complete ==> Terminals(added) == Range(v0, v)
        invariant room <= old(room) && (room > 0 ==> complete)
        invariant n < |edges| && edges[n] == old(edges[n])
        decreases end - v
      {
        var next, bok;
        ghost var bComplete, bAdded;
        next, bok, bComplete, bAdded := Branch(n, v, end, ofs, depth);
        assert edges == old(edges) + (added + bAdded);
        if !bok {
          return false, false, added + bAdded;
        }
        Cover(added, bAdded, v0, v, next, complete && bComplete);
        complete, added := complete && bComplete, added + bAdded;
        v := next;
      }
      return true, complete, added;
    }

    /** The edge_new call of do_radix with the label stored in the new
        edge and r_max_cmp raised to cover it. */
    method AddEdge(n: nat, ed: Edge) returns (e: Option<nat>)
      requires Valid() && n < |edges| && Fits(ents, ed)
      requires ed.len <= RE_EDGE_MAX && ed.terminal == (if Ends(ents, ed) then Some(ed.src) else None)
      requires Below(ents, edges[n], ed)
      modifies this`edges, this`kids, this`room, this`numEdges, this`maxFanout, this`maxCmp, this`parent, this`depth
      ensures Valid() && room <= old(room)
      ensures e.None? <==> old(room) == 0
      ensures e.None? ==> edges == old(edges) && room == 0
      ensures e.Some? ==>
                e.value == old(|edges|) && edges == old(edges) + [ed]
    {
      e := EdgeNew(n, ed);
      if e.Some? && ed.len > maxCmp {
        maxCmp := ed.len;
      }
    }

    /** One pass of do_radix's loop: entry v's group v..next-1 gets one edge
        below n (Hang), and the rest of the group is built below that edge,
        unless the edge completes v and v is alone in its group. */
    method Branch(n: nat, v: nat, end: nat, ofs: nat, depth: nat)
      returns (next: nat, ok: bool, ghost complete: bool, ghost added: seq<Edge>)
      requires Valid() && n < |edges| && v < end <= |ents|
      requires ofs == edges[n].ofs + edges[n].len
      requires forall k :: v <= k < end ==> ofs <= |ents[k].str| && ents[k].str[..ofs] == Spell(ents, edges[n])
      modifies this`edges, this`kids, this`room, this`numEdges, this`maxFanout, this`maxCmp, this`maxPath,
               this`parent, this`depth
      decreases end - v, |ents[v].str| - ofs, 1
      ensures Valid() && old(maxPath) <= maxPath && v < next <= end
      ensures edges == old(edges) + added
      ensures !ok ==> !complete
      ensures complete ==> Terminals(added) == Range(v, next)
      ensures room <= old(room) && (room > 0 ==> complete)
    {
      var e, w, last := Hang(n, v, end, ofs);
      if e.None? {
        return last + 1, false, false, [];
      }
      ghost var top := [edges[e.value]];
      if w > last {
        return last + 1, true, true, top;
      }
      // do_radix's own result is ignored here, as in trie.c
      var sub;
      ghost var subComplete, subAdded;
      sub, subComplete, subAdded := DoRadix(e.value, w, last + 1, edges[e.value].ofs + edges[e.value].len, depth + 1);
      Cover(top, subAdded, v, w, last + 1, subComplete);
      return last + 1, true, subComplete, top + subAdded;
    }

    /** The first half of a pass of do_radix's loop: find entry v's group
        v..last, whose common prefix from ofs becomes the label of a new
        edge below n, terminal for v when the label completes v. The
        entries still to be built below the new edge are w..last: all of
        the group, or all but v when v ends on the new edge. */
    method Hang(n: nat, v: nat, end: nat, ofs: nat) returns (e: Option<nat>, w: nat, last: nat)
      requires Valid() && n < |edges| && v < end <= |ents|
      requires ofs == edges[n].ofs + edges[n].len
      requires forall k :: v <= k < end ==> ofs <= |ents[k].str| && ents[k].str[..ofs] == Spell(ents, edges[n])
      modifies this`edges, this`kids, this`room, this`numEdges, this`maxFanout, this`maxCmp, this`parent, this`depth
      ensures Valid() && v <= last < end && v <= w <= last + 1 && room <= old(room)
      ensures e.None? ==> edges == old(edges) && room == 0
      ensures e.Some? ==> e.value == old(|edges|) && |edges| == e.value + 1 && edges == old(edges) + [edges[e.value]]
      ensures e.Some? ==> Terminals([edges[e.value]]) == Range(v, w)
      ensures e.Some? ==> w > v || (w <= last && |ents[w].str| - (ofs + edges[e.value].len) < |ents[v].str| - ofs)
      ensures e.Some? ==> edges[e.value].ofs == ofs
      ensures e.Some? ==>
                forall k :: w <= k <= last ==>
                  ofs + edges[e.value].len <= |ents[k].str| &&
                  ents[k].str[..ofs + edges[e.value].len] == Spell(ents, edges[e.value])
    {
      var len;
      len, last := FindGroup(ents, v, end, ofs);
      var term := if ofs + len == |ents[v].str| then Some(v) else None;
      var ed := Edge(v, ofs, len, term);
      e := AddEdge(n, ed);
      if e.None? {
        return e, v, last;
      }
      assert [ed][..0] == [] && Range(v, v + 1) == [v];
      w := if term.Some? then v + 1 else v;
      GroupSpells(ents, v, w, last, ofs, len, Spell(ents, edges[n]));
    }

    /** The calloc'd struct trie with an empty pool that can hand out room
        edges; no root yet and an empty r_bfs_order. */
    constructor(ents: seq<Entry>, room: nat)
      ensures this.ents == ents && this.room == room && edges == [] && kids == [] && bfsOrder == []
      ensures parent == [] && depth == [] && numEdges == 0 && maxFanout == 0 && maxCmp == 0
    {
      this.ents := ents;
      edges := [];
      kids := [];
      this.room := room;
      numEdges := 0;
      maxFanout := 0;
      maxCmp := 0;
      maxPath := 0;
      bfsOrder := [];
      bfsIdx := [];
      parent := [];
      depth := [];
    }

    /** construct_radix: a NULL entry array (present false) gives an empty
        trie with no root; otherwise the root edge, with an empty label, and
        do_radix over all the entries below it. 0 when the root cannot be
        allocated or a branch of the top level fails. A non-NULL array of
        no entries gets its root and then fails do_radix's assertion that
        the group start lies before the end: the process aborts. */
    method ConstructRadix(present: bool) returns (ok: bool, aborted: bool, ghost complete: bool)
      requires Valid() && |edges| == 0
      modifies this`edges, this`kids, this`room, this`numEdges, this`maxFanout, this`maxCmp, this`maxPath,
               this`parent, this`depth
      ensures Valid()
      ensures aborted <==> present && |ents| == 0 && old(room) > 0
      ensures aborted ==> !ok
      ensures !present ==> ok && edges == []
      ensures present && old(room) == 0 ==> !ok
      ensures present && ok ==> |edges| > 0
      ensures present && complete ==> ok && Terminals(edges) == Range(0, |ents|)
      ensures room <= old(room) && (present && |ents| > 0 && room > 0 ==> complete)
    {
      if !present {
        return true, false, false;
      }
      if |ents| == 0 {
        return false, room > 0, false;
      }
      var root := NewRoot();
      if !root {
        return false, false, false;
      }
      assert forall k :: 0 <= k < |ents| ==> ents[k].str[..0] == Spell(ents, edges[0]);
      ghost var first := edges;
      ghost var added;
      aborted := false;
      ok, complete, added := DoRadix(0, 0, |ents|, 0, 1);
      TerminalsAppend(first, added);
      assert first[..0] == [];
    }

    /** The label spelt by the path from the root down to edge e. */
    ghost function PathLabel(e: nat): seq<byte>
      reads this
      requires Valid() && e < |edges|
      decreases e
    {
      if e == 0 then []
      else
        assert Hangs(ents, edges, parent, e);
        PathLabel(parent[e]) + Label(ents, edges[e])
    }

    /** Reading the labels from the root down to an edge spells that edge's
        entry up to the end of its label; on the edge where an entry ends,
        the whole entry. */
    lemma {:induction false} PathSpells(e: nat)
      requires Valid() && e < |edges|
      ensures PathLabel(e) == Spell(ents, edges[e])
      ensures edges[e].terminal.Some? ==> PathLabel(e) == ents[edges[e].terminal.value].str
      decreases e
    {
      var c := edges[e];
      if e == 0 {
        assert Spell(ents, c) == ents[c.src].str[..0];
      } else {
        assert Hangs(ents, edges, parent, e);
        PathSpells(parent[e]);
        assert ents[c.src].str[..c.ofs + c.len] == ents[c.src].str[..c.ofs] + Label(ents, c);
      }
      if c.terminal.Some? {
        assert ents[c.src].str[..c.ofs + c.len] == ents[c.src].str;
      }
    }

    ghost predicate BfsOk()
      reads this`kids, this`edges, this`bfsOrder
    {
      BfsOrder(kids, |edges|, bfsOrder)
    }

    /** e_bfs_idx is each edge's position in r_bfs_order. */
    ghost predicate Numbered()
      reads this`bfsIdx, this`bfsOrder, this`edges
    {
      |bfsIdx| == |edges| && Positions(bfsIdx, bfsOrder)
    }

    /** do_layout_bfs: nothing for a trie without a root; otherwise the
        root, then level after level the children of the level before,
        each edge's list in order, appended to r_bfs_order. */
    method LayoutBfs()
      requires Valid() && bfsOrder == []
      modifies this`bfsOrder
      ensures Valid() && BfsOk() && edges == old(edges) && kids == old(kids)
    {
      if |edges| == 0 {
        return;
      }
      bfsOrder := Levels(kids, parent, depth, |edges|, maxFanout);
    }

    /** The numbering loop of layout_radix: each edge's e_bfs_idx, zeroed
        when the edge was allocated, becomes its position in r_bfs_order. */
    method Number()
      requires Valid() && BfsOk()
      modifies this`bfsIdx
      ensures Numbered()
    {
      var idx: seq<nat> := seq(|edges|, _ => 0);
      var i := 0;
      while i < |bfsOrder|
        invariant 0 <= i <= |bfsOrder| && |idx| == |edges|
        invariant forall k :: 0 <= k < i ==> idx[bfsOrder[k]] == k
      {
        idx := idx[bfsOrder[i] := i];
        i := i + 1;
      }
      bfsIdx := idx;
    }

    /** layout_radix: do_layout_inorder walks the tree from the root and
        assigns nothing; then the BFS order and the numbering. */
    method LayoutRadix()
      requires Valid() && bfsOrder == [] && |edges| > 0
      modifies this`bfsOrder, this`bfsIdx
      ensures Valid() && BfsOk() && Numbered() && edges == old(edges) && kids == old(kids)
    {
      LayoutBfs();
      Number();
    }

    /** What record i of the index says about edge e = r_bfs_order[i]: the
        oid of the entry ending on e (GIDX_INVALID_OID when none), e's label
        padded with zeros to RE_EDGE_MAX bytes, and e's children as the run
        of records edgesIdx .. edgesIdx + numEdges - 1, in list order
        (edgesIdx 0 when e has none). */
    ghost predicate RecordOk(i: nat, d: DEdge)
      reads this
      requires Valid() && BfsOk() && i < |bfsOrder|
    {
      var e := bfsOrder[i];
      d.oid == (if edges[e].terminal.Some? then ents[edges[e].terminal.value].oid else GIDX_INVALID_OID) &&
      d.strlen == edges[e].len && |d.str| == RE_EDGE_MAX && d.str[..d.strlen] == Label(ents, edges[e]) &&
      (forall k :: d.strlen <= k < RE_EDGE_MAX ==> d.str[k] == 0) &&
      d.numEdges == |kids[e]| &&
      (d.numEdges == 0 ==> d.edgesIdx == 0) &&
      (d.numEdges > 0 ==> d.edgesIdx + d.numEdges <= |bfsOrder| && bfsOrder[d.edgesIdx..d.edgesIdx + d.numEdges] == kids[e])
    }

    /** node_to_disk's record for edge e whose first child is record idx. */
    function NodeToDisk(e: nat, idx: nat): DEdge
      reads this
      requires Valid() && e < |edges|
    {
      var ed := edges[e];
      DEdge(if ed.terminal.Some? then ents[ed.terminal.value].oid else GIDX_INVALID_OID,
            idx, |kids[e]|, ed.len, Label(ents, ed) + Zeros(RE_EDGE_MAX - ed.len))
    }

    /** The re_edges_idx trie_write_trie gives edge e: the position of
        its first child, 0 when it has none. */
    function FirstChild(e: nat): nat
      reads this
      requires Valid() && Numbered() && e < |edges|
    {
      if |kids[e]| > 0 then
        assert KidsOk(kids, parent, maxFanout, e);
        bfsIdx[kids[e][0]]
      else 0
    }

    /** The record node_to_disk writes for the edge at position i says
        what RecordOk says. */
    lemma RecordAt(i: nat)
      requires Valid() && BfsOk() && Numbered() && i < |bfsOrder|
      ensures RecordOk(i, NodeToDisk(bfsOrder[i], FirstChild(bfsOrder[i])))
    {
      var e := bfsOrder[i];
      var d := NodeToDisk(e, FirstChild(e));
      var l := Label(ents, edges[e]);
      PadLabel(l, RE_EDGE_MAX - edges[e].len);
      assert d.str == l + Zeros(RE_EDGE_MAX - edges[e].len);
      assert d.strlen == |l| && |d.str| == RE_EDGE_MAX;
      assert d.str[..d.strlen] == l;
      assert d.numEdges == |kids[e]| && d.edgesIdx == FirstChild(e);
      FirstChildRun(kids, |edges|, bfsOrder, bfsIdx, i);
    }

    /** trie_write_trie: one record per edge in BFS order, each pointing at
        its first child's position. node_to_disk first asserts that the
        edge has fewer than 0x100 children, so the walk aborts the process
        at the first record whose edge has more (aborted); otherwise
        fobuf_write failing on the record at position failAt stops the walk
        with 0. recs are the records written before the walk stopped. */
    method WriteTrie(failAt: Option<nat>) returns (ok: bool, aborted: bool, recs: seq<DEdge>)
      requires Valid() && BfsOk() && Numbered()
      ensures !(ok && aborted) && |recs| <= |bfsOrder|
      ensures ok <==> (forall e :: 0 <= e < |edges| ==> |kids[e]| < 0x100) && (failAt.None? || failAt.value >= |edges|)
      ensures ok ==> |recs| == |edges|
      ensures aborted ==> |recs| < |bfsOrder| && |kids[bfsOrder[|recs|]]| >= 0x100
      ensures !ok && !aborted ==> failAt == Some(|recs|)
      ensures forall i :: 0 <= i < |recs| ==> RecordOk(i, recs[i]) && |kids[bfsOrder[i]]| < 0x100
    {
      recs := [];
      var i := 0;
      while i < |bfsOrder|
        invariant 0 <= i <= |bfsOrder| && |recs| == i
        invariant failAt.Some? ==> i <= failAt.value
        invariant forall k :: 0 <= k < i ==> RecordOk(k, recs[k]) && |kids[bfsOrder[k]]| < 0x100
      {
        var e := bfsOrder[i];
        var idx := FirstChild(e);
        if |kids[e]| >= 0x100 {
          return false, true, recs;
        }
        if failAt == Some(i) {
          return false, false, recs;
        }
        RecordAt(i);
        RecordsGrow(recs, NodeToDisk(e, idx));
        recs := recs + [NodeToDisk(e, idx)];
        i := i + 1;
      }
      AllListed();
      return true, false, recs;
    }

    /** One more good record after good records. */
    lemma RecordsGrow(recs: seq<DEdge>, d: DEdge)
      requires Valid() && BfsOk() && |recs| < |bfsOrder|
      requires forall k :: 0 <= k < |recs| ==> RecordOk(k, recs[k]) && |kids[bfsOrder[k]]| < 0x100
      requires RecordOk(|recs|, d) && |kids[bfsOrder[|recs|]]| < 0x100
      ensures forall k :: 0 <= k < |recs| + 1 ==> RecordOk(k, (recs + [d])[k]) && |kids[bfsOrder[k]]| < 0x100
    {
      forall k | 0 <= k < |recs| + 1
        ensures RecordOk(k, (recs + [d])[k]) && |kids[bfsOrder[k]]| < 0x100
      {
        if k < |recs| {
          assert (recs + [d])[k] == recs[k];
        }
      }
    }

    /** What holds of every edge in the BFS order holds of every edge. */
    lemma AllListed()
      requires Valid() && BfsOk()
      requires forall k :: 0 <= k < |bfsOrder| ==> |kids[bfsOrder[k]]| < 0x100
      ensures forall e :: 0 <= e < |edges| ==> |kids[e]| < 0x100
    {
      forall e | 0 <= e < |edges|
        ensures |kids[e]| < 0x100
      {
        assert e in bfsOrder;
        var k :| 0 <= k < |bfsOrder| && bfsOrder[k] == e;
      }
    }

    /** trie_trie_size: 18 bytes for each record trie_write_trie writes. */
    function TrieSize(): (r: nat)
      reads this
      requires Valid() && BfsOk()
      ensures r == DEDGE_SIZE * |bfsOrder|
    {
      DEDGE_SIZE * numEdges
    }

    /** trie_num_edges: the number of records trie_write_trie writes. */
    function NumEdges(): (r: nat)
      reads this
      requires Valid() && BfsOk()
      ensures r == |bfsOrder|
    {
      numEdges
    }
  }

  /** The entries of v's group all spell what v spells up to the end of
      the group's common prefix. */
  lemma GroupSpells(ents: seq<Entry>, v: nat, w: nat, last: nat, ofs: nat, len: nat, above: seq<byte>)
    requires v <= w && v <= last < |ents| && ofs + len <= |ents[v].str|
    requires forall k :: v <= k <= last ==> ofs <= |ents[k].str| && ents[k].str[..ofs] == above
    requires forall k :: v <= k <= last ==>
               ofs + len <= |ents[k].str| && ents[k].str[ofs..ofs + len] == ents[v].str[ofs..ofs + len]
    ensures forall k :: w <= k <= last ==>
              ofs + len <= |ents[k].str| && ents[k].str[..ofs + len] == ents[v].str[..ofs + len]
  {
    forall k | w <= k <= last
      ensures ofs + len <= |ents[k].str| && ents[k].str[..ofs + len] == ents[v].str[..ofs + len]
    {
      SharedPrefix(ents[k].str, ents[v].str, ofs, len);
    }
  }

  /** The entries ending on two runs of edges, one after the other. */
  lemma Cover(a: seq<Edge>, b: seq<Edge>, lo: nat, mid: nat, hi: nat, complete: bool)
    requires lo <= mid <= hi
    requires complete ==> Terminals(a) == Range(lo, mid) && Terminals(b) == Range(mid, hi)
    ensures complete ==> Terminals(a + b) == Range(lo, hi)
  {
    if complete {
      TerminalsAppend(a, b);
      RangeAppend(lo, mid, hi);
    }
  }

  /** trie_new: NULL when the trie or its edge pool cannot be allocated
      (allocOk false) or construct_radix fails; otherwise the trie built
      over the entries and laid out. The pool hands out at most room
      edges. present says the entry array is not NULL. For no entries
      there is never a trie: a non-NULL empty array aborts in do_radix,
      and for a NULL array layout_radix's in-order walk reads the child
      list of the missing root edge and faults (both aborted). built is
      the trie allocated, whether or not it is returned: while its pool
      has room left, construction did not fail and every entry ends on
      exactly one edge. */
  method TrieNew(ents: seq<Entry>, present: bool, allocOk: bool, room: nat)
    returns (t: Trie?, aborted: bool, ghost complete: bool, ghost built: Trie?)
    ensures aborted <==> allocOk && (!present || (|ents| == 0 && room > 0))
    ensures aborted || !allocOk || room == 0 ==> t == null
    ensures t != null ==> present && |ents| > 0
    ensures t != null ==> fresh(t) && t.ents == ents && t.Valid() && t.BfsOk() && t.Numbered()
    ensures complete ==> t != null && Terminals(t.edges) == Range(0, |ents|)
    ensures allocOk <==> built != null
    ensures built != null ==> fresh(built) && built.ents == ents && built.room <= room
    ensures t != null ==> t == built
    ensures present && |ents| > 0 && built != null && built.room > 0 ==> complete
  {
    if !allocOk {
      return null, false, false, null;
    }
    t := new Trie(ents, room);
    built := t;
    EmptyOk(ents);
    assert t.Valid();
    var ok;
    ok, aborted, complete := t.ConstructRadix(present);
    if !ok {
      return null, aborted, false, built;
    }
    if |t.edges| == 0 {
      return null, true, false, built;
    }
    t.LayoutRadix();
  }

  lemma EmptyOk(ents: seq<Entry>)
    ensures TreeOk([], [], [], 0, 0) && LabelsOk(ents, [], [])
  {
  }

  /** o lists each of the n edges once, the root first, and after the
      root the children of the listed edges, list by list, in order: the
      order in which do_layout_bfs leaves r_bfs_order. */
  ghost predicate BfsOrder(kids: seq<seq<nat>>, n: nat, o: seq<nat>)
  {
    |kids| == n && Distinct(o) && |o| == n &&
    (forall i :: 0 <= i < |o| ==> o[i] < n) &&
    (forall e :: 0 <= e < n ==> e in o) &&
    (n > 0 ==> [0] + Flatten(kids, o) == o)
  }

  /** idx gives every element of o its position in o. */
  ghost predicate Positions(idx: seq<nat>, o: seq<nat>)
  {
    forall i :: 0 <= i < |o| ==> o[i] < |idx| && idx[o[i]] == i
  }

  /** The outer loop of do_layout_bfs over the n edges of a tree: cur
      is the level being visited, and its children the next level; the
      walk ends at the first empty level. */
  method Levels(kids: seq<seq<nat>>, ghost parent: seq<nat>, ghost depth: seq<nat>, n: nat,
                ghost maxFanout: nat) returns (order: seq<nat>)
    requires TreeOk(kids, parent, depth, n, maxFanout) && n > 0
    ensures BfsOrder(kids, n, order)
  {
    LevelsStart(kids, parent, depth, n, maxFanout);
    order := [];
    var cur: seq<nat> := [0];
    ghost var level := 0;
    while true
      invariant LevelOk(kids, parent, depth, n, maxFanout, order, cur, level)
      decreases n - level
    {
      DepthAtMost(kids, parent, depth, n, maxFanout, cur[0]);
      var next := Children(kids, cur);
      if next == [] {
        LevelsDone(kids, parent, depth, n, maxFanout, order, cur, level);
        return order + cur;
      }
      LevelStep(kids, parent, depth, n, maxFanout, order, cur, next, level);
      order := order + cur;
      cur := next;
      level := level + 1;
    }
  }

  /** What do_layout_bfs knows between rounds: order holds, without
      repeats, the levels above `level` in BFS order, followed by cur,
      the whole of level `level`. */
  ghost predicate LevelOk(kids: seq<seq<nat>>, parent: seq<nat>, depth: seq<nat>, n: nat, maxFanout: nat,
                          order: seq<nat>, cur: seq<nat>, level: nat)
  {
    TreeOk(kids, parent, depth, n, maxFanout) &&
    cur != [] && (forall i :: 0 <= i < |cur| ==> cur[i] < n && depth[cur[i]] == level) &&
    (forall i :: 0 <= i < |order| ==> order[i] < n && depth[order[i]] < level) &&
    Distinct(order + cur) &&
    [0] + Flatten(kids, order) == order + cur &&
    (forall x :: 0 <= x < n && depth[x] <= level ==> x in order + cur)
  }

  lemma LevelsStart(kids: seq<seq<nat>>, parent: seq<nat>, depth: seq<nat>, n: nat, maxFanout: nat)
    requires TreeOk(kids, parent, depth, n, maxFanout) && n > 0
    ensures LevelOk(kids, parent, depth, n, maxFanout, [], [0], 0)
  {
    TreeFacts(kids, parent, depth, n, maxFanout);
    forall x | 0 < x < n ensures depth[x] > 0 {
      assert depth[x] == depth[parent[x]] + 1;
    }
    assert [] + [0] == [0];
  }

  lemma LevelStep(kids: seq<seq<nat>>, parent: seq<nat>, depth: seq<nat>, n: nat, maxFanout: nat,
                  order: seq<nat>, cur: seq<nat>, next: seq<nat>, level: nat)
    requires LevelOk(kids, parent, depth, n, maxFanout, order, cur, level)
    requires next == Flatten(kids, cur) && next != []
    ensures LevelOk(kids, parent, depth, n, maxFanout, order + cur, next, level + 1)
  {
    LevelMembers(kids, parent, depth, n, maxFanout, order, cur, next, level);
    DistinctJoin(order, cur, next, depth, level);
    LevelCover(kids, parent, depth, n, maxFanout, order, cur, next, level);
    FlattenAppend(kids, order, cur);
    ConsAppend(Flatten(kids, order), order + cur, next);
    JoinBelow(order, cur, depth, n, level);
  }

  lemma ConsAppend(x: seq<nat>, y: seq<nat>, z: seq<nat>)
    requires [0] + x == y
    ensures [0] + (x + z) == y + z
  {
  }

  /** Edges above `level` followed by edges at `level` are all above
      level + 1. */
  lemma JoinBelow(a: seq<nat>, b: seq<nat>, depth: seq<nat>, n: nat, level: nat)
    requires |depth| == n
    requires forall i :: 0 <= i < |a| ==> a[i] < n && depth[a[i]] < level
    requires forall i :: 0 <= i < |b| ==> b[i] < n && depth[b[i]] == level
    ensures forall i :: 0 <= i < |a + b| ==> (a + b)[i] < n && depth[(a + b)[i]] < level + 1
  {
    var ab := a + b;
    forall i | 0 <= i < |ab| ensures ab[i] < n && depth[ab[i]] < level + 1 {
      if i < |a| {
        assert ab[i] == a[i];
      } else {
        assert ab[i] == b[i - |a|];
      }
    }
  }

  lemma LevelsDone(kids: seq<seq<nat>>, parent: seq<nat>, depth: seq<nat>, n: nat, maxFanout: nat,
                   order: seq<nat>, cur: seq<nat>, level: nat)
    requires LevelOk(kids, parent, depth, n, maxFanout, order, cur, level)
    requires Flatten(kids, cur) == []
    ensures BfsOrder(kids, n, order + cur)
  {
    LevelMembers(kids, parent, depth, n, maxFanout, order, cur, [], level);
    LevelCover(kids, parent, depth, n, maxFanout, order, cur, [], level);
    NoDeeper(kids, parent, depth, n, maxFanout, level);
    FlattenAppend(kids, order, cur);
    forall i | 0 <= i < |order + cur| ensures (order + cur)[i] < n {
      if i < |order| {
        assert (order + cur)[i] == order[i];
      } else {
        assert (order + cur)[i] == cur[i - |order|];
      }
    }
    DistinctCover(order + cur, n);
    assert Flatten(kids, order) + [] == Flatten(kids, order);
  }

  /** The inner loops of do_layout_bfs: the children of the edges of cur,
      list after list, each in order. */
  method Children(kids: seq<seq<nat>>, cur: seq<nat>) returns (next: seq<nat>)
    requires forall i :: 0 <= i < |cur| ==> cur[i] < |kids|
    ensures next == Flatten(kids, cur)
  {
    next := [];
    var i := 0;
    while i < |cur|
      invariant 0 <= i <= |cur| && next == Flatten(kids, cur[..i])
    {
      var j := 0;
      while j < |kids[cur[i]]|
        invariant 0 <= j <= |kids[cur[i]]| && next == Flatten(kids, cur[..i]) + kids[cur[i]][..j]
      {
        next := next + [kids[cur[i]][j]];
        j := j + 1;
      }
      assert cur[..i + 1][..i] == cur[..i];
      i := i + 1;
    }
    assert cur[..|cur|] == cur;
  }

  /** The children lists of the edges in l, one after another. */
  ghost function Flatten(kids: seq<seq<nat>>, l: seq<nat>): seq<nat>
    requires forall i :: 0 <= i < |l| ==> l[i] < |kids|
  {
    if l == [] then [] else Flatten(kids, l[..|l| - 1]) + kids[l[|l| - 1]]
  }

  lemma {:induction false} FlattenAppend(kids: seq<seq<nat>>, a: seq<nat>, b: seq<nat>)
    requires forall i :: 0 <= i < |a| ==> a[i] < |kids|
    requires forall i :: 0 <= i < |b| ==> b[i] < |kids|
    ensures Flatten(kids, a + b) == Flatten(kids, a) + Flatten(kids, b)
    decreases |b|
  {
    if b == [] {
      assert a + b == a;
    } else {
      var b' := b[..|b| - 1];
      assert (a + b)[..|a + b| - 1] == a + b';
      FlattenAppend(kids, a, b');
    }
  }

  /** In a tree, the children of the edges of a list without repeats are
      the edges whose parent is on the list, each once. */
  lemma {:induction false} FlattenMembers(kids: seq<seq<nat>>, parent: seq<nat>, depth: seq<nat>, n: nat,
                                          maxFanout: nat, l: seq<nat>)
    requires TreeOk(kids, parent, depth, n, maxFanout)
    requires Distinct(l) && forall i :: 0 <= i < |l| ==> l[i] < n
    ensures Distinct(Flatten(kids, l))
    ensures forall y :: y in Flatten(kids, l) <==> 0 < y < n && parent[y] in l
    decreases |l|
  {
    TreeFacts(kids, parent, depth, n, maxFanout);
    if l != [] {
      var l' := l[..|l| - 1];
      var x := l[|l| - 1];
      assert Distinct(l') by {
        forall i, j | 0 <= i < j < |l'| ensures l'[i] != l'[j] {
          assert l'[i] == l[i] && l'[j] == l[j];
        }
      }
      FlattenMembers(kids, parent, depth, n, maxFanout, l');
      var f := Flatten(kids, l');
      var g := kids[x];
      assert x !in l' by {
        forall i | 0 <= i < |l'| ensures l'[i] != x {
          assert l'[i] == l[i];
        }
      }
      forall i, j | 0 <= i < j < |f + g| ensures (f + g)[i] != (f + g)[j] {
        if i < |f| && j >= |f| {
          var a := (f + g)[i];
          assert a in f;
          assert g[j - |f|] == (f + g)[j];
          assert parent[g[j - |f|]] == x;
        } else if i >= |f| {
          assert (f + g)[i] == g[i - |f|] && (f + g)[j] == g[j - |f|];
        }
      }
      forall y ensures y in f + g <==> 0 < y < n && parent[y] in l {
        if 0 < y < n && parent[y] in l {
          if parent[y] == x {
            assert y in kids[parent[y]];
          } else {
            var i :| 0 <= i < |l| && l[i] == parent[y];
            assert i < |l'| && l'[i] == parent[y];
          }
        }
        if y in g {
          var j :| 0 <= j < |g| && g[j] == y;
        }
        if y in f {
          var i :| 0 <= i < |l'| && l'[i] == parent[y];
          assert l[i] == parent[y];
        }
      }
    }
  }

  /** An edge is never nearer the root than its own allocation index. */
  lemma {:induction false} DepthAtMost(kids: seq<seq<nat>>, parent: seq<nat>, depth: seq<nat>, n: nat,
                                       maxFanout: nat, c: nat)
    requires TreeOk(kids, parent, depth, n, maxFanout) && c < n
    ensures depth[c] <= c
    decreases c
  {
    TreeFacts(kids, parent, depth, n, maxFanout);
    if c > 0 {
      DepthAtMost(kids, parent, depth, n, maxFanout, parent[c]);
    }
  }

  /** Every edge at depth d or more has an ancestor at depth d. */
  lemma {:induction false} AncestorAt(kids: seq<seq<nat>>, parent: seq<nat>, depth: seq<nat>, n: nat,
                                      maxFanout: nat, c: nat, d: nat) returns (a: nat)
    requires TreeOk(kids, parent, depth, n, maxFanout) && c < n && d <= depth[c]
    ensures a < n && depth[a] == d
    decreases c
  {
    TreeFacts(kids, parent, depth, n, maxFanout);
    if depth[c] == d {
      return c;
    }
    a := AncestorAt(kids, parent, depth, n, maxFanout, parent[c], d);
  }

  /** With no edge at depth level + 1 there is none deeper either. */
  lemma NoDeeper(kids: seq<seq<nat>>, parent: seq<nat>, depth: seq<nat>, n: nat,
                 maxFanout: nat, level: nat)
    requires TreeOk(kids, parent, depth, n, maxFanout)
    requires forall x :: 0 <= x < n ==> depth[x] != level + 1
    ensures forall x :: 0 <= x < n ==> depth[x] <= level
  {
    TreeFacts(kids, parent, depth, n, maxFanout);
    forall x | 0 <= x < n ensures depth[x] <= level {
      if depth[x] > level {
        var a := AncestorAt(kids, parent, depth, n, maxFanout, x, level + 1);
      }
    }
  }

  /** One round of do_layout_bfs: the children of level `level` are edges of level level + 1, each
      once, and exactly the edges whose parent is in cur. */
  lemma LevelMembers(kids: seq<seq<nat>>, parent: seq<nat>, depth: seq<nat>, n: nat, maxFanout: nat,
                     order: seq<nat>, cur: seq<nat>, next: seq<nat>, level: nat)
    requires TreeOk(kids, parent, depth, n, maxFanout)
    requires forall i :: 0 <= i < |cur| ==> cur[i] < n && depth[cur[i]] == level
    requires Distinct(order + cur)
    requires next == Flatten(kids, cur)
    ensures Distinct(next) && forall y :: y in next <==> 0 < y < n && parent[y] in cur
    ensures forall i :: 0 <= i < |next| ==> next[i] < n && depth[next[i]] == level + 1
  {
    TreeFacts(kids, parent, depth, n, maxFanout);
    DistinctSuffix(order, cur);
    FlattenMembers(kids, parent, depth, n, maxFanout, cur);
    NextDepths(parent, depth, n, cur, next, level);
  }

  lemma DistinctSuffix(a: seq<nat>, b: seq<nat>)
    requires Distinct(a + b)
    ensures Distinct(b)
  {
    var ab := a + b;
    forall i, j | 0 <= i < j < |b| ensures b[i] != b[j] {
      assert ab[|a| + i] == b[i] && ab[|a| + j] == b[j];
    }
  }

  /** The children of edges at depth `level` are at depth level + 1. */
  lemma NextDepths(parent: seq<nat>, depth: seq<nat>, n: nat, cur: seq<nat>, next: seq<nat>, level: nat)
    requires |parent| == n && |depth| == n
    requires forall c :: 0 < c < n ==> parent[c] < c && depth[c] == depth[parent[c]] + 1
    requires forall i :: 0 <= i < |cur| ==> cur[i] < n && depth[cur[i]] == level
    requires forall y :: y in next <==> 0 < y < n && parent[y] in cur
    ensures forall i :: 0 <= i < |next| ==> next[i] < n && depth[next[i]] == level + 1
  {
    forall i | 0 <= i < |next| ensures next[i] < n && depth[next[i]] == level + 1 {
      assert next[i] in next;
      var j :| 0 <= j < |cur| && cur[j] == parent[next[i]];
    }
  }

  /** Lists at depths below `level`, at `level` and at level + 1, the
      first two joined without repeats and the third without repeats, join
      without repeats. */
  lemma DistinctJoin(a: seq<nat>, b: seq<nat>, c: seq<nat>, depth: seq<nat>, level: nat)
    requires Distinct(a + b) && Distinct(c)
    requires forall i :: 0 <= i < |a| ==> a[i] < |depth| && depth[a[i]] < level
    requires forall i :: 0 <= i < |b| ==> b[i] < |depth| && depth[b[i]] == level
    requires forall i :: 0 <= i < |c| ==> c[i] < |depth| && depth[c[i]] == level + 1
    ensures Distinct(a + b + c)
  {
    var ab := a + b;
    forall i | 0 <= i < |ab| ensures ab[i] < |depth| && depth[ab[i]] <= level {
      if i < |a| {
        assert ab[i] == a[i];
      } else {
        assert ab[i] == b[i - |a|];
      }
    }
    forall i, j | 0 <= i < j < |ab + c| ensures (ab + c)[i] != (ab + c)[j] {
      if j < |ab| {
        assert (ab + c)[i] == ab[i] && (ab + c)[j] == ab[j];
      } else if i >= |ab| {
        assert (ab + c)[i] == c[i - |ab|] && (ab + c)[j] == c[j - |ab|];
      } else {
        assert (ab + c)[i] == ab[i] && (ab + c)[j] == c[j - |ab|];
      }
    }
  }

  /** Every edge at depth level + 1 is a child of one in cur. */
  lemma LevelCover(kids: seq<seq<nat>>, parent: seq<nat>, depth: seq<nat>, n: nat, maxFanout: nat,
                   order: seq<nat>, cur: seq<nat>, next: seq<nat>, level: nat)
    requires TreeOk(kids, parent, depth, n, maxFanout)
    requires forall i :: 0 <= i < |order| ==> order[i] < n && depth[order[i]] < level
    requires forall x :: 0 <= x < n && depth[x] <= level ==> x in order + cur
    requires forall y :: y in next <==> 0 < y < n && parent[y] in cur
    ensures forall x :: 0 <= x < n && depth[x] == level + 1 ==> x in next
    ensures forall x :: 0 <= x < n && depth[x] <= level + 1 ==> x in order + cur + next
  {
    TreeFacts(kids, parent, depth, n, maxFanout);
    forall x | 0 <= x < n && depth[x] == level + 1 ensures x in next {
      assert x > 0;
      var p := parent[x];
      assert depth[p] == level;
      var k :| 0 <= k < |order + cur| && (order + cur)[k] == p;
      if k < |order| {
        assert order[k] == p;
      } else {
        assert cur[k - |order|] == p;
      }
    }
    forall x | 0 <= x < n && depth[x] <= level + 1 ensures x in order + cur + next {
      if depth[x] == level + 1 {
        assert x in next;
      } else {
        assert x in order + cur;
      }
    }
  }

  /** The set of a list's elements. */
  ghost function Elems(s: seq<nat>): set<nat>
  {
    set x | x in s
  }

  /** A list without repeats has as many elements as its set. */
  lemma {:induction false} DistinctCard(s: seq<nat>)
    requires Distinct(s)
    ensures |Elems(s)| == |s|
    decreases |s|
  {
    if s != [] {
      var s' := s[..|s| - 1];
      var last := s[|s| - 1];
      forall i, j | 0 <= i < j < |s'| ensures s'[i] != s'[j] {
        assert s'[i] == s[i] && s'[j] == s[j];
      }
      DistinctCard(s');
      forall i | 0 <= i < |s'| ensures s'[i] != last {
        assert s'[i] == s[i];
      }
      assert s == s' + [last];
      assert Elems(s) == Elems(s') + {last} by {
        forall x ensures x in Elems(s) <==> x in Elems(s') + {last} {
          assert x in s <==> x in s' || x == last;
        }
      }
      assert last !in Elems(s');
    }
  }

  lemma {:induction false} RangeFacts(lo: nat, hi: nat)
    requires lo <= hi
    ensures |Range(lo, hi)| == hi - lo && Distinct(Range(lo, hi))
    ensures forall x :: x in Range(lo, hi) <==> lo <= x < hi
    decreases hi
  {
    if hi > lo {
      RangeFacts(lo, hi - 1);
      var r := Range(lo, hi - 1);
      var r2 := r + [hi - 1];
      assert Range(lo, hi) == r2;
      forall i, j | 0 <= i < j < |r2| ensures r2[i] != r2[j] {
        if j < |r| {
          assert r2[i] == r[i] && r2[j] == r[j];
        } else {
          assert r2[i] == r[i];
          assert r[i] in r;
        }
      }
    } else {
      assert Range(lo, hi) == [];
    }
  }

  /** A list without repeats of exactly the numbers below n has n
      elements. */
  lemma DistinctCover(s: seq<nat>, n: nat)
    requires Distinct(s) && (forall i :: 0 <= i < |s| ==> s[i] < n) && (forall x :: 0 <= x < n ==> x in s)
    ensures |s| == n
  {
    DistinctCard(s);
    RangeFacts(0, n);
    DistinctCard(Range(0, n));
    assert Elems(s) == Elems(Range(0, n));
  }

  /** In a BFS order ([0] + Flatten(o) == o), the children of the edge at
      position i are the consecutive run starting after the root and the
      children of the edges before it. */
  lemma ChildrenRun(kids: seq<seq<nat>>, n: nat, o: seq<nat>, i: nat)
    requires |kids| == n && (forall k :: 0 <= k < |o| ==> o[k] < n) && i < |o|
    requires [0] + Flatten(kids, o) == o
    ensures var s := 1 + |Flatten(kids, o[..i])|;
            s + |kids[o[i]]| <= |o| && o[s..s + |kids[o[i]]|] == kids[o[i]]
  {
    FlattenSplit(kids, o, i);
    SliceMid([0], Flatten(kids, o[..i]), kids[o[i]], Flatten(kids, o[i + 1..]));
  }

  /** With idx giving positions in the BFS order o, the first child of
      o's i-th edge is numbered with the start of that edge's run of
      children. */
  lemma FirstChildRun(kids: seq<seq<nat>>, n: nat, o: seq<nat>, idx: seq<nat>, i: nat)
    requires BfsOrder(kids, n, o) && Positions(idx, o) && i < |o|
    ensures |kids[o[i]]| > 0 ==>
      kids[o[i]][0] < |idx| && idx[kids[o[i]][0]] + |kids[o[i]]| <= |o| &&
      o[idx[kids[o[i]][0]]..idx[kids[o[i]][0]] + |kids[o[i]]|] == kids[o[i]]
  {
    var e := o[i];
    ChildrenRun(kids, n, o, i);
    var s := 1 + |Flatten(kids, o[..i])|;
    if |kids[e]| > 0 {
      assert o[s] == o[s..s + |kids[e]|][0] == kids[e][0];
      assert idx[o[s]] == s;
    }
  }

  /** p zero bytes, the padding after an edge label. */
  function Zeros(p: nat): (z: seq<byte>)
    ensures |z| == p
  {
    seq(p, _ => 0)
  }

  /** A label padded with zeros: the label comes first, zeros after. */
  lemma PadLabel(l: seq<byte>, p: nat)
    ensures (l + Zeros(p))[..|l|] == l
    ensures forall k :: |l| <= k < |l| + p ==> (l + Zeros(p))[k] == 0
  {
    assert (l + Zeros(p))[..|l|] == l;
  }

  /** The children of o's i-th edge sit between those of the edges before
      it and those of the edges after it. */
  lemma FlattenSplit(kids: seq<seq<nat>>, o: seq<nat>, i: nat)
    requires (forall k :: 0 <= k < |o| ==> o[k] < |kids|) && i < |o|
    ensures Flatten(kids, o) == Flatten(kids, o[..i]) + kids[o[i]] + Flatten(kids, o[i + 1..])
  {
    var upto, rest := o[..i + 1], o[i + 1..];
    assert o == upto + rest;
    FlattenAppend(kids, upto, rest);
    assert upto[..i] == o[..i];
  }

  lemma SliceMid(h: seq<nat>, a: seq<nat>, c: seq<nat>, r: seq<nat>)
    ensures |h + (a + c + r)| >= |h| + |a| + |c|
    ensures (h + (a + c + r))[|h| + |a|..|h| + |a| + |c|] == c
  {
    assert h + (a + c + r) == (h + a) + c + r;
  }
}
