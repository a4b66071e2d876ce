/** SkunkDB's on-disk format (include/skunk.h, skunk_make.c, skunk.c) as
    specification functions: the FNV-1 hash, the sizing of each secondary
    table, linear-probing placement, the byte image the writer produces and
    the lookup the reader performs on any byte image. The round trip from
    the one to the other is proved at the end.

    Layout of an image: SKUNK_HASHSZ primary entries `skunk_table {ofs,
    len}` of two native little-endian u32 words, then every non-empty
    head's secondary table of `len` buckets `skunk_bucket {hash, ofs, klen,
    vlen}` (four u32 words), head after head, then the key and value bytes
    of every occupied bucket in bucket order. */
module SkunkFormat {
  import opened Bytes
  import opened Concat

  /** SKUNK_HASHSZ, the number of primary entries. Products and remainders
      below spell out the numbers themselves (2048; 8 bytes per
      `skunk_table`, 16 per `skunk_bucket`; 2^32 and 2^64 for the u32 and
      size_t moduli) so that the arithmetic stays linear for the solver. */
  const HASHSZ: nat := 2048
  /** Where the secondary tables start: SKUNK_HASHSZ * sizeof(struct skunk_table). */
  const T0: nat := 16384
  const FNV_PRIME: nat := 16777619
  const FNV_OFFSET: nat := 2166136261

  /** A record handed to skunk_insert, with the hash skunk_insert stores
      beside it (`r->hash`). */
  datatype Rec = Rec(key: seq<byte>, val: seq<byte>, hash: nat)

  // ---------------------------------------------------------------------
  // FNV-1 hash (skunk_hash)

  /** Bitwise exclusive or of `a` and `b` truncated to the width whose
      modulus is `m` (a power of two: 2^32 for u32, 2^64 for size_t). */
  function Xor(a: nat, b: nat, m: nat): (r: nat)
    requires m > 0
    ensures r < m
    decreases m
  {
    if m == 1 then 0 else (a % 2 + b % 2) % 2 + 2 * Xor(a / 2, b / 2, m / 2)
  }

  /** `*data` is a plain `char`, signed on the x86 targets of the server:
      a byte of 128 or more is sign-extended to 32 bits before the xor. */
  function Widen(c: byte): nat
  {
    if c < 128 then c as nat else c as nat + 0xFFFF_FF00
  }

  /** One round of FNV-1: multiply (wrapping at 32 bits), then xor. */
  function Step(h: nat, c: byte): (r: nat)
    ensures r < TWO32
  {
    Xor(h * FNV_PRIME % 0x1_0000_0000, Widen(c), 0x1_0000_0000)
  }

  /** The hash state after folding the bytes of `s` into `h`, first byte first. */
  function HashFrom(h: nat, s: seq<byte>): nat
    decreases s
  {
    if s == [] then h else HashFrom(Step(h, s[0]), s[1..])
  }

  /** skunk_hash: FNV-1 over the key, from the 32-bit offset basis. */
  function Hash(s: seq<byte>): (r: nat)
    ensures r < TWO32
  {
    HashFromBound(FNV_OFFSET, s);
    HashFrom(FNV_OFFSET, s)
  }

  lemma {:induction false} HashFromBound(h: nat, s: seq<byte>)
    requires h < TWO32
    ensures HashFrom(h, s) < TWO32
    decreases s
  {
    if s != [] {
      HashFromBound(Step(h, s[0]), s[1..]);
    }
  }

  /** The hash of a concatenation continues from the hash of its first part. */
  lemma {:induction false} HashFromAppend(h: nat, a: seq<byte>, b: seq<byte>)
    ensures HashFrom(h, a + b) == HashFrom(HashFrom(h, a), b)
    decreases a
  {
    if a != [] {
      assert (a + b)[1..] == a[1..] + b;
      assert HashFrom(h, a + b) == HashFrom(Step(h, a[0]), a[1..] + b);
      HashFromAppend(Step(h, a[0]), a[1..], b);
    } else {
      assert a + b == b;
    }
  }

  /** Appending a byte costs one more FNV-1 round. */
  lemma {:induction false} HashSnoc(s: seq<byte>, c: byte)
    ensures Hash(s + [c]) == Step(Hash(s), c)
  {
    HashFromAppend(FNV_OFFSET, s, [c]);
  }

  /** The primary slot of a key: hash % SKUNK_HASHSZ. */
  function HeadOf(key: seq<byte>): (r: nat)
    ensures r < HASHSZ
  {
    Hash(key) % 2048
  }

  /** The first slot probed, by writer and reader alike: (hash ^ klen) % n,
      computed in size_t. */
  function Start(h: nat, klen: nat, n: nat): (r: nat)
    requires n > 0
    ensures r < n
  {
    Xor(h, klen % 0x1_0000_0000_0000_0000, 0x1_0000_0000_0000_0000) % n
  }

  /** The slot after `i` in a table of `n` slots: (i + 1) % n. */
  function Next(i: nat, n: nat): (r: nat)
    requires i < n
    ensures r < n
  {
    if i + 1 == n then 0 else i + 1
  }

  /** The slot visited `d` steps after slot `i` in a table of `n` slots. */
  function ProbeAt(i: nat, d: nat, n: nat): (r: nat)
    requires i < n
    ensures r < n
    decreases d
  {
    if d == 0 then i else ProbeAt(Next(i, n), d - 1, n)
  }

  /** Within one lap, the slot `d` steps ahead is i + d, wrapped once. */
  lemma {:induction false} ProbeAtLap(i: nat, d: nat, n: nat)
    requires i < n && d < n
    ensures ProbeAt(i, d, n) == if i + d < n then i + d else i + d - n
    decreases d
  {
    if d > 0 {
      ProbeAtLap(Next(i, n), d - 1, n);
    }
  }

  /** How many steps lead from slot `s` to slot `j`. */
  function Dist(s: nat, j: nat, n: nat): (d: nat)
    requires s < n && j < n
    ensures d < n && ProbeAt(s, d, n) == j
  {
    var d := if s <= j then j - s else j + n - s;
    ProbeAtLap(s, d, n);
    d
  }

  // ---------------------------------------------------------------------
  // Sizing a secondary table (skunk_size)

  /** skunk_size: grow the count by half, bump 513..1020 to the prime 1021,
      then set the low bit. The load stays within two thirds but for the
      rounding of count / 2. */
  function Size(count: nat): (r: nat)
    ensures r % 2 == 1 && count <= r
    ensures 3 * count <= 2 * r + 1
    ensures 512 < count + count / 2 < 1021 ==> r == 1021
    ensures !(512 < count + count / 2 < 1021) ==> count + count / 2 <= r <= count + count / 2 + 1
  {
    var grown := count + count / 2;
    var bumped := if 512 < grown < 1021 then 1021 else grown;
    if bumped % 2 == 0 then bumped + 1 else bumped
  }

  /** The length of the secondary table written for a head holding `l`:
      an empty head is skipped before sizing and keeps 0. */
  function TableLen(l: seq<Rec>): (n: nat)
    ensures |l| <= n && (n == 0 <==> |l| == 0)
  {
    if |l| == 0 then 0 else Size(|l|)
  }

  // ---------------------------------------------------------------------
  // Linear probing (skunk_resolve)

  /** The r2[] array of skunk_resolve: slot i is empty or holds a record. */
  type Slots = seq<Option<Rec>>

  function Empty(n: nat): (s: Slots)
    ensures |s| == n && forall j :: 0 <= j < n ==> s[j].None?
  {
    seq(n, _ => None)
  }

  function Occupied(s: Slots): nat
  {
    if s == [] then 0 else (if s[0].Some? then 1 else 0) + Occupied(s[1..])
  }

  /** The records of the occupied slots, in ascending slot order. */
  function Compact(s: Slots): seq<Rec>
  {
    if s == [] then [] else (if s[0].Some? then [s[0].value] else []) + Compact(s[1..])
  }

  lemma {:induction false} OccupiedEmpty(n: nat)
    ensures Occupied(Empty(n)) == 0 && Compact(Empty(n)) == []
  {
    if n > 0 {
      assert Empty(n)[1..] == Empty(n - 1);
      OccupiedEmpty(n - 1);
    }
  }

  lemma {:induction false} OccupiedFull(s: Slots)
    requires forall j :: 0 <= j < |s| ==> s[j].Some?
    ensures Occupied(s) == |s|
  {
    if s != [] {
      OccupiedFull(s[1..]);
    }
  }

  /** Filling an empty slot adds one occupied slot and that record. */
  lemma {:induction false} FillSlot(s: Slots, k: nat, r: Rec)
    requires k < |s| && s[k].None?
    ensures Occupied(s[k := Some(r)]) == Occupied(s) + 1
    ensures multiset(Compact(s[k := Some(r)])) == multiset(Compact(s)) + multiset{r}
  {
    FillOccupied(s, k, r);
    FillCompact(s, k, r);
  }

  lemma {:induction false} FillOccupied(s: Slots, k: nat, r: Rec)
    requires k < |s| && s[k].None?
    ensures Occupied(s[k := Some(r)]) == Occupied(s) + 1
  {
    var t := s[k := Some(r)];
    if k == 0 {
      assert t[1..] == s[1..];
    } else {
      assert t[1..] == s[1..][k - 1 := Some(r)];
      FillOccupied(s[1..], k - 1, r);
    }
  }

  lemma {:induction false} FillCompact(s: Slots, k: nat, r: Rec)
    requires k < |s| && s[k].None?
    ensures multiset(Compact(s[k := Some(r)])) == multiset(Compact(s)) + multiset{r}
  {
    var t := s[k := Some(r)];
    if k == 0 {
      assert t[1..] == s[1..];
      assert Compact(t) == [r] + Compact(s[1..]);
    } else {
      assert t[1..] == s[1..][k - 1 := Some(r)];
      FillCompact(s[1..], k - 1, r);
      assert t[0] == s[0];
    }
  }

  /** A record is in the compacted list exactly when some slot holds it. */
  lemma {:induction false} CompactHas(s: Slots, r: Rec)
    ensures r in Compact(s) <==> exists j :: 0 <= j < |s| && s[j] == Some(r)
  {
    if s != [] {
      CompactHas(s[1..], r);
      if r in Compact(s[1..]) {
        var j :| 0 <= j < |s[1..]| && s[1..][j] == Some(r);
        assert s[j + 1] == Some(r);
      }
      if j :| 0 <= j < |s| && s[j] == Some(r) {
        if j > 0 {
          assert s[1..][j - 1] == Some(r);
        }
      }
    }
  }

  /** The first empty slot met when probing at most `k` slots from `i`. */
  function FreeFrom(s: Slots, i: nat, k: nat): (r: Option<nat>)
    requires 0 < |s| && i < |s|
    decreases k
    ensures r.Some? ==> r.value < |s| && s[r.value].None?
  {
    if k == 0 then None
    else if s[i].None? then Some(i)
    else FreeFrom(s, Next(i, |s|), k - 1)
  }

  /** The slot found is the first empty one along the probe sequence. */
  lemma {:induction false} FreeFromIsFirst(s: Slots, i: nat, k: nat)
    requires 0 < |s| && i < |s| && FreeFrom(s, i, k).Some?
    ensures exists d :: (0 <= d < k && FreeFrom(s, i, k).value == ProbeAt(i, d, |s|) &&
                         forall e :: 0 <= e < d ==> s[ProbeAt(i, e, |s|)].Some?)
  {
    var d := FreeDistance(s, i, k);
  }

  lemma {:induction false} FreeDistance(s: Slots, i: nat, k: nat) returns (d: nat)
    requires 0 < |s| && i < |s| && FreeFrom(s, i, k).Some?
    ensures d < k && FreeFrom(s, i, k).value == ProbeAt(i, d, |s|)
    ensures forall e :: 0 <= e < d ==> s[ProbeAt(i, e, |s|)].Some?
    decreases k
  {
    if s[i].None? {
      d := 0;
    } else {
      var d' := FreeDistance(s, Next(i, |s|), k - 1);
      d := d' + 1;
      forall e | 0 <= e < d
        ensures s[ProbeAt(i, e, |s|)].Some?
      {
      }
    }
  }

  /** When no empty slot is found, every slot probed is occupied. */
  lemma {:induction false} FreeFromNone(s: Slots, i: nat, k: nat, e: nat)
    requires 0 < |s| && i < |s| && FreeFrom(s, i, k).None? && e < k
    ensures s[ProbeAt(i, e, |s|)].Some?
    decreases e
  {
    if e > 0 {
      FreeFromNone(s, Next(i, |s|), k - 1, e - 1);
    }
  }

  /** While a slot is empty, probing the whole table finds one. */
  lemma {:induction false} FreeExists(s: Slots, i: nat)
    requires 0 < |s| && i < |s| && Occupied(s) < |s|
    ensures FreeFrom(s, i, |s|).Some?
  {
    if FreeFrom(s, i, |s|).None? {
      forall j | 0 <= j < |s|
        ensures s[j].Some?
      {
        FreeFromNone(s, i, |s|, Dist(i, j, |s|));
      }
      OccupiedFull(s);
    }
  }

  /** Where skunk_resolve puts `r`: the first empty slot from its start. */
  function PlaceIndex(s: Slots, r: Rec): (j: nat)
    requires 0 < |s| && Occupied(s) < |s|
    ensures j < |s| && s[j].None?
  {
    var st := Start(r.hash, |r.key|, |s|);
    FreeExists(s, st);
    FreeFrom(s, st, |s|).value
  }

  /** Placing every record of `l`, head of the list first. */
  function PlaceAll(s: Slots, l: seq<Rec>): (t: Slots)
    requires Occupied(s) + |l| <= |s|
    ensures |t| == |s| && Occupied(t) == Occupied(s) + |l|
    decreases l
  {
    if l == [] then s
    else
      var j := PlaceIndex(s, l[0]);
      FillSlot(s, j, l[0]);
      PlaceAll(s[j := Some(l[0])], l[1..])
  }

  /** The secondary table skunk_resolve builds for a list of records. */
  function Resolve(l: seq<Rec>, n: nat): (t: Slots)
    requires |l| <= n
    ensures |t| == n
  {
    OccupiedEmpty(n);
    PlaceAll(Empty(n), l)
  }

  lemma {:induction false} PlaceAllPermutes(s: Slots, l: seq<Rec>)
    requires Occupied(s) + |l| <= |s|
    ensures multiset(Compact(PlaceAll(s, l))) == multiset(Compact(s)) + multiset(l)
    decreases l
  {
    if l != [] {
      var j := PlaceIndex(s, l[0]);
      var t := s[j := Some(l[0])];
      FillCompact(s, j, l[0]);
      FillOccupied(s, j, l[0]);
      PlaceAllPermutes(t, l[1..]);
      MultisetCons(l);
    }
  }

  lemma {:induction false} MultisetCons(l: seq<Rec>)
    requires l != []
    ensures multiset(l) == multiset{l[0]} + multiset(l[1..])
  {
    assert l == [l[0]] + l[1..];
  }

  /** The occupied slots hold exactly the records of the list: the list
      skunk_resolve rebuilds is a permutation of the one it was given. */
  lemma {:induction false} ResolvePermutes(l: seq<Rec>, n: nat)
    requires |l| <= n
    ensures multiset(Compact(Resolve(l, n))) == multiset(l)
  {
    OccupiedEmpty(n);
    PlaceAllPermutes(Empty(n), l);
  }

  /** Every record of the list has a slot, and every occupied slot holds a
      record of the list. */
  lemma {:induction false} ResolveSlots(l: seq<Rec>, n: nat, r: Rec)
    requires |l| <= n
    ensures r in l <==> exists j :: 0 <= j < n && Resolve(l, n)[j] == Some(r)
  {
    ResolvePermutes(l, n);
    CompactHas(Resolve(l, n), r);
    assert r in l <==> r in multiset(l);
    assert r in Compact(Resolve(l, n)) <==> r in multiset(Compact(Resolve(l, n)));
  }

  // ---------------------------------------------------------------------
  // Native words

  /** A u32 field as stored: the value truncated to 32 bits, low byte first. */
  function LE32(x: nat): (w: seq<byte>)
    ensures |w| == 4
  {
    var y := x % 0x1_0000_0000;
    var y1 := y / 256;
    var y2 := y1 / 256;
    var y3 := y2 / 256;
    [(y % 256) as byte, (y1 % 256) as byte, (y2 % 256) as byte, y3 as byte]
  }

  /** Reading a stored word gives back the value truncated to 32 bits. */
  lemma {:induction false} ReadWord(m: seq<byte>, o: nat, x: nat)
    requires o + 4 <= |m| && m[o..o + 4] == LE32(x)
    ensures U32(m, o) == x % 0x1_0000_0000
  {
    var y := x % 0x1_0000_0000;
    var y1 := y / 256;
    var y2 := y1 / 256;
    assert y == y % 256 + 256 * y1;
    assert y1 == y1 % 256 + 256 * y2;
    assert y2 == y2 % 256 + 256 * (y2 / 256);
  }

  // ---------------------------------------------------------------------
  // The image skunk_commit writes

  datatype Table = Table(ofs: nat, len: nat)

  function EncTable(t: Table): (w: seq<byte>)
    ensures |w| == 8
  {
    LE32(t.ofs) + LE32(t.len)
  }

  /** An occupied bucket records the record's hash, the offset `cur` of its
      key and value bytes and their lengths; an empty one is all zero. */
  function EncBucket(slot: Option<Rec>, cur: nat): (w: seq<byte>)
    ensures |w| == 16
  {
    match slot
    case None => LE32(0) + LE32(0) + LE32(0) + LE32(0)
    case Some(r) => LE32(r.hash) + LE32(cur) + LE32(|r.key|) + LE32(|r.val|)
  }

  /** The key and value bytes written for a slot. */
  function Payload(slot: Option<Rec>): seq<byte>
  {
    match slot
    case None => []
    case Some(r) => r.key + r.val
  }

  function Payloads(ss: Slots): (ps: seq<seq<byte>>)
    ensures |ps| == |ss| && forall g :: 0 <= g < |ss| ==> ps[g] == Payload(ss[g])
  {
    seq(|ss|, g requires 0 <= g < |ss| => Payload(ss[g]))
  }

  /** The key/value area for a run of slots. */
  function DataBytes(ss: Slots): seq<byte>
  {
    Flat(Payloads(ss))
  }

  /** Where the data of slot g starts within the key/value area. */
  function Off(ss: Slots, g: nat): nat
    requires g <= |ss|
  {
    |Flat(Payloads(ss)[..g])|
  }

  /** The buckets of a run of slots whose key/value area starts at `d0`. */
  function Buckets(ss: Slots, d0: nat): (bs: seq<seq<byte>>)
    ensures |bs| == |ss|
    ensures forall g :: 0 <= g < |ss| ==> bs[g] == EncBucket(ss[g], d0 + Off(ss, g))
  {
    seq(|ss|, g requires 0 <= g < |ss| => EncBucket(ss[g], d0 + Off(ss, g)))
  }

  /** Number of buckets in the secondary tables of heads 0..i-1. */
  function Base(hs: seq<seq<Rec>>, i: nat): nat
    requires i <= |hs|
  {
    if i == 0 then 0 else Base(hs, i - 1) + TableLen(hs[i - 1])
  }

  /** The secondary table of head i. */
  function HeadSlots(hs: seq<seq<Rec>>, i: nat): (s: Slots)
    requires i < |hs|
    ensures |s| == TableLen(hs[i])
  {
    Resolve(hs[i], TableLen(hs[i]))
  }

  /** The secondary tables of all heads. */
  function Tabs(hs: seq<seq<Rec>>): (ts: seq<Slots>)
    ensures |ts| == |hs| && forall i :: 0 <= i < |hs| ==> ts[i] == HeadSlots(hs, i)
  {
    seq(|hs|, i requires 0 <= i < |hs| => HeadSlots(hs, i))
  }

  /** The primary entry of head i: (0, 0) when empty, else where its
      secondary table starts and how many buckets it has. */
  function Entry(hs: seq<seq<Rec>>, i: nat): Table
    requires i < |hs|
  {
    if |hs[i]| == 0 then Table(0, 0) else Table(T0 + 16 * Base(hs, i), TableLen(hs[i]))
  }

  function Entries(hs: seq<seq<Rec>>): (es: seq<seq<byte>>)
    ensures |es| == |hs| && forall i :: 0 <= i < |hs| ==> es[i] == EncTable(Entry(hs, i))
  {
    seq(|hs|, i requires 0 <= i < |hs| => EncTable(Entry(hs, i)))
  }

  /** A file made of the primary table `tb` followed by the buckets of the
      slots `ss` and then their key/value area. */
  function Layout(tb: seq<byte>, ss: Slots): seq<byte>
  {
    tb + Flat(Buckets(ss, |tb| + 16 * |ss|)) + DataBytes(ss)
  }

  /** The whole file written by skunk_commit for the heads `hs`. */
  function Image(hs: seq<seq<Rec>>): (m: seq<byte>)
    requires |hs| == HASHSZ
    ensures |m| >= T0
  {
    FlatLen(Entries(hs), 8);
    Layout(Flat(Entries(hs)), Flat(Tabs(hs)))
  }

  // ---------------------------------------------------------------------
  // Lookup (skunk_select) on any image

  /** What skunk_select reports: -1, 0, or 1 with the record found at
      byte offset `ofs`, its key being `klen` bytes and its value `vlen`. */
  datatype Answer = Invalid | Missing | Found(ofs: nat, klen: nat, vlen: nat)

  function Code(a: Answer): int
  {
    match a
    case Invalid => -1
    case Missing => 0
    case Found(_, _, _) => 1
  }

  /** Bucket `j` of the table at `tofs` is in the image and holds `key`:
      hash and length agree, the record lies inside the image and its key
      bytes are equal to `key`. */
  predicate Matches(m: seq<byte>, tofs: nat, j: nat, h: nat, key: seq<byte>)
  {
    var b := tofs + 16 * j;
    b + 16 <= |m| && U32(m, b) == h && U32(m, b + 8) == |key| &&
    U32(m, b + 4) + |key| + U32(m, b + 12) <= |m| &&
    m[U32(m, b + 4)..U32(m, b + 4) + |key|] == key
  }

  function FoundAt(m: seq<byte>, tofs: nat, j: nat, key: seq<byte>): Answer
    requires tofs + 16 * j + 16 <= |m|
  {
    var b := tofs + 16 * j;
    Found(U32(m, b + 4), |key|, U32(m, b + 12))
  }

  /** The probe loop of skunk_select from slot `i` after `dist` steps. A
      bucket that does not fit in the image ends the search with -1. */
  function Probe(m: seq<byte>, tofs: nat, len: nat, h: nat, key: seq<byte>, i: nat, dist: nat): (r: Answer)
    requires i < len && dist <= len
    decreases len - dist
    ensures r.Found? ==> exists j :: 0 <= j < len && Matches(m, tofs, j, h, key) && r == FoundAt(m, tofs, j, key)
    ensures r.Invalid? ==> tofs + 16 * len > |m|
  {
    if tofs + 16 * i + 16 > |m| then Invalid
    else if Matches(m, tofs, i, h, key) then FoundAt(m, tofs, i, key)
    else if dist + 1 > len then Missing
    else Probe(m, tofs, len, h, key, Next(i, len), dist + 1)
  }

  /** skunk_select on the image `m`, which skunk_open has checked holds at
      least the primary table. */
  function Lookup(m: seq<byte>, key: seq<byte>): (r: Answer)
    requires |m| >= T0
    ensures |key| == 0 ==> r == Invalid
    ensures r.Found? ==> r.klen == |key| && r.ofs + r.klen + r.vlen <= |m| && m[r.ofs..r.ofs + r.klen] == key
  {
    if |key| == 0 then Invalid
    else
      var h := Hash(key);
      var t := HeadOf(key);
      var tofs := U32(m, 8 * t);
      var tlen := U32(m, 8 * t + 4);
      if tofs == 0 || tlen == 0 then Missing
      else if tofs > |m| then Invalid
      else Probe(m, tofs, tlen, h, key, Start(h, |key|, tlen), 0)
  }

  /** The value bytes of a record found. */
  function ValueOf(m: seq<byte>, a: Answer): seq<byte>
    requires a.Found? && a.ofs + a.klen + a.vlen <= |m|
  {
    m[a.ofs + a.klen..a.ofs + a.klen + a.vlen]
  }

  /** Every slot is reached within the len + 1 probes: a matching bucket
      `e` steps ahead is not missed. */
  lemma {:induction false} ProbeReaches(m: seq<byte>, tofs: nat, len: nat, h: nat, key: seq<byte>, i: nat, dist: nat, e: nat)
    requires i < len && dist + e <= len
    requires Matches(m, tofs, ProbeAt(i, e, len), h, key)
    ensures !Probe(m, tofs, len, h, key, i, dist).Missing?
    decreases e
  {
    if e == 0 {
      assert ProbeAt(i, e, len) == i;
      ProbeHit(m, tofs, len, h, key, i, dist);
    } else if tofs + 16 * i + 16 <= |m| && !Matches(m, tofs, i, h, key) {
      assert ProbeAt(i, e, len) == ProbeAt(Next(i, len), e - 1, len);
      ProbeReaches(m, tofs, len, h, key, Next(i, len), dist + 1, e - 1);
      ProbeSkip(m, tofs, len, h, key, i, dist);
    }
  }

  /** A probe that reaches a matching bucket finds it. */
  lemma {:induction false} ProbeHit(m: seq<byte>, tofs: nat, len: nat, h: nat, key: seq<byte>, i: nat, dist: nat)
    requires i < len && dist <= len && Matches(m, tofs, i, h, key)
    ensures Probe(m, tofs, len, h, key, i, dist) == FoundAt(m, tofs, i, key)
  {
  }

  /** A probe past a bucket that fits and does not match goes on to the next slot. */
  lemma {:induction false} ProbeSkip(m: seq<byte>, tofs: nat, len: nat, h: nat, key: seq<byte>, i: nat, dist: nat)
    requires i < len && dist < len && tofs + 16 * i + 16 <= |m| && !Matches(m, tofs, i, h, key)
    ensures Probe(m, tofs, len, h, key, i, dist) == Probe(m, tofs, len, h, key, Next(i, len), dist + 1)
  {
  }

  /** Lookup finds the key whenever some bucket of its table holds it and
      the whole table lies inside the image. */
  lemma {:induction false} LookupComplete(m: seq<byte>, key: seq<byte>, j: nat)
    requires |m| >= T0 && |key| > 0
    requires var t := HeadOf(key);
      var tofs := U32(m, 8 * t);
      var tlen := U32(m, 8 * t + 4);
      0 < tofs && j < tlen && tofs + 16 * tlen <= |m| &&
      Matches(m, tofs, j, Hash(key), key)
    ensures Lookup(m, key).Found?
  {
    var t := HeadOf(key);
    var tofs := U32(m, 8 * t);
    var tlen := U32(m, 8 * t + 4);
    var s := Start(Hash(key), |key|, tlen);
    ProbeReaches(m, tofs, tlen, Hash(key), key, s, 0, Dist(s, j, tlen));
  }
}
