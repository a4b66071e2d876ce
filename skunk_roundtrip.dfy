/** The reader undoes the writer: the image skunk_commit writes for a set
    of inserted records, looked up by skunk_select, gives back every
    record's value. Stated for heads whose records sit in their own head
    (as skunk_insert places them), with nonempty keys, with one value per
    key, and for an image small enough that no 32-bit field wraps. */
module SkunkRoundTrip {
  import opened Bytes
  import opened Concat
  import opened SkunkFormat

  // ---------------------------------------------------------------------
  // Reading words back

  /** The four words of a bucket. */
  lemma {:induction false} Quad(a: seq<byte>, b: seq<byte>, c: seq<byte>, d: seq<byte>)
    requires |a| == 4 && |b| == 4 && |c| == 4 && |d| == 4
    ensures var w := a + b + c + d;
      w[0..4] == a && w[4..8] == b && w[8..12] == c && w[12..16] == d
  {
  }

  /** A value below 2^32 is kept whole in a u32 field. */
  lemma {:induction false} Small(x: nat)
    requires x < 0x1_0000_0000
    ensures x % 0x1_0000_0000 == x
  {
  }

  /** A word stored at offset `x` of a piece found at `o` reads back. */
  lemma {:induction false} ReadPiece(m: seq<byte>, o: nat, p: seq<byte>, x: nat, v: nat)
    requires o + |p| <= |m| && m[o..o + |p|] == p
    requires x + 4 <= |p| && p[x..x + 4] == LE32(v)
    ensures U32(m, o + x) == v % 0x1_0000_0000
  {
    Within(m, o, p, x, x + 4);
    ReadWord(m, o + x, v);
  }

  // ---------------------------------------------------------------------
  // Where each part of a layout lies

  /** A primary entry found at `o` reads back as written. */
  lemma {:induction false} EntryWords(m: seq<byte>, o: nat, e: Table)
    requires o + 8 <= |m| && m[o..o + 8] == EncTable(e)
    ensures U32(m, o) == e.ofs % 0x1_0000_0000 && U32(m, o + 4) == e.len % 0x1_0000_0000
  {
    var p := EncTable(e);
    assert p[0..4] == LE32(e.ofs) && p[4..8] == LE32(e.len);
    ReadPiece(m, o, p, 0, e.ofs);
    ReadPiece(m, o, p, 4, e.len);
  }

  /** Entry t of a primary table of 8-byte entries lies at 8 * t,
      whatever follows the table. */
  lemma {:induction false} EntryPlace(es: seq<seq<byte>>, rest: seq<byte>, t: nat)
    requires t < |es| && forall i :: 0 <= i < |es| ==> |es[i]| == 8
    ensures var m := Flat(es) + rest;
      8 * t + 8 <= |m| && m[8 * t..8 * t + 8] == es[t]
  {
    FixedPiece(es, 8, t);
    InFront(Flat(es), rest, 8 * t, es[t]);
  }

  /** Entry t of the primary table reads back as written. */
  lemma {:induction false} LayoutEntry(hs: seq<seq<Rec>>, ss: Slots, t: nat)
    requires t < |hs|
    ensures var m := Layout(Flat(Entries(hs)), ss);
      8 * t + 8 <= |m| &&
      U32(m, 8 * t) == Entry(hs, t).ofs % 0x1_0000_0000 &&
      U32(m, 8 * t + 4) == Entry(hs, t).len % 0x1_0000_0000
  {
    var tb := Flat(Entries(hs));
    EntryPlace(Entries(hs), Flat(Buckets(ss, |tb| + 16 * |ss|)) + DataBytes(ss), t);
    LayoutSplit(tb, ss);
    EntryWords(Layout(tb, ss), 8 * t, Entry(hs, t));
  }

  /** The words of a bucket: an empty one has key length 0; an occupied
      one the record's hash, the offset `o` of its data and its lengths,
      each truncated to 32 bits. */
  ghost predicate BucketReads(m: seq<byte>, b: nat, slot: Option<Rec>, o: nat)
    requires b + 16 <= |m|
  {
    match slot
    case None => U32(m, b + 8) == 0
    case Some(r) =>
      U32(m, b) == r.hash % 0x1_0000_0000 && U32(m, b + 4) == o % 0x1_0000_0000 &&
      U32(m, b + 8) == |r.key| % 0x1_0000_0000 && U32(m, b + 12) == |r.val| % 0x1_0000_0000
  }

  /** The bucket written for `slot`, pointing at `o`, lies at byte `b` of `m`. */
  ghost predicate BucketIn(m: seq<byte>, b: nat, slot: Option<Rec>, o: nat)
  {
    b + 16 <= |m| && m[b..b + 16] == EncBucket(slot, o)
  }

  /** The key of `r` followed by its value lies at byte `o` of `m`. */
  ghost predicate DataIn(m: seq<byte>, o: nat, r: Rec)
  {
    o + |r.key| + |r.val| <= |m| &&
    m[o..o + |r.key|] == r.key && m[o + |r.key|..o + |r.key| + |r.val|] == r.val
  }

  /** A bucket found at `b` reads back as written. */
  lemma {:induction false} BucketWords(m: seq<byte>, b: nat, slot: Option<Rec>, o: nat)
    requires BucketIn(m, b, slot, o)
    ensures BucketReads(m, b, slot, o)
  {
    var w := EncBucket(slot, o);
    match slot
    case None =>
      Quad(LE32(0), LE32(0), LE32(0), LE32(0));
      ReadPiece(m, b, w, 8, 0);
    case Some(r) =>
      Quad(LE32(r.hash), LE32(o), LE32(|r.key|), LE32(|r.val|));
      ReadPiece(m, b, w, 0, r.hash);
      ReadPiece(m, b, w, 4, o);
      ReadPiece(m, b, w, 8, |r.key|);
      ReadPiece(m, b, w, 12, |r.val|);
  }

  /** Piece g of 16-byte pieces, put between `pre` and `post`, lies at
      |pre| + 16 * g. */
  lemma {:induction false} BucketPlace(pre: seq<byte>, bs: seq<seq<byte>>, post: seq<byte>, g: nat)
    requires g < |bs| && forall i :: 0 <= i < |bs| ==> |bs[i]| == 16
    ensures var m := pre + (Flat(bs) + post);
      |pre| + 16 * g + 16 <= |m| && m[|pre| + 16 * g..|pre| + 16 * g + 16] == bs[g]
  {
    FixedPiece(bs, 16, g);
    InFront(Flat(bs), post, 16 * g, bs[g]);
    Behind(pre, Flat(bs) + post, 16 * g, bs[g]);
  }

  /** Where the data of slot g lies in a layout. */
  function DataOfs(tb: seq<byte>, ss: Slots, g: nat): nat
    requires g <= |ss|
  {
    |tb| + 16 * |ss| + Off(ss, g)
  }

  /** Where the data of slots g to g + n - 1 starts. */
  function Offsets(tb: seq<byte>, ss: Slots, g: nat, n: nat): (os: seq<nat>)
    requires g + n <= |ss|
    ensures |os| == n && forall j :: 0 <= j < n ==> os[j] == DataOfs(tb, ss, g + j)
  {
    if n == 0 then [] else Offsets(tb, ss, g, n - 1) + [DataOfs(tb, ss, g + n - 1)]
  }

  lemma {:induction false} BucketsLen(ss: Slots, d0: nat)
    ensures |Flat(Buckets(ss, d0))| == 16 * |ss|
  {
    FlatLen(Buckets(ss, d0), 16);
  }

  /** A layout is its primary table, its buckets and its data. */
  lemma {:induction false} LayoutSplit(tb: seq<byte>, ss: Slots)
    ensures Layout(tb, ss) == tb + (Flat(Buckets(ss, |tb| + 16 * |ss|)) + DataBytes(ss))
  {
  }

  /** The bucket written for slot g points at the data of slot g. */
  lemma {:induction false} BucketOfSlot(tb: seq<byte>, ss: Slots, g: nat)
    requires g < |ss|
    ensures Buckets(ss, |tb| + 16 * |ss|)[g] == EncBucket(ss[g], DataOfs(tb, ss, g))
  {
  }

  /** Bucket g of a layout, at byte `b`, holds the bucket written for
      slot g, pointing at `o`. */
  lemma {:induction false} LayoutBucket(m: seq<byte>, tb: seq<byte>, ss: Slots, g: nat, b: nat, slot: Option<Rec>, o: nat)
    requires g < |ss| && m == Layout(tb, ss)
    requires b == |tb| + 16 * g && slot == ss[g] && o == DataOfs(tb, ss, g)
    ensures BucketIn(m, b, slot, o)
  {
    var bs := Buckets(ss, |tb| + 16 * |ss|);
    BucketOfSlot(tb, ss, g);
    LayoutSplit(tb, ss);
    assert forall i :: 0 <= i < |bs| ==> |bs[i]| == 16;
    BucketPlace(tb, bs, DataBytes(ss), g);
    assert m[b..b + 16] == bs[g] == EncBucket(slot, o);
  }

  /** Piece g of `ps`, put after `front`, lies where the pieces before it end. */
  lemma {:induction false} DataPlace(front: seq<byte>, ps: seq<seq<byte>>, g: nat)
    requires g < |ps|
    ensures var m := front + Flat(ps);
      var o := |front| + |Flat(ps[..g])|;
      o + |ps[g]| <= |m| && m[o..o + |ps[g]|] == ps[g]
  {
    FlatPiece(ps, g);
    Behind(front, Flat(ps), |Flat(ps[..g])|, ps[g]);
  }

  /** A key followed by its value, found at `o`, gives each of them. */
  lemma {:induction false} KeyVal(m: seq<byte>, o: nat, k: seq<byte>, v: seq<byte>)
    requires o + |k + v| <= |m| && m[o..o + |k + v|] == k + v
    ensures o + |k| + |v| <= |m|
    ensures m[o..o + |k|] == k && m[o + |k|..o + |k| + |v|] == v
  {
    Within(m, o, k + v, 0, |k|);
    Within(m, o, k + v, |k|, |k| + |v|);
    assert (k + v)[0..|k|] == k;
    assert (k + v)[|k|..|k| + |v|] == v;
  }

  /** The data of slot g starts at DataOfs, after the table and the buckets. */
  lemma {:induction false} DataOfSlot(tb: seq<byte>, ss: Slots, g: nat)
    requires g < |ss|
    ensures |tb + Flat(Buckets(ss, |tb| + 16 * |ss|))| + |Flat(Payloads(ss)[..g])| == DataOfs(tb, ss, g)
    ensures Payloads(ss)[g] == Payload(ss[g])
  {
    BucketsLen(ss, |tb| + 16 * |ss|);
  }

  /** The key and value of the record in slot g lie at `o`, its DataOfs. */
  lemma {:induction false} LayoutData(m: seq<byte>, tb: seq<byte>, ss: Slots, g: nat, r: Rec, o: nat)
    requires g < |ss| && ss[g] == Some(r) && m == Layout(tb, ss) && o == DataOfs(tb, ss, g)
    ensures DataIn(m, o, r)
  {
    DataOfSlot(tb, ss, g);
    DataPlace(tb + Flat(Buckets(ss, |tb| + 16 * |ss|)), Payloads(ss), g);
    KeyVal(m, o, r.key, r.val);
  }

  // ---------------------------------------------------------------------
  // Where each head's table lies among all of them

  /** Secondary tables `ts` for the heads `hs`: one per head, of the size
      skunk_size gives it, whose occupied slots hold records of that head
      and hold every one of them. Resolve builds such tables (TabsPlaced). */
  ghost predicate Placed(hs: seq<seq<Rec>>, ts: seq<Slots>)
  {
    |ts| == |hs| &&
    (forall i :: 0 <= i < |hs| ==> |ts[i]| == TableLen(hs[i])) &&
    (forall i, j :: 0 <= i < |hs| && 0 <= j < |ts[i]| && ts[i][j].Some? ==> ts[i][j].value in hs[i]) &&
    (forall i, k :: 0 <= i < |hs| && 0 <= k < |hs[i]| ==>
       exists j :: 0 <= j < |ts[i]| && ts[i][j] == Some(hs[i][k]))
  }

  lemma {:induction false} TabsPlaced(hs: seq<seq<Rec>>)
    ensures Placed(hs, Tabs(hs))
  {
    var ts: seq<Slots> := Tabs(hs);
    forall i: int, j: int | 0 <= i < |hs| && 0 <= j < |ts[i]| && ts[i][j].Some?
      ensures ts[i][j].value in hs[i]
    {
      ResolveSlots(hs[i], TableLen(hs[i]), ts[i][j].value);
    }
    forall i: int, k: int | 0 <= i < |hs| && 0 <= k < |hs[i]|
      ensures exists j :: 0 <= j < |ts[i]| && ts[i][j] == Some(hs[i][k])
    {
      ResolveSlots(hs[i], TableLen(hs[i]), hs[i][k]);
      var j :| 0 <= j < TableLen(hs[i]) && Resolve(hs[i], TableLen(hs[i]))[j] == Some(hs[i][k]);
      assert ts[i][j] == Some(hs[i][k]);
    }
  }

  lemma {:induction false} BaseGrows(hs: seq<seq<Rec>>, i: nat, k: nat)
    requires i < k <= |hs|
    ensures Base(hs, i) + TableLen(hs[i]) <= Base(hs, k)
    decreases k
  {
    if i < k - 1 {
      BaseGrows(hs, i, k - 1);
    }
  }

  /** Head i's table starts Base(hs, i) slots into the joined tables. */
  lemma {:induction false} BaseIsOffset(hs: seq<seq<Rec>>, ts: seq<Slots>, i: nat)
    requires |ts| == |hs| && forall i :: 0 <= i < |hs| ==> |ts[i]| == TableLen(hs[i])
    requires i <= |hs|
    ensures |Flat(ts[..i])| == Base(hs, i)
    decreases i
  {
    if i > 0 {
      BaseIsOffset(hs, ts, i - 1);
      FlatSnoc(ts, i - 1);
    }
  }

  /** Slot j of head i's table is slot Base(hs, i) + j of the joined
      tables, and every head's table ends inside them. */
  lemma {:induction false} SlotOfHead(hs: seq<seq<Rec>>, ts: seq<Slots>, i: nat, j: nat)
    requires |ts| == |hs| && forall i :: 0 <= i < |hs| ==> |ts[i]| == TableLen(hs[i])
    requires i < |hs| && j < TableLen(hs[i])
    ensures Base(hs, i) + TableLen(hs[i]) <= |Flat(ts)|
    ensures Flat(ts)[Base(hs, i) + j] == ts[i][j]
  {
    FlatPiece(ts, i);
    BaseIsOffset(hs, ts, i);
    var b := Base(hs, i);
    assert Flat(ts)[b..b + |ts[i]|][j] == Flat(ts)[b + j];
  }

  /** The joined tables have Base(hs, |hs|) slots. */
  lemma {:induction false} AllSlots(hs: seq<seq<Rec>>, ts: seq<Slots>, i: nat)
    requires |ts| == |hs| && forall i :: 0 <= i < |hs| ==> |ts[i]| == TableLen(hs[i])
    requires i < |hs|
    ensures T0 + 16 * (Base(hs, i) + TableLen(hs[i])) <= T0 + 16 * |Flat(ts)|
  {
    BaseGrows(hs, i, |hs|);
    BaseIsOffset(hs, ts, |hs|);
    assert ts[..|hs|] == ts;
  }

  // ---------------------------------------------------------------------
  // The round trip

  /** What skunk_insert guarantees of the heads: every record has a
      nonempty key, carries the key's hash and sits in the head that hash
      selects. */
  ghost predicate WellFormed(hs: seq<seq<Rec>>)
  {
    |hs| == HASHSZ &&
    forall i, k :: 0 <= i < |hs| && 0 <= k < |hs[i]| ==>
      (|hs[i][k].key| > 0 && hs[i][k].hash == Hash(hs[i][k].key) && HeadOf(hs[i][k].key) == i)
  }

  /** Records with equal keys carry equal values. */
  ghost predicate Functional(hs: seq<seq<Rec>>)
  {
    forall i, k, i', k' ::
      (0 <= i < |hs| && 0 <= k < |hs[i]| && 0 <= i' < |hs| && 0 <= k' < |hs[i']| &&
       hs[i][k].key == hs[i'][k'].key) ==> hs[i][k].val == hs[i'][k'].val
  }

  /** The file written for the heads `hs` with secondary tables `ts`: it
      holds the primary table and every bucket. */
  function ImageOf(hs: seq<seq<Rec>>, ts: seq<Slots>): (m: seq<byte>)
    requires |hs| == HASHSZ
    ensures T0 + 16 * |Flat(ts)| <= |m|
  {
    FlatLen(Entries(hs), 8);
    BucketsLen(Flat(ts), T0 + 16 * |Flat(ts)|);
    Layout(Flat(Entries(hs)), Flat(ts))
  }

  /** The primary table takes the first T0 bytes. */
  lemma {:induction false} TableLenT0(hs: seq<seq<Rec>>)
    requires |hs| == HASHSZ
    ensures |Flat(Entries(hs))| == T0
  {
    FlatLen(Entries(hs), 8);
  }

  /** Head i's primary entry, as read from the image. */
  lemma {:induction false} ImageEntry(hs: seq<seq<Rec>>, ts: seq<Slots>, i: nat)
    requires |ts| == |hs| && forall i :: 0 <= i < |hs| ==> |ts[i]| == TableLen(hs[i])
    requires |hs| == HASHSZ && |ImageOf(hs, ts)| < TWO32 && i < HASHSZ && |hs[i]| > 0
    ensures 8 * i + 8 <= |ImageOf(hs, ts)|
    ensures U32(ImageOf(hs, ts), 8 * i) == T0 + 16 * Base(hs, i)
    ensures U32(ImageOf(hs, ts), 8 * i + 4) == TableLen(hs[i]) == |ts[i]|
    ensures T0 + 16 * Base(hs, i) + 16 * |ts[i]| <= |ImageOf(hs, ts)|
  {
    TableLenT0(hs);
    AllSlots(hs, ts, i);
    var e := Entry(hs, i);
    assert e.ofs == T0 + 16 * Base(hs, i) < 0x1_0000_0000;
    assert e.len == TableLen(hs[i]) < 0x1_0000_0000;
    Small(e.ofs);
    Small(e.len);
    assert ImageOf(hs, ts) == Layout(Flat(Entries(hs)), Flat(ts));
    LayoutEntry(hs, Flat(ts), i);
  }

  /** Slot j of head i's table is bucket Base(hs, i) + j of the file, and
      that bucket holds what was written for the slot. */
  lemma {:induction false} InBucket(hs: seq<seq<Rec>>, ts: seq<Slots>, i: nat, j: nat)
    requires |ts| == |hs| && forall i :: 0 <= i < |hs| ==> |ts[i]| == TableLen(hs[i])
    requires |hs| == HASHSZ && i < HASHSZ && j < TableLen(hs[i])
    ensures Base(hs, i) + j < |Flat(ts)|
    ensures var m := ImageOf(hs, ts);
      var b := T0 + 16 * Base(hs, i) + 16 * j;
      var o := DataOfs(Flat(Entries(hs)), Flat(ts), Base(hs, i) + j);
      BucketIn(m, b, ts[i][j], o)
  {
    var ss := Flat(ts);
    var tb := Flat(Entries(hs));
    var g := Base(hs, i) + j;
    SlotOfHead(hs, ts, i, j);
    TableLenT0(hs);
    var m := ImageOf(hs, ts);
    var o := DataOfs(tb, ss, g);
    LayoutBucket(m, tb, ss, g, T0 + 16 * Base(hs, i) + 16 * j, ts[i][j], o);
  }

  /** The record in slot j of head i's table has its key and value where
      its bucket points. */
  lemma {:induction false} InData(hs: seq<seq<Rec>>, ts: seq<Slots>, i: nat, j: nat, r: Rec)
    requires |ts| == |hs| && forall i :: 0 <= i < |hs| ==> |ts[i]| == TableLen(hs[i])
    requires |hs| == HASHSZ && i < HASHSZ && j < TableLen(hs[i]) && ts[i][j] == Some(r)
    ensures Base(hs, i) + j < |Flat(ts)|
    ensures var m := ImageOf(hs, ts);
      var o := DataOfs(Flat(Entries(hs)), Flat(ts), Base(hs, i) + j);
      DataIn(m, o, r)
  {
    var ss := Flat(ts);
    var tb := Flat(Entries(hs));
    var g := Base(hs, i) + j;
    SlotOfHead(hs, ts, i, j);
    LayoutData(ImageOf(hs, ts), tb, ss, g, r, DataOfs(tb, ss, g));
  }

  /** On any image: when a bucket of the key's table matches the key and
      every bucket that matches it holds `val`, skunk_select finds the key
      and gives back `val`. */
  lemma {:induction false} FoundValue(m: seq<byte>, key: seq<byte>, val: seq<byte>, j: nat)
    requires |m| >= T0 && |key| > 0
    requires var t := HeadOf(key);
      var tofs := U32(m, 8 * t);
      var tlen := U32(m, 8 * t + 4);
      0 < tofs && j < tlen && tofs + 16 * tlen <= |m| &&
      Matches(m, tofs, j, Hash(key), key) &&
      forall j' :: 0 <= j' < tlen && Matches(m, tofs, j', Hash(key), key) ==>
        ValueOf(m, FoundAt(m, tofs, j', key)) == val
    ensures Lookup(m, key).Found? && ValueOf(m, Lookup(m, key)) == val
  {
    LookupComplete(m, key, j);
  }

  /** A bucket holding record `r`, with the image small enough that no
      field is truncated, matches r's key and yields r's value. */
  lemma {:induction false} BucketYields(m: seq<byte>, b: nat, o: nat, r: Rec)
    requires BucketIn(m, b, Some(r), o) && DataIn(m, o, r) && |m| < TWO32 && r.hash < TWO32
    ensures U32(m, b) == r.hash && U32(m, b + 4) == o
    ensures U32(m, b + 8) == |r.key| && U32(m, b + 12) == |r.val|
  {
    BucketWords(m, b, Some(r), o);
    Small(r.hash);
    Small(o);
    Small(|r.key|);
    Small(|r.val|);
  }

  /** A bucket holding record `r` matches r's key and hash. */
  lemma {:induction false} BucketMatches(m: seq<byte>, tofs: nat, j: nat, o: nat, r: Rec)
    requires BucketIn(m, tofs + 16 * j, Some(r), o)
    requires DataIn(m, o, r)
    requires |m| < TWO32
    requires r.hash == Hash(r.key) && r.hash < TWO32
    ensures Matches(m, tofs, j, Hash(r.key), r.key)
  {
    var b := tofs + 16 * j;
    BucketYields(m, b, o, r);
    assert U32(m, b + 4) == o && m[o..o + |r.key|] == r.key;
  }

  /** Bucket j of a table, read at `tofs`, matches key `key` only when it
      holds a record with that key; it then gives back that record's value. */
  lemma {:induction false} MatchYields(m: seq<byte>, tofs: nat, j: nat, key: seq<byte>, o: nat, slot: Option<Rec>)
    requires BucketIn(m, tofs + 16 * j, slot, o) && |m| < TWO32 && |key| > 0
    requires slot.Some? ==> DataIn(m, o, slot.value) && slot.value.hash < TWO32
    requires Matches(m, tofs, j, Hash(key), key)
    ensures slot.Some? && slot.value.key == key
    ensures ValueOf(m, FoundAt(m, tofs, j, key)) == slot.value.val
  {
    MatchOccupied(m, tofs, j, key, o, slot);
    var r := slot.value;
    BucketYields(m, tofs + 16 * j, o, r);
    MatchedRecord(m, tofs, j, key, o, r);
  }

  /** A matching bucket whose words point at record `r` has r's key, and
      the answer it gives reads r's value. */
  lemma {:induction false} MatchedRecord(m: seq<byte>, tofs: nat, j: nat, key: seq<byte>, o: nat, r: Rec)
    requires tofs + 16 * j + 16 <= |m| && DataIn(m, o, r)
    requires U32(m, tofs + 16 * j + 4) == o && U32(m, tofs + 16 * j + 8) == |r.key|
    requires U32(m, tofs + 16 * j + 12) == |r.val|
    requires Matches(m, tofs, j, Hash(key), key)
    ensures r.key == key && ValueOf(m, FoundAt(m, tofs, j, key)) == r.val
  {
    var b := tofs + 16 * j;
    SameSlice(m, U32(m, b + 4), o, |key|, |r.key|);
    SameSlice(m, U32(m, b + 4) + |key|, o + |r.key|, U32(m, b + 12), |r.val|);
  }

  /** Slices with equal bounds are equal. */
  lemma {:induction false} SameSlice(m: seq<byte>, x: nat, y: nat, n: nat, n': nat)
    requires x == y && n == n' && x + n <= |m|
    ensures m[x..x + n] == m[y..y + n']
  {
  }

  /** An empty bucket (key length 0) matches no nonempty key. */
  lemma {:induction false} MatchOccupied(m: seq<byte>, tofs: nat, j: nat, key: seq<byte>, o: nat, slot: Option<Rec>)
    requires BucketIn(m, tofs + 16 * j, slot, o) && |key| > 0
    requires Matches(m, tofs, j, Hash(key), key)
    ensures slot.Some?
  {
    if slot.None? {
      BucketWords(m, tofs + 16 * j, slot, o);
      assert false;
    }
  }

  /** The secondary table at `tofs` holds the buckets written for `slots`,
      bucket j pointing at os[j], and each occupied slot's record lies
      where its bucket points. */
  ghost predicate TableIn(m: seq<byte>, tofs: nat, slots: Slots, os: seq<nat>)
  {
    |os| == |slots| &&
    forall j :: 0 <= j < |slots| ==>
      BucketIn(m, tofs + 16 * j, slots[j], os[j]) &&
      (slots[j].Some? ==> DataIn(m, os[j], slots[j].value) && slots[j].value.hash < TWO32)
  }

  /** On any image whose primary entry for r's key names a table laid out
      as TableIn says, holding r, and whose records with r's key all carry
      r's value: skunk_select finds r's key and gives back r's value. */
  lemma {:induction false} TableLookup(m: seq<byte>, t: nat, tofs: nat, slots: Slots, os: seq<nat>, r: Rec, j: nat)
    requires |m| >= T0 && |m| < TWO32 && |r.key| > 0 && r.hash == Hash(r.key) && HeadOf(r.key) == t
    requires U32(m, 8 * t) == tofs && U32(m, 8 * t + 4) == |slots|
    requires 0 < tofs && tofs + 16 * |slots| <= |m| && TableIn(m, tofs, slots, os)
    requires j < |slots| && slots[j] == Some(r)
    requires forall j' :: 0 <= j' < |slots| && slots[j'].Some? && slots[j'].value.key == r.key ==>
      slots[j'].value.val == r.val
    ensures Lookup(m, r.key).Found? && ValueOf(m, Lookup(m, r.key)) == r.val
  {
    BucketMatches(m, tofs, j, os[j], r);
    forall j' | 0 <= j' < |slots| && Matches(m, tofs, j', Hash(r.key), r.key)
      ensures ValueOf(m, FoundAt(m, tofs, j', r.key)) == r.val
    {
      MatchYields(m, tofs, j', r.key, os[j'], slots[j']);
    }
    FoundValue(m, r.key, r.val, j);
  }

  /** Head i's table, as written into the image, is laid out as TableIn says. */
  lemma {:induction false} HeadTable(hs: seq<seq<Rec>>, ts: seq<Slots>, i: nat) returns (os: seq<nat>)
    requires WellFormed(hs) && Placed(hs, ts) && i < |hs|
    ensures TableIn(ImageOf(hs, ts), T0 + 16 * Base(hs, i), ts[i], os)
  {
    var tb := Flat(Entries(hs));
    var ss := Flat(ts);
    AllSlots(hs, ts, i);
    os := Offsets(tb, ss, Base(hs, i), |ts[i]|);
    forall j | 0 <= j < |ts[i]|
      ensures BucketIn(ImageOf(hs, ts), T0 + 16 * Base(hs, i) + 16 * j, ts[i][j], os[j])
      ensures ts[i][j].Some? ==> DataIn(ImageOf(hs, ts), os[j], ts[i][j].value) && ts[i][j].value.hash < TWO32
    {
      InBucket(hs, ts, i, j);
      SlotHash(hs, ts, i, j);
      if ts[i][j].Some? {
        InData(hs, ts, i, j, ts[i][j].value);
      }
    }
  }

  /** The slot of head i's table that holds hs[i][k], and agreement of
      every slot with hs[i][k]'s key on its value. */
  lemma {:induction false} OwnSlot(hs: seq<seq<Rec>>, ts: seq<Slots>, i: nat, k: nat) returns (j: nat)
    requires Functional(hs) && Placed(hs, ts) && i < |hs| && k < |hs[i]|
    ensures j < |ts[i]| && ts[i][j] == Some(hs[i][k])
    ensures forall j' :: 0 <= j' < |ts[i]| && ts[i][j'].Some? && ts[i][j'].value.key == hs[i][k].key ==>
      ts[i][j'].value.val == hs[i][k].val
  {
    j :| 0 <= j < |ts[i]| && ts[i][j] == Some(hs[i][k]);
    forall j' | 0 <= j' < |ts[i]| && ts[i][j'].Some? && ts[i][j'].value.key == hs[i][k].key
      ensures ts[i][j'].value.val == hs[i][k].val
    {
      SameValue(hs, ts, i, j', k);
    }
  }

  /** Every record inserted is found, with its own value, in the file
      written with any tables that place the records of each head. */
  lemma {:induction false} RoundTripOf(hs: seq<seq<Rec>>, ts: seq<Slots>, i: nat, k: nat)
    requires WellFormed(hs) && Functional(hs) && Placed(hs, ts) && |ImageOf(hs, ts)| < TWO32
    requires i < |hs| && k < |hs[i]|
    ensures Lookup(ImageOf(hs, ts), hs[i][k].key).Found?
    ensures ValueOf(ImageOf(hs, ts), Lookup(ImageOf(hs, ts), hs[i][k].key)) == hs[i][k].val
  {
    var r := hs[i][k];
    assert |r.key| > 0 && r.hash == Hash(r.key) && HeadOf(r.key) == i;
    ImageEntry(hs, ts, i);
    var os := HeadTable(hs, ts, i);
    var j := OwnSlot(hs, ts, i, k);
    TableLookup(ImageOf(hs, ts), i, T0 + 16 * Base(hs, i), ts[i], os, r, j);
  }

  /** An occupied slot of head i holds a record of head i, whose hash fits
      in 32 bits. */
  lemma {:induction false} SlotHash(hs: seq<seq<Rec>>, ts: seq<Slots>, i: nat, j: nat)
    requires WellFormed(hs) && Placed(hs, ts) && i < |hs| && j < |ts[i]|
    ensures ts[i][j].Some? ==> ts[i][j].value in hs[i] && ts[i][j].value.hash < TWO32
  {
    if ts[i][j].Some? {
      var k :| 0 <= k < |hs[i]| && hs[i][k] == ts[i][j].value;
    }
  }

  /** A slot of head i holding a record with the key of hs[i][k] holds its value. */
  lemma {:induction false} SameValue(hs: seq<seq<Rec>>, ts: seq<Slots>, i: nat, j: nat, k: nat)
    requires Functional(hs) && Placed(hs, ts) && i < |hs| && j < |ts[i]| && k < |hs[i]|
    requires ts[i][j].Some? && ts[i][j].value.key == hs[i][k].key
    ensures ts[i][j].value.val == hs[i][k].val
  {
    var k' :| 0 <= k' < |hs[i]| && hs[i][k'] == ts[i][j].value;
  }

  /** Every record inserted is found, with its own value, in the file
      skunk_commit writes. */
  lemma {:induction false} RoundTrip(hs: seq<seq<Rec>>, i: nat, k: nat)
    requires WellFormed(hs) && Functional(hs) && |Image(hs)| < TWO32
    requires i < |hs| && k < |hs[i]|
    ensures Lookup(Image(hs), hs[i][k].key).Found?
    ensures ValueOf(Image(hs), Lookup(Image(hs), hs[i][k].key)) == hs[i][k].val
  {
    TabsPlaced(hs);
    assert Image(hs) == ImageOf(hs, Tabs(hs));
    RoundTripOf(hs, Tabs(hs), i, k);
  }
}
