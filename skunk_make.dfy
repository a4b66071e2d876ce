/** The SkunkDB writer (skunk_make.c): records are inserted into one of
    SKUNK_HASHSZ heads, and skunk_commit writes the primary table, every
    head's secondary table of buckets and the key/value bytes through a
    Fobuf. Each head's list of records (a linked list through `next`,
    newest first) is a `seq<Rec>` here; the record arena (hgang) is not
    modelled, so a record's memory is its value. */
module SkunkMake {
  import opened Bytes
  import opened Concat
  import opened SkunkFormat
  import opened SkunkRoundTrip
  import opened SkunkStream
  import opened SkunkHeader
  import Fobuf

  /** Everything handed to the descriptor, then what is still buffered. */
  ghost function Stream(b: Fobuf.Fobuf): seq<byte>
    reads b, b.buf
    requires b.Valid()
  {
    b.Sent + b.Buffered()
  }

  class Maker {
    var fd: int
    /** head[i].list, newest record first. */
    var lists: array<seq<Rec>>
    /** head[i].count. */
    var counts: array<nat>

    /** Between inserts: one count per record of the head, and every
        record well formed and in the head its hash selects. */
    ghost predicate Valid()
      reads this, lists, counts
    {
      fd >= 0 && lists.Length == HASHSZ && counts.Length == HASHSZ &&
      (forall i :: 0 <= i < HASHSZ ==> counts[i] == |lists[i]|) &&
      WellFormed(lists[..])
    }

    ghost function Heads(): seq<seq<Rec>>
      reads this, lists
    {
      lists[..]
    }

    /** skunk_new_db once the allocations succeeded: every head empty. */
    constructor (fd: int)
      requires fd >= 0
      ensures Valid() && this.fd == fd && fresh(lists) && fresh(counts)
      ensures Heads() == seq(HASHSZ, _ => [])
    {
      this.fd := fd;
      lists := new seq<Rec>[2048](_ => []);
      counts := new nat[2048](_ => 0);
    }

    /** skunk_insert: a missing (NULL) key or value, or an empty key, is
        refused with 0, and so is an insert whose record allocation from the
        arena fails (allocOk false); otherwise the record, with its key's
        hash, goes to the front of head hash % SKUNK_HASHSZ, whose count
        grows by one. */
    method Insert(key: Option<seq<byte>>, val: Option<seq<byte>>, allocOk: bool) returns (ok: bool)
      requires Valid()
      modifies lists, counts
      ensures Valid()
      ensures ok <==> key.Some? && |key.value| > 0 && val.Some? && allocOk
      ensures !ok ==> Heads() == old(Heads())
      ensures ok ==> var t := HeadOf(key.value);
        Heads() == old(Heads())[t := [Rec(key.value, val.value, Hash(key.value))] + old(Heads())[t]]
    {
      if key.None? || |key.value| == 0 || val.None? {
        return false;
      }
      if !allocOk {
        return false;
      }
      var h := SkunkHash(key.value);
      var r := Rec(key.value, val.value, h);
      var t := h % 2048;
      ghost var hs := lists[..];
      lists[t] := [r] + lists[t];
      counts[t] := counts[t] + 1;
      InsertWellFormed(hs, t, r);
      return true;
    }

    /** skunk_resolve for head i into the slot table `table` (r2): clear the
        first count slots, put each record of the list, head first, in the
        first empty slot probing from (hash ^ key_len) % count, then rebuild
        the list from the occupied slots in ascending slot order. */
    method ResolveHead(i: nat, table: array<Option<Rec>>)
      requires lists.Length == HASHSZ && counts.Length == HASHSZ && i < HASHSZ
      requires |lists[i]| <= counts[i] <= table.Length
      modifies lists, table
      ensures table[..counts[i]] == Resolve(old(lists[i]), counts[i])
      ensures lists[..] == old(lists[..])[i := Compact(table[..counts[i]])]
    {
      var n := counts[i];
      PlaceList(table, n, lists[i]);
      var list := Rebuild(table, n);
      lists[i] := list;
    }

    /** The rest of skunk_commit once the table of `max` slots was
        allocated: the secondary tables of every head, bucket by bucket,
        then the data records; on success the whole image is in the stream. */
    method WriteTables(buf: Fobuf.Fobuf, max: nat, cur: nat, ghost hs: seq<seq<Rec>>) returns (wrote: bool)
      requires lists.Length == HASHSZ && counts.Length == HASHSZ && lists[..] == hs
      requires forall k :: 0 <= k < HASHSZ ==> counts[k] == TableLen(lists[k]) <= max
      requires cur == T0 + 16 * Base(hs, HASHSZ)
      requires buf.Valid() && Stream(buf) == Flat(Entries(hs))
      modifies lists, buf`ptr, buf`bufLen, buf`Sent, buf.buf
      ensures buf.fd == old(buf.fd)
      ensures buf.Valid()
      ensures wrote ==> Stream(buf) == Image(hs)
      ensures buf.dev.writeOk ==> wrote
      ensures wrote && !buf.dev.writeOk ==> buf.Sent == old(buf.Sent)
    {
      var table := new Option<Rec>[max](_ => None);
      ResolvedTabs(hs, lists[..], counts[..]);
      ghost var tb := Flat(Entries(hs));
      ghost var ss := Flat(Tabs(hs));
      ghost var bk := Buckets(ss, cur);
      assert BucketsBy(bk, ss, cur, EncBucket);
      wrote := WriteBuckets(buf, table, cur, EncBucket, Tabs(hs), bk);
      if wrote {
        wrote := WriteData(buf, Tabs(hs));
        if wrote {
          CommitImage(hs, cur, tb, ss);
        }
      }
    }

    /** The first loop of skunk_commit: for each head an 8-byte entry, (0, 0)
        for an empty head; otherwise its count is resized by skunk_size, the
        entry gives the current offset `cur` and the new count, and `cur`
        moves past that many buckets. A failed write returns at once. */
    method WritePrimary(buf: Fobuf.Fobuf) returns (ok: bool, max: nat, cur: nat)
      requires Valid() && buf.Valid() && Stream(buf) == []
      modifies counts, buf`ptr, buf`bufLen, buf`Sent, buf.buf
      ensures buf.fd == old(buf.fd)
      ensures buf.Valid() && Heads() == old(Heads())
      ensures ok ==> forall k :: 0 <= k < HASHSZ ==> counts[k] == TableLen(lists[k]) <= max
      ensures ok ==> cur == T0 + 16 * Base(lists[..], HASHSZ)
      ensures ok ==> Stream(buf) == Flat(Entries(lists[..]))
      ensures buf.dev.writeOk ==> ok
      ensures ok && !buf.dev.writeOk ==> buf.Sent == old(buf.Sent)
    {
      ghost var hs := lists[..];
      ghost var sent0 := buf.Sent;
      cur := 16384;
      max := 0;
      var i: nat := 0;
      while i != 2048
        invariant PrimaryInv(buf, hs, sent0, i, cur, max)
      {
        ok, cur, max := PrimaryNext(buf, hs, sent0, i, cur, max);
        if !ok {
          return;
        }
        i := i + 1;
      }
      assert Entries(hs)[..i] == Entries(hs);
      ok := true;
    }

    /** What the first loop of skunk_commit has done after i heads. */
    ghost predicate PrimaryInv(buf: Fobuf.Fobuf, hs: seq<seq<Rec>>, sent0: seq<byte>, i: nat, cur: nat, max: nat)
      reads this, counts, buf, buf.buf
    {
      i <= HASHSZ && buf.Valid() && (!buf.dev.writeOk ==> buf.Sent == sent0) &&
      CountsUpTo(counts[..], hs, i, max) && cur == T0 + 16 * Base(hs, i) &&
      Stream(buf) == Flat(Entries(hs)[..i])
    }

    /** PrimaryHead as one step of the first loop, from i heads to i + 1. */
    method PrimaryNext(buf: Fobuf.Fobuf, ghost hs: seq<seq<Rec>>, ghost sent0: seq<byte>, i: nat, cur0: nat, max0: nat)
      returns (ok: bool, cur: nat, max: nat)
      requires PrimaryInv(buf, hs, sent0, i, cur0, max0) && i < HASHSZ
      modifies counts, buf`ptr, buf`bufLen, buf`Sent, buf.buf
      ensures buf.fd == old(buf.fd) && buf.Valid()
      ensures buf.dev.writeOk ==> ok
      ensures ok ==> PrimaryInv(buf, hs, sent0, i + 1, cur, max)
    {
      PrimaryStep(hs, i);
      ghost var c0, s0 := counts[..], Stream(buf);
      ghost var e := if |hs[i]| == 0 then Table(0, 0) else Table(cur0, TableLen(hs[i]));
      assert c0[i] == |hs[i]|;
      ok, cur, max := PrimaryHead(buf, i, cur0, max0);
      if ok {
        assert counts[i] == TableLen(hs[i]) && cur == cur0 + 16 * TableLen(hs[i]);
        assert Stream(buf) == s0 + EncTable(e);
        assert e == if |hs[i]| == 0 then Table(0, 0) else Table(T0 + 16 * Base(hs, i), Size(|hs[i]|));
        assert Stream(buf) == Flat(Entries(hs)[..i + 1]);
        assert cur == T0 + 16 * Base(hs, i + 1);
        CountsStep(c0, hs, i, max0, max);
      }
    }

    /** One pass of the first loop of skunk_commit, for head i. */
    method PrimaryHead(buf: Fobuf.Fobuf, i: nat, cur0: nat, max0: nat) returns (ok: bool, cur: nat, max: nat)
      requires counts.Length == HASHSZ && i < HASHSZ && buf.Valid()
      modifies counts, buf`ptr, buf`bufLen, buf`Sent, buf.buf
      ensures buf.Valid()
      ensures counts[..] == old(counts[..])[i := counts[i]]
      ensures counts[i] == if old(counts[i]) == 0 then 0 else Size(old(counts[i]))
      ensures max == (if counts[i] > max0 then counts[i] else max0) && cur == cur0 + 16 * counts[i]
      ensures var e := if old(counts[i]) == 0 then Table(0, 0) else Table(cur0, counts[i]);
        ok ==> Stream(buf) == old(Stream(buf)) + EncTable(e)
      ensures buf.dev.writeOk ==> ok
      ensures ok && !buf.dev.writeOk ==> buf.Sent == old(buf.Sent)
    {
      cur, max := cur0, max0;
      if counts[i] == 0 {
        ok := buf.Write(EncTable(Table(0, 0)));
        return;
      }
      counts[i] := Size(counts[i]);
      if counts[i] > max {
        max := counts[i];
      }
      var t := Table(cur, counts[i]);
      cur := cur + 16 * counts[i];
      ok := buf.Write(EncTable(t));
    }

    /** The second loop of skunk_commit: each head is resolved into `table`,
        then each of its count slots is written as a bucket, an occupied one
        pointing at `cur`, which moves past its key and value. `bk` is the
        bucket of every slot of every table, under `enc`, for a key/value
        area that starts at cur0. */
    method WriteBuckets(buf: Fobuf.Fobuf, table: array<Option<Rec>>, cur0: nat, enc: Encoder,
                        ghost ts: seq<Slots>, ghost bk: seq<seq<byte>>)
      returns (ok: bool)
      requires lists.Length == HASHSZ && counts.Length == HASHSZ && |ts| == HASHSZ
      requires forall k :: 0 <= k < HASHSZ ==> counts[k] <= table.Length && |lists[k]| <= counts[k]
      requires forall k :: 0 <= k < HASHSZ ==> ts[k] == Resolve(lists[k], counts[k])
      requires BucketsBy(bk, Flat(ts), cur0, enc)
      requires buf.Valid()
      modifies lists, table, buf`ptr, buf`bufLen, buf`Sent, buf.buf
      ensures buf.fd == old(buf.fd)
      ensures buf.Valid()
      ensures ok ==> forall k :: 0 <= k < HASHSZ ==> lists[k] == Compact(ts[k])
      ensures ok ==> Stream(buf) == old(Stream(buf)) + Flat(bk)
      ensures buf.dev.writeOk ==> ok
      ensures ok && !buf.dev.writeOk ==> buf.Sent == old(buf.Sent)
    {
      ghost var s0 := Stream(buf);
      ghost var hs := lists[..];
      ghost var ss := Flat(ts);
      ghost var g: nat := 0;
      assert bk[..0] == [] && ts[..0] == [];
      ghost var sent0 := buf.Sent;
      var cur := cur0;
      var i: nat := 0;
      while i != 2048
        invariant i <= HASHSZ && buf.Valid()
        invariant !buf.dev.writeOk ==> buf.Sent == sent0
        invariant lists[..] == Resolved(ts, hs, i)
        invariant g == |Flat(ts[..i])| <= |ss|
        invariant cur == cur0 + Off(ss, g) && Stream(buf) == s0 + Flat(bk[..g])
      {
        ok, cur, g := HeadBuckets(buf, table, i, cur, enc, ts, bk, s0, cur0, g);
        if !ok {
          return;
        }
        ResolvedStep(ts, hs, i);
        i := i + 1;
      }
      assert ts[..i] == ts;
      assert lists[..] == Resolved(ts, hs, HASHSZ);
      SameEnd(bk, ss, g, |bk|);
      assert bk[..|bk|] == bk;
      ok := true;
    }

    /** One step of the second loop of skunk_commit: head i is resolved
        into `table` and its slots, which follow the g slots of the heads
        before it, are written as buckets. */
    method HeadBuckets(buf: Fobuf.Fobuf, table: array<Option<Rec>>, i: nat, cur0: nat, enc: Encoder,
                       ghost ts: seq<Slots>, ghost bk: seq<seq<byte>>, ghost s0: seq<byte>, ghost d0: nat, ghost g: nat)
      returns (ok: bool, cur: nat, ghost e: nat)
      requires lists.Length == HASHSZ && counts.Length == HASHSZ && |ts| == HASHSZ && i < HASHSZ
      requires counts[i] <= table.Length && |lists[i]| <= counts[i] && ts[i] == Resolve(lists[i], counts[i])
      requires BucketsBy(bk, Flat(ts), d0, enc)
      requires g == |Flat(ts[..i])| <= |Flat(ts)| && cur0 == d0 + Off(Flat(ts), g)
      requires buf.Valid() && Stream(buf) == s0 + Flat(bk[..g])
      modifies lists, table, buf`ptr, buf`bufLen, buf`Sent, buf.buf
      ensures buf.fd == old(buf.fd)
      ensures buf.Valid()
      ensures lists[..] == old(lists[..])[i := Compact(ts[i])]
      ensures e == |Flat(ts[..i + 1])| <= |Flat(ts)|
      ensures ok ==> cur == d0 + Off(Flat(ts), e) && Stream(buf) == s0 + Flat(bk[..e])
      ensures buf.dev.writeOk ==> ok
      ensures ok && !buf.dev.writeOk ==> buf.Sent == old(buf.Sent)
    {
      ResolveHead(i, table);
      var n := counts[i];
      ok, cur, e := WriteHead(buf, table[..n], i, cur0, enc, ts, bk, s0, d0, g);
    }

    /** The third loop of skunk_commit: every head's list, now in slot
        order, is written record by record, key then value. */
    method WriteData(buf: Fobuf.Fobuf, ghost ts: seq<Slots>) returns (ok: bool)
      requires lists.Length == HASHSZ && |ts| == HASHSZ
      requires forall k :: 0 <= k < HASHSZ ==> lists[k] == Compact(ts[k])
      requires buf.Valid()
      modifies buf`ptr, buf`bufLen, buf`Sent, buf.buf
      ensures buf.fd == old(buf.fd)
      ensures buf.Valid()
      ensures ok ==> Stream(buf) == old(Stream(buf)) + DataBytes(Flat(ts))
      ensures buf.dev.writeOk ==> ok
      ensures ok && !buf.dev.writeOk ==> buf.Sent == old(buf.Sent)
    {
      ghost var s0 := Stream(buf);
      assert DataBytes(Flat(ts[..0])) == [];
      ghost var sent0 := buf.Sent;
      var i: nat := 0;
      while i != 2048
        invariant i <= HASHSZ && buf.Valid()
        invariant !buf.dev.writeOk ==> buf.Sent == sent0
        invariant Stream(buf) == s0 + DataBytes(Flat(ts[..i]))
      {
        DataBytesSnoc(ts, i);
        ok := WriteRecords(buf, lists[i]);
        if !ok {
          return;
        }
        Assoc(s0, DataBytes(Flat(ts[..i])), RecBytes(Compact(ts[i])));
        i := i + 1;
      }
      assert ts[..i] == ts;
      ok := true;
    }

    /** skunk_commit with the status the writer evidently intends. The
        buffer's mallocs succeed exactly when bufOk, the calloc of the slot
        table exactly when tableOk, `dev` is how the descriptor answers
        writes, and fsync and close report through syncErr and closeRet.
        The commit succeeds exactly when all of them do, and then the file
        holds exactly the image of the inserted heads. The db object is
        consumed either way. */
    method Commit(dev: Fobuf.Device, bufOk: bool, tableOk: bool, syncErr: bool, closeRet: int)
      returns (ok: bool, ghost file: seq<byte>)
      requires Valid()
      modifies lists, counts
      ensures ok <==> bufOk && tableOk && dev.writeOk && !syncErr && closeRet == 0
      ensures ok ==> file == Image(old(Heads()))
    {
      ghost var hs := lists[..];
      var buf := Fobuf.New(fd, 32768, dev, bufOk);
      if buf == null {
        return false, [];
      }
      var max, cur;
      ok, max, cur := WritePrimary(buf);
      if !ok {
        return false, [];
      }
      var failed := false;
      if tableOk {
        var wrote := WriteTables(buf, max, cur, hs);
        failed := !wrote;
      } else {
        failed := true;
      }
      assert !failed ==> Stream(buf) == Image(hs);
      assert !failed && !dev.writeOk ==> buf.Sent == [] && buf.ptr == |Image(hs)| > 0;
      assert buf.fd == fd >= 0;
      var closed := buf.Close(syncErr, closeRet);
      ok := CommitStatus(failed, closed);
      file := buf.Sent;
    }
  }

  /** The heads while the second loop of skunk_commit runs: the first i
      already rebuilt in slot order, the others as inserted. */
  ghost function Resolved(ts: seq<Slots>, hs: seq<seq<Rec>>, i: nat): (r: seq<seq<Rec>>)
    requires |ts| == |hs| && i <= |hs|
    ensures |r| == |hs| && r[i..] == hs[i..]
    ensures forall k :: 0 <= k < i ==> r[k] == Compact(ts[k])
  {
    seq(|hs|, k requires 0 <= k < |hs| => if k < i then Compact(ts[k]) else hs[k])
  }

  lemma ResolvedStep(ts: seq<Slots>, hs: seq<seq<Rec>>, i: nat)
    requires |ts| == |hs| && i < |hs|
    ensures Resolved(ts, hs, i)[i := Compact(ts[i])] == Resolved(ts, hs, i + 1)
  {
  }

  /** Once every count is its head's table length, each secondary table
      is what resolving that head into count slots gives. */
  lemma {:induction false} ResolvedTabs(hs: seq<seq<Rec>>, ls: seq<seq<Rec>>, cs: seq<nat>)
    requires |hs| == |ls| == |cs| && hs == ls
    requires forall k :: 0 <= k < |cs| ==> cs[k] == TableLen(ls[k])
    ensures forall k :: 0 <= k < |hs| ==> |ls[k]| <= cs[k] && Tabs(hs)[k] == Resolve(ls[k], cs[k])
  {
  }

  /** The first two steps of skunk_resolve: clear n slots, then place the
      records of `l`, head first. */
  method PlaceList(table: array<Option<Rec>>, n: nat, l: seq<Rec>)
    requires |l| <= n <= table.Length
    modifies table
    ensures table[..n] == Resolve(l, n)
  {
    Clear(table, n);
    var x := 0;
    assert l[..x] == [];
    while x < |l|
      invariant x <= |l| && table[..n] == Resolve(l[..x], n)
    {
      PlaceNext(table, n, l, x);
      x := x + 1;
    }
    assert l[..x] == l;
  }

  /** One more record of the list placed. */
  method PlaceNext(table: array<Option<Rec>>, n: nat, l: seq<Rec>, x: nat)
    requires x < |l| <= n <= table.Length && table[..n] == Resolve(l[..x], n)
    modifies table
    ensures table[..n] == Resolve(l[..x + 1], n)
  {
    OccupiedEmpty(n);
    PlaceAllSnoc(Empty(n), l[..x], l[x]);
    TakeSnoc(l, x);
    Place(table, n, l[x]);
  }

  /** The slots of head i, resolved, written after the g slots of the
      heads before it: the stream gains their buckets. */
  method WriteHead(buf: Fobuf.Fobuf, slots: seq<Option<Rec>>, i: nat, cur0: nat, enc: Encoder,
                   ghost ts: seq<Slots>, ghost bk: seq<seq<byte>>, ghost s0: seq<byte>, ghost d0: nat, ghost g: nat)
    returns (ok: bool, cur: nat, ghost e: nat)
    requires i < |ts| && slots == ts[i]
    requires BucketsBy(bk, Flat(ts), d0, enc)
    requires g == |Flat(ts[..i])| <= |Flat(ts)| && cur0 == d0 + Off(Flat(ts), g)
    requires buf.Valid() && Stream(buf) == s0 + Flat(bk[..g])
    modifies buf`ptr, buf`bufLen, buf`Sent, buf.buf
    ensures buf.Valid()
    ensures e == |Flat(ts[..i + 1])| <= |Flat(ts)|
    ensures ok ==> cur == d0 + Off(Flat(ts), e) && Stream(buf) == s0 + Flat(bk[..e])
    ensures buf.dev.writeOk ==> ok
    ensures ok && !buf.dev.writeOk ==> buf.Sent == old(buf.Sent)
  {
    TableRun(ts, i, g, |slots|);
    e := g + |slots|;
    ok, cur := WriteSlots(buf, slots, cur0, enc, s0, bk, Flat(ts), d0, g, e);
  }

  /** The second loop of skunk_commit for one head: its slots (the first
      counts[i] entries of the resolved table), which are slots g0.. of
      all tables `ss`, become n buckets, an occupied slot
      pointing at `cur`, which then moves past the slot's key and value. */
  method WriteSlots(buf: Fobuf.Fobuf, slots: seq<Option<Rec>>, cur0: nat, enc: Encoder,
                    ghost s: seq<byte>, ghost bk: seq<seq<byte>>, ghost ss: Slots, ghost d0: nat, ghost g0: nat, ghost e: nat)
    returns (ok: bool, cur: nat)
    requires e == g0 + |slots| <= |ss| && slots == ss[g0..e]
    requires BucketsBy(bk, ss, d0, enc) && cur0 == d0 + Off(ss, g0)
    requires buf.Valid() && Stream(buf) == s + Flat(bk[..g0])
    modifies buf`ptr, buf`bufLen, buf`Sent, buf.buf
    ensures buf.Valid()
    ensures ok ==> cur == d0 + Off(ss, e) && Stream(buf) == s + Flat(bk[..e])
    ensures buf.dev.writeOk ==> ok
    ensures ok && !buf.dev.writeOk ==> buf.Sent == old(buf.Sent)
  {
    cur := cur0;
    var n := |slots|;
    var j: nat := 0;
    ghost var g := g0;
    ghost var sent0 := buf.Sent;
    while j != n
      invariant j <= n && g == g0 + j
      invariant SlotsInv(buf, s, bk, ss, d0, sent0, g, cur)
      decreases n - j
    {
      RunElem(slots, ss, g0, j, g);
      BucketStep(bk, ss, d0, enc, g, cur);
      ok, cur := SlotNext(buf, slots[j], cur, enc, s, bk, ss, d0, g, sent0);
      if !ok {
        return;
      }
      j := j + 1;
      g := g + 1;
    }
    SameEnd(bk, ss, g, e);
    ok := true;
  }

  /** What WriteSlots has written once the buckets of the slots before
      slot g of all tables are out, `cur` pointing past their records. */
  ghost predicate SlotsInv(buf: Fobuf.Fobuf, s: seq<byte>, bk: seq<seq<byte>>, ss: Slots, d0: nat,
                           sent0: seq<byte>, g: nat, cur: nat)
    reads buf, buf.buf
  {
    g <= |ss| && g <= |bk| && buf.Valid() && (!buf.dev.writeOk ==> buf.Sent == sent0) &&
    cur == d0 + Off(ss, g) && Stream(buf) == s + Flat(bk[..g])
  }

  /** One slot of WriteSlots: the bucket of slot g, which extends the
      buckets before it, is written, and `cur` moves past its record. */
  method SlotNext(buf: Fobuf.Fobuf, slot: Option<Rec>, cur0: nat, enc: Encoder,
                  ghost s: seq<byte>, ghost bk: seq<seq<byte>>, ghost ss: Slots, ghost d0: nat,
                  ghost g: nat, ghost sent0: seq<byte>)
    returns (ok: bool, cur: nat)
    requires g < |ss| && g < |bk| && slot == ss[g] && SlotsInv(buf, s, bk, ss, d0, sent0, g, cur0)
    requires Flat(bk[..g + 1]) == Flat(bk[..g]) + enc(ss[g], cur0)
    requires Off(ss, g + 1) == Off(ss, g) + |Payload(ss[g])|
    modifies buf`ptr, buf`bufLen, buf`Sent, buf.buf
    ensures buf.Valid()
    ensures buf.dev.writeOk ==> ok
    ensures ok ==> SlotsInv(buf, s, bk, ss, d0, sent0, g + 1, cur)
  {
    var b := enc(slot, cur0);
    cur := cur0;
    if slot.Some? {
      cur := cur + |slot.value.key| + |slot.value.val|;
    }
    ok := buf.Write(b);
    if ok {
      Assoc(s, Flat(bk[..g]), b);
    }
  }

  /** The inner loop of the third loop of skunk_commit: each record's key,
      then its value. */
  method WriteRecords(buf: Fobuf.Fobuf, l: seq<Rec>) returns (ok: bool)
    requires buf.Valid()
    modifies buf`ptr, buf`bufLen, buf`Sent, buf.buf
    ensures buf.Valid()
    ensures ok ==> Stream(buf) == old(Stream(buf)) + RecBytes(l)
    ensures buf.dev.writeOk ==> ok
    ensures ok && !buf.dev.writeOk ==> buf.Sent == old(buf.Sent)
  {
    ghost var s0 := Stream(buf);
    assert RecBytes(l[..0]) == [];
    ghost var sent0 := buf.Sent;
    var k: nat := 0;
    while k < |l|
      invariant k <= |l| && buf.Valid()
      invariant !buf.dev.writeOk ==> buf.Sent == sent0
      invariant Stream(buf) == s0 + RecBytes(l[..k])
    {
      RecBytesSnoc(l, k);
      ok := buf.Write(l[k].key);
      if !ok {
        return;
      }
      ok := buf.Write(l[k].val);
      if !ok {
        return;
      }
      Assoc(s0, RecBytes(l[..k]), l[k].key);
      Assoc(s0, RecBytes(l[..k]) + l[k].key, l[k].val);
      k := k + 1;
    }
    assert l[..k] == l;
    ok := true;
  }

  /** One more entry of the primary table, and the buckets it accounts
      for. */
  /** After i steps of the first loop of skunk_commit: the counts of the
      heads before i are their table lengths, at most max, and the rest are
      still their list lengths. */
  ghost predicate CountsUpTo(c: seq<nat>, hs: seq<seq<Rec>>, i: nat, max: nat)
  {
    |c| == |hs| == HASHSZ && i <= HASHSZ &&
    (forall k :: 0 <= k < i ==> c[k] == TableLen(hs[k]) <= max) &&
    (forall k :: i <= k < HASHSZ ==> c[k] == |hs[k]|)
  }

  /** One step of that loop resizes head i's count and raises max to it. */
  lemma CountsStep(c: seq<nat>, hs: seq<seq<Rec>>, i: nat, max0: nat, max: nat)
    requires CountsUpTo(c, hs, i, max0) && i < HASHSZ
    requires max == if TableLen(hs[i]) > max0 then TableLen(hs[i]) else max0
    ensures CountsUpTo(c[i := TableLen(hs[i])], hs, i + 1, max)
  {
  }

  lemma {:induction false} PrimaryStep(hs: seq<seq<Rec>>, i: nat)
    requires i < |hs|
    ensures Flat(Entries(hs)[..i + 1]) == Flat(Entries(hs)[..i]) +
      EncTable(if |hs[i]| == 0 then Table(0, 0) else Table(T0 + 16 * Base(hs, i), Size(|hs[i]|)))
    ensures Base(hs, i + 1) == Base(hs, i) + TableLen(hs[i])
    ensures TableLen(hs[i]) == if |hs[i]| == 0 then 0 else Size(|hs[i]|)
  {
    FlatSnoc(Entries(hs), i);
  }

  /** The file skunk_commit writes, phase by phase, is the image. */
  lemma {:induction false} CommitImage(hs: seq<seq<Rec>>, cur: nat, tb: seq<byte>, ss: Slots)
    requires |hs| == HASHSZ && cur == T0 + 16 * Base(hs, HASHSZ)
    requires tb == Flat(Entries(hs)) && ss == Flat(Tabs(hs))
    ensures Image(hs) == tb + Flat(Buckets(ss, cur)) + DataBytes(ss)
  {
    TableLenT0(hs);
    BaseIsOffset(hs, Tabs(hs), HASHSZ);
    assert Tabs(hs)[..HASHSZ] == Tabs(hs);
    LayoutAt(tb, ss, cur);
  }

  /** The layout with the bucket area placed right after the primary table
      and the data area right after the buckets. */
  lemma LayoutAt(tb: seq<byte>, ss: Slots, cur: nat)
    requires cur == |tb| + 16 * |ss|
    ensures Layout(tb, ss) == tb + Flat(Buckets(ss, cur)) + DataBytes(ss)
  {
    SameStart(ss, cur, |tb| + 16 * |ss|);
  }

  lemma SameStart(ss: Slots, c: nat, c': nat)
    requires c == c'
    ensures Buckets(ss, c) == Buckets(ss, c')
  {
  }

  /** The status skunk_commit evidently intends: success needs every write
      to have gone through and the close to succeed. */
  function CommitStatus(failed: bool, closed: bool): bool
  {
    closed && !failed
  }

  /** The status as the source computes it: a failed allocation of the slot
      table or a failed write in the second or third loop jumps to the
      close, whose success alone decides the result. */
  function CommitStatusAsWritten(failed: bool, closed: bool): bool
  {
    closed
  }

  /** When the slot table cannot be allocated the file holds the primary
      table only, which is not the image of a db with a record; the code as
      written still reports success once the close succeeds. */
  lemma {:induction false} CommitAsWrittenReportsTruncated(hs: seq<seq<Rec>>)
    requires |hs| == HASHSZ && |hs[0]| > 0
    ensures CommitStatusAsWritten(true, true) && !CommitStatus(true, true)
    ensures Flat(Entries(hs)) != Image(hs)
  {
    var ts := Tabs(hs);
    SlotOfHead(hs, ts, 0, 0);
    BucketsLen(Flat(ts), |Flat(Entries(hs))| + 16 * |Flat(ts)|);
    assert |Image(hs)| >= |Flat(Entries(hs))| + 16;
  }

  /** The memset of skunk_resolve: the first n slots become empty. */
  method Clear(table: array<Option<Rec>>, n: nat)
    requires n <= table.Length
    modifies table
    ensures table[..n] == Empty(n)
  {
    forall k | 0 <= k < n {
      table[k] := None;
    }
  }

  /** The probe loop of skunk_resolve for one record: step from the start
      slot to the next slot, wrapping, while the slot is taken, then take
      it. The slot taken is PlaceIndex's. */
  method Place(table: array<Option<Rec>>, n: nat, r: Rec)
    requires 0 < n <= table.Length && Occupied(table[..n]) < n
    modifies table
    ensures table[..n] == old(table[..n])[PlaceIndex(old(table[..n]), r) := Some(r)]
  {
    ghost var s := table[..n];
    var p: nat := Start(r.hash, |r.key|, n);
    ghost var st := p;
    FreeExists(s, st);
    ghost var d: nat := 0;
    while table[p].Some?
      invariant p < n && d < n && table[..n] == s
      invariant FreeFrom(s, p, n - d) == FreeFrom(s, st, n)
      decreases n - d
    {
      assert table[p] == s[p];
      assert FreeFrom(s, p, n - d) == FreeFrom(s, Next(p, n), n - d - 1);
      p := Next(p, n);
      d := d + 1;
    }
    assert table[p] == s[p];
    assert FreeFrom(s, p, n - d) == Some(p);
    assert p == PlaceIndex(s, r);
    table[p] := Some(r);
  }

  /** The second loop of skunk_resolve: from the last slot down to the
      first, each occupied slot's record is pushed on the front of the
      list, which ends up in ascending slot order. */
  method Rebuild(table: array<Option<Rec>>, n: nat) returns (list: seq<Rec>)
    requires n <= table.Length
    ensures list == Compact(table[..n])
  {
    list := [];
    var y: nat := n;
    while y > 0
      invariant y <= n && list == Compact(table[y..n])
    {
      y := y - 1;
      assert table[y..n][1..] == table[y + 1..n];
      if table[y].Some? {
        list := [table[y].value] + list;
      }
    }
    assert table[0..n] == table[..n];
  }

  /** Putting a well-formed record at the front of the head its hash
      selects keeps every head well formed. */
  lemma {:induction false} InsertWellFormed(hs: seq<seq<Rec>>, t: nat, r: Rec)
    requires WellFormed(hs) && |r.key| > 0 && r.hash == Hash(r.key) && t == r.hash % 2048
    ensures WellFormed(hs[t := [r] + hs[t]])
  {
    var hs': seq<seq<Rec>> := hs[t := [r] + hs[t]];
    forall i: int, k: int | 0 <= i < |hs'| && 0 <= k < |hs'[i]|
      ensures |hs'[i][k].key| > 0 && hs'[i][k].hash == Hash(hs'[i][k].key) && HeadOf(hs'[i][k].key) == i
    {
      if i == t && k > 0 {
        assert hs'[i][k] == hs[i][k - 1];
      }
    }
  }

  /** skunk_new_db: a negative descriptor is refused; the allocations of
      the db object and of the record arena succeed exactly when allocOk,
      and null is returned otherwise. */
  method NewDb(fd: int, allocOk: bool) returns (d: Maker?)
    ensures d != null <==> fd >= 0 && allocOk
    ensures d != null ==> fresh(d) && fresh(d.lists) && fresh(d.counts) && d.Valid() && d.fd == fd
    ensures d != null ==> d.Heads() == seq(HASHSZ, _ => [])
  {
    if fd < 0 || !allocOk {
      return null;
    }
    d := new Maker(fd);
  }
}
