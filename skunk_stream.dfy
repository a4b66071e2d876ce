/** The byte stream skunk_commit produces, taken apart the way its loops
    write it: the primary entries head by head, the buckets slot by slot
    and the key/value bytes record by record. Each lemma lets one loop
    step extend the stream by one piece of SkunkFormat.Image. */
module SkunkStream {
  import opened Bytes
  import opened Concat
  import opened SkunkFormat

  /** The key then the value of each record of `l`. */
  function Pieces(l: seq<Rec>): (ps: seq<seq<byte>>)
    ensures |ps| == |l| && forall k :: 0 <= k < |l| ==> ps[k] == l[k].key + l[k].val
  {
    seq(|l|, k requires 0 <= k < |l| => l[k].key + l[k].val)
  }

  /** What the data loop writes for the records of `l`, in list order. */
  function RecBytes(l: seq<Rec>): seq<byte>
  {
    Flat(Pieces(l))
  }

  lemma {:induction false} FlatAppend<T>(a: seq<seq<T>>, b: seq<seq<T>>)
    ensures Flat(a + b) == Flat(a) + Flat(b)
    decreases a
  {
    if a == [] {
      assert a + b == b;
    } else {
      assert (a + b)[1..] == a[1..] + b;
      FlatAppend(a[1..], b);
    }
  }

  /** A prefix of a concatenation splits at any earlier point. */
  lemma {:induction false} FlatPrefix<T>(ws: seq<seq<T>>, a: nat, b: nat)
    requires a <= b <= |ws|
    ensures Flat(ws[..b]) == Flat(ws[..a]) + Flat(ws[a..b])
  {
    assert ws[..b] == ws[..a] + ws[a..b];
    FlatAppend(ws[..a], ws[a..b]);
  }

  /** Writing the key and then the value of the next record. */
  lemma {:induction false} RecBytesSnoc(l: seq<Rec>, k: nat)
    requires k < |l|
    ensures RecBytes(l[..k + 1]) == RecBytes(l[..k]) + l[k].key + l[k].val
  {
    assert Pieces(l[..k + 1]) == Pieces(l)[..k + 1];
    assert Pieces(l[..k]) == Pieces(l)[..k];
    FlatSnoc(Pieces(l), k);
  }

  /** The key/value area of a run of slots holds the records of its
      occupied slots, in slot order, and nothing for an empty one. */
  lemma {:induction false} DataBytesCompact(s: Slots)
    ensures DataBytes(s) == RecBytes(Compact(s))
    decreases s
  {
    if |s| != 0 {
      DataBytesCompact(s[1..]);
      DataBytesCons(s);
      RecBytesCons(s);
    } else {
      assert Payloads(s) == [];
      assert Pieces(Compact(s)) == [];
    }
  }

  lemma FlatOne<T>(w: seq<T>)
    ensures Flat([w]) == w
  {
    assert Flat([w]) == w + Flat([]);
  }

  lemma DataBytesCons(s: Slots)
    requires |s| != 0
    ensures DataBytes(s) == Payload(s[0]) + DataBytes(s[1..])
  {
    assert Payloads(s) == [Payload(s[0])] + Payloads(s[1..]);
    FlatAppend([Payload(s[0])], Payloads(s[1..]));
    FlatOne(Payload(s[0]));
  }

  lemma RecBytesAppend(a: seq<Rec>, b: seq<Rec>)
    ensures RecBytes(a + b) == RecBytes(a) + RecBytes(b)
  {
    assert Pieces(a + b) == Pieces(a) + Pieces(b);
    FlatAppend(Pieces(a), Pieces(b));
  }

  lemma RecBytesHead(slot: Option<Rec>)
    ensures RecBytes(if slot.Some? then [slot.value] else []) == Payload(slot)
  {
    if slot.Some? {
      assert Pieces([slot.value]) == [Payload(slot)];
      FlatOne(Payload(slot));
    } else {
      assert Pieces([]) == [];
    }
  }

  lemma RecBytesCons(s: Slots)
    requires |s| != 0
    ensures RecBytes(Compact(s)) == Payload(s[0]) + RecBytes(Compact(s[1..]))
  {
    var c := if s[0].Some? then [s[0].value] else [];
    assert Compact(s) == c + Compact(s[1..]);
    RecBytesAppend(c, Compact(s[1..]));
    RecBytesHead(s[0]);
  }

  /** The key/value area of the slots of heads 0..i grows by that of head i. */
  lemma {:induction false} DataBytesSnoc(ts: seq<Slots>, i: nat)
    requires i < |ts|
    ensures DataBytes(Flat(ts[..i + 1])) == DataBytes(Flat(ts[..i])) + RecBytes(Compact(ts[i]))
  {
    FlatSnoc(ts, i);
    var a := Flat(ts[..i]);
    assert Payloads(a + ts[i]) == Payloads(a) + Payloads(ts[i]);
    FlatAppend(Payloads(a), Payloads(ts[i]));
    DataBytesCompact(ts[i]);
  }

  /** The data of slot g + 1 starts after that of slot g. */
  lemma {:induction false} OffSnoc(ss: Slots, g: nat)
    requires g < |ss|
    ensures Off(ss, g + 1) == Off(ss, g) + |Payload(ss[g])|
  {
    FlatSnoc(Payloads(ss), g);
  }

  /** Placing one more record at the end of the list fills the slot the
      probe finds for it in the table built so far. */
  lemma {:induction false} PlaceAllSnoc(s: Slots, l: seq<Rec>, r: Rec)
    requires Occupied(s) + |l| + 1 <= |s|
    ensures Occupied(PlaceAll(s, l)) < |PlaceAll(s, l)|
    ensures PlaceAll(s, l + [r]) == PlaceAll(s, l)[PlaceIndex(PlaceAll(s, l), r) := Some(r)]
    decreases l
  {
    if l == [] {
      assert l + [r] == [r];
      assert [r][1..] == [];
    } else {
      var j := PlaceIndex(s, l[0]);
      FillSlot(s, j, l[0]);
      assert (l + [r])[0] == l[0];
      assert (l + [r])[1..] == l[1..] + [r];
      PlaceAllSnoc(s[j := Some(l[0])], l[1..], r);
    }
  }

  // ---------------------------------------------------------------------
  // Buckets, slot by slot. The encoding of one bucket is a parameter of
  // these lemmas; skunk_commit's is SkunkFormat.EncBucket.

  /** How one bucket is encoded, given the data offset of its slot. */
  type Encoder = (Option<Rec>, nat) -> seq<byte>

  /** `bk` holds, for each slot of `ss`, its bucket under `enc` with the
      key/value area starting at d0, as SkunkFormat.Buckets does for
      EncBucket. */
  predicate BucketsBy(bk: seq<seq<byte>>, ss: Slots, d0: nat, enc: Encoder)
  {
    |bk| == |ss| && forall g {:trigger bk[g]} :: 0 <= g < |ss| ==> bk[g] == enc(ss[g], d0 + Off(ss, g))
  }

  lemma SameWord(enc: Encoder, slot: Option<Rec>, c: nat, c': nat)
    requires c == c'
    ensures enc(slot, c) == enc(slot, c')
  {
  }

  /** Writing the bucket of slot g, whose data starts at `cur`, extends
      the buckets written so far by one, and moves the data offset past
      the slot's key and value. */
  lemma {:induction false} BucketStep(bk: seq<seq<byte>>, ss: Slots, d0: nat, enc: Encoder, g: nat, cur: nat)
    requires BucketsBy(bk, ss, d0, enc) && g < |ss| && cur == d0 + Off(ss, g)
    ensures Flat(bk[..g + 1]) == Flat(bk[..g]) + enc(ss[g], cur)
    ensures Off(ss, g + 1) == Off(ss, g) + |Payload(ss[g])|
  {
    FlatSnoc(bk, g);
    OffSnoc(ss, g);
    SameWord(enc, ss[g], cur, d0 + Off(ss, g));
  }

  /** Slot j of a run that starts at slot g0 is slot g0 + j. */
  lemma RunElem(run: Slots, ss: Slots, g0: nat, j: nat, g: nat)
    requires g0 + |run| <= |ss| && run == ss[g0..g0 + |run|] && j < |run| && g == g0 + j
    ensures run[j] == ss[g]
  {
  }

  /** The slots of table i follow those of tables 0..i-1 in the
      concatenation of all tables. */
  lemma {:induction false} TableRun(ts: seq<Slots>, i: nat, g: nat, n: nat)
    requires i < |ts| && g == |Flat(ts[..i])| && n == |ts[i]|
    ensures |Flat(ts[..i + 1])| == g + n && g + n <= |Flat(ts)|
    ensures Flat(ts)[g..g + n] == ts[i]
  {
    FlatSnoc(ts, i);
    FlatPrefix(ts, i + 1, |ts|);
    assert ts[..|ts|] == ts;
  }

  /** The same end of a run, reached by two equal indices. */
  lemma SameEnd(bk: seq<seq<byte>>, ss: Slots, g: nat, g': nat)
    requires g == g' <= |bk| && g <= |ss|
    ensures Off(ss, g) == Off(ss, g') && Flat(bk[..g]) == Flat(bk[..g'])
  {
  }
}
