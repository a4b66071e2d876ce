/** The O_DIRECT kernel-AIO strategy of io_dasync.c: the webroot file
    is read in CHUNK_SIZE chunks into a locked cache, and a connection is
    sent its data straight out of a window on a cache chunk.

    Each chunk descriptor is free (on the freelist), pending (taken for a
    read in flight, reference count 0) or allocated (count above 0). A
    chunk is on the LRU list exactly when its count is 1: only the cache
    itself holds it, and the reaper may take it back. The intrusive lists
    are sequences of descriptor indices. */
module IoDasync {
  import opened Bytes
  import opened Nbio
  import opened IoConn

  const PAGE_SIZE: nat := 4096
  /** CHUNK_SHIFT is PAGE_SHIFT + EXTRA_SHIFT = 13. */
  const CHUNK_SIZE: nat := 8192

  /** chunk_num: the chunk holding file offset off (off >> CHUNK_SHIFT). */
  function ChunkNum(off: nat): (c: nat)
    ensures c * 8192 <= off < c * 8192 + 8192
  {
    off / 8192
  }

  /** cache2ptr: offset of chunk idx's slot from cache_base (idx << CHUNK_SHIFT). */
  function Cache2Ptr(idx: nat): nat
  {
    idx * 8192
  }

  /** ptr2cache: the chunk whose slot holds offset p from cache_base. */
  function Ptr2Cache(p: nat): nat
  {
    p / 8192
  }

  /** cache2ptr and ptr2cache are inverse: every byte of chunk idx's slot
      maps back to idx. */
  lemma ChunkRoundTrip(idx: nat, k: nat)
    requires k < CHUNK_SIZE
    ensures Ptr2Cache(Cache2Ptr(idx) + k) == idx
  {
    assert (idx * 8192 + k) / 8192 == idx;
  }

  /** The bytes init_cache maps: the whole file, or as many whole pages
      as may be locked when that is less than the file's page count. */
  function MappedSize(size: nat, lockLimit: nat): (sz: nat)
    ensures sz <= size
  {
    var pages := (size + 4095) / 4096;
    var lockPages := lockLimit / 4096;
    if lockPages < pages then
      assert lockPages * 4096 < size by {
        assert lockPages + 1 <= pages;
        assert pages * 4096 <= size + 4095;
      }
      lockPages * 4096
    else size
  }

  /** cache_nr_chunks: the number of chunks the mapping needs. */
  function NrChunks(sz: nat): nat
  {
    (sz + 8191) / 8192
  }

  /** The chunks cover the mapping and none lies wholly beyond it
      (cache_nr_chunks is sz / CHUNK_SIZE rounded up). */
  lemma NrChunksCovers(sz: nat)
    ensures sz <= NrChunks(sz) * 8192
    ensures NrChunks(sz) > 0 ==> (NrChunks(sz) - 1) * 8192 < sz
  {
  }

  /** 0, 1, ..., n-1, the order init_cache queues descriptors in. */
  function Upto(n: nat): (s: seq<nat>)
    ensures |s| == n && forall i :: 0 <= i < n ==> s[i] == i
  {
    if n == 0 then [] else Upto(n - 1) + [n - 1]
  }

  /** The list read backwards. */
  function Rev(s: seq<nat>): (r: seq<nat>)
    ensures |r| == |s| && forall x :: x in r <==> x in s
  {
    if s == [] then [] else [s[|s| - 1]] + Rev(s[..|s| - 1])
  }

  /** A read the kernel has accepted: the chunk it fills and the
      connection on its wait queue. cache_lookup always misses, so each
      wait queue holds exactly the connection that caused the read. */
  datatype DReq = DReq(chunk: nat, waiter: DConn, off: nat, len: nat)

  /** h_dat as this strategy sets it: a naked buffer over part of chunk
      `chunk`, with b_base, b_read and b_end at offsets lo, rd and hi
      from the chunk's slot. */
  datatype View = View(chunk: nat, lo: nat, rd: nat, hi: nat)

  /** The connection fields this strategy uses. */
  class DConn {
    const ep: nat
    var state: nat
    var view: Option<View>
    var dataOff: nat
    var dataLen: nat

    constructor(ep: nat, off: nat, len: nat)
      ensures this.ep == ep && state == HTTP_CONN_DATA && view.None? && dataOff == off && dataLen == len
    {
      this.ep := ep;
      state := HTTP_CONN_DATA;
      view := None;
      dataOff, dataLen := off, len;
    }
  }

  /** Taking back the element just appended to a list whose elements
      are distinct from it gives the list back. */
  lemma RemoveLast(l: seq<nat>, c: nat)
    requires c !in l
    ensures Remove(l + [c], c) == l
  {
    RemoveMiddle(l, c, []);
    assert l + [c] + [] == l + [c];
    assert l + [] == l;
  }

  /** Taking the head off a list of distinct descriptors leaves distinct
      descriptors, all from the list and none equal to the head. */
  lemma PopHead(l: seq<nat>)
    requires Distinct(l) && l != []
    ensures Distinct(l[1..]) && l[0] !in l[1..]
    ensures forall x :: x in l[1..] ==> x in l
  {
    forall j | 1 <= j < |l| ensures l[j] != l[0] {
      assert l[0] != l[j];
    }
  }

  /** The descriptor cache_alloc hands out: the freelist's head, or when
      the freelist is empty the LRU's tail, which lru_reaper frees last
      and so puts at the head of the freelist. */
  function Taken(freelist: seq<nat>, lru: seq<nat>): nat
    requires freelist != [] || lru != []
  {
    if freelist != [] then freelist[0] else lru[|lru| - 1]
  }

  /** The read diocb_prep sets up for connection h on descriptor c with
      key (chunk number) key: CHUNK_SIZE bytes from the chunk's file
      offset, or what is left of the file when that is less. */
  function ReadFor(c: nat, h: DConn, key: nat, offEnd: nat): DReq
    requires Cache2Ptr(key) <= offEnd
  {
    DReq(c, h, Cache2Ptr(key), Min(CHUNK_SIZE, offEnd - Cache2Ptr(key)))
  }

  /** The descriptor a resubmission takes once chunk c, at count cnt,
      has given back a reference: c itself when that freed it (it heads
      the freelist), or when the freelist was empty (it is the LRU's new
      tail, reaped last); otherwise the freelist's head. */
  function Resubmitted(c: nat, cnt: int, freelist: seq<nat>): nat
  {
    if cnt == 2 && freelist != [] then freelist[0] else c
  }

  /** The freelist lru_reaper leaves, less its head, is the rest of it. */
  lemma RevTail(l: seq<nat>)
    requires l != []
    ensures [Taken([], l)] + Rev(l)[1..] == Rev(l)
  {
  }

  class ChunkCache {
    /** c_ref and c_num of each descriptor in cache_chunks. */
    var ref: seq<int>
    var num: seq<nat>
    var freelist: seq<nat>
    var lru: seq<nat>
    /** off_end, the size of the webroot file. */
    var offEnd: nat
    var inFlight: nat
    ghost var reqs: seq<DReq>

    /** The lists hold distinct descriptors, a free descriptor has count
        0 and is not on the LRU, counts stay within 0..2 (see the
        left-out notes), in_flight counts the reads in flight and each
        read's chunk is pending. */
    ghost predicate Shape()
      reads this
    {
      |num| == |ref| &&
      (forall c :: c in freelist ==> c < |ref| && ref[c] == 0 && c !in lru) &&
      (forall c :: c in lru ==> c < |ref|) &&
      Distinct(freelist) && Distinct(lru) &&
      (forall c :: 0 <= c < |ref| ==> 0 <= ref[c] <= 2) &&
      inFlight == |reqs| &&
      (forall k :: 0 <= k < |reqs| ==>
         reqs[k].chunk < |ref| && ref[reqs[k].chunk] == 0 && reqs[k].chunk !in freelist &&
         reqs[k].chunk !in lru)
    }

    /** The LRU discipline: on the LRU exactly at count 1. */
    ghost predicate Valid()
      reads this
    {
      Shape() && forall c :: 0 <= c < |ref| ==> (c in lru <==> ref[c] == 1)
    }

    /** Chunk x's count has just moved by one and new_refcnt has not yet
        fixed its list: it is on the LRU exactly when its count was 1. */
    ghost predicate Transient(x: nat)
      reads this
    {
      Shape() && x < |ref| && (forall c :: 0 <= c < |ref| && c != x ==> (c in lru <==> ref[c] == 1)) &&
      (x in lru <==> ref[x] != 1)
    }

    /** init_cache after the file is mapped and locked: one descriptor per
        chunk of the mapping, all with count 0 and all on the freelist in
        index order. */
    constructor(size: nat, lockLimit: nat)
      ensures Valid() && offEnd == size && |ref| == NrChunks(MappedSize(size, lockLimit))
      ensures freelist == Upto(|ref|) && lru == [] && reqs == []
      ensures forall c :: 0 <= c < |ref| ==> ref[c] == 0
    {
      var n := NrChunks(MappedSize(size, lockLimit));
      ref := seq(n, _ => 0);
      num := seq(n, _ => 0);
      lru := [];
      offEnd := size;
      inFlight := 0;
      reqs := [];
      var fl: seq<nat> := [];
      var i := 0;
      while i < n
        invariant i <= n && fl == Upto(i)
      {
        fl := fl + [i];
        i := i + 1;
      }
      freelist := fl;
    }

    /** cache_free: a chunk with count 0 goes to the head of the freelist. */
    method Free(c: nat)
      requires Shape() && c < |ref| && ref[c] == 0 && c !in freelist && c !in lru
      requires forall k :: 0 <= k < |reqs| ==> reqs[k].chunk != c
      modifies this`freelist
      ensures Shape() && freelist == [c] + old(freelist)
    {
      freelist := [c] + freelist;
    }

    /** new_refcnt: put chunk x on the list its new count calls for —
        count 2 leaves the LRU, count 1 joins its tail, count 0 leaves it
        and goes to the freelist. */
    method NewRefcnt(x: nat)
      requires Transient(x)
      modifies this`lru, this`freelist
      ensures Valid()
      ensures lru == if ref[x] == 1 then old(lru) + [x] else Remove(old(lru), x)
      ensures freelist == if ref[x] == 0 then [x] + old(freelist) else old(freelist)
    {
      RemoveIn(lru, x);
      RemoveDistinct(lru, x);
      if ref[x] == 2 {
        lru := Remove(lru, x);
      } else if ref[x] == 1 {
        lru := lru + [x];
      } else if ref[x] == 0 {
        lru := Remove(lru, x);
        Free(x);
      }
    }

    /** cache_get: take a reference to a chunk that is not free. */
    method Get(x: nat)
      requires Valid() && x < |ref| && ref[x] < 2 && x !in freelist
      requires forall k :: 0 <= k < |reqs| ==> reqs[k].chunk != x
      modifies this`ref, this`lru, this`freelist
      ensures Valid() && ref == old(ref)[x := old(ref[x]) + 1] && freelist == old(freelist)
      ensures lru == if old(ref[x]) == 0 then old(lru) + [x] else Remove(old(lru), x)
    {
      ref := ref[x := ref[x] + 1];
      NewRefcnt(x);
    }

    /** cache_put: drop a reference; the last one frees the chunk. */
    method Put(x: nat)
      requires Valid() && x < |ref| && ref[x] > 0
      modifies this`ref, this`lru, this`freelist
      ensures Valid() && ref == old(ref)[x := old(ref[x]) - 1]
      ensures old(ref[x]) == 2 ==> lru == old(lru) + [x] && freelist == old(freelist)
      ensures old(ref[x]) == 1 ==> lru == Remove(old(lru), x) && freelist == [x] + old(freelist)
    {
      ref := ref[x := ref[x] - 1];
      NewRefcnt(x);
    }

    /** lru_reaper: drop the cache's own reference to every chunk on the
        LRU, in list order; each goes to the head of the freelist. Chunks
        held by a connection are not touched. */
    method LruReaper()
      requires Valid()
      modifies this`ref, this`lru, this`freelist
      ensures Valid() && lru == [] && freelist == Rev(old(lru)) + old(freelist)
      ensures |ref| == |old(ref)|
      ensures forall c :: 0 <= c < |ref| ==> ref[c] == if c in old(lru) then 0 else old(ref[c])
    {
      ghost var s := lru;
      ghost var f := freelist;
      ghost var r := ref;
      var i := 0;
      while lru != []
        invariant Valid() && i <= |s| && lru == s[i..] && freelist == Rev(s[..i]) + f
        invariant |ref| == |r|
        invariant forall c :: 0 <= c < |ref| ==> ref[c] == if c in s[..i] then 0 else r[c]
        decreases |lru|
      {
        var c := ReapHead();
        assert c == s[i];
        assert s[..i + 1] == s[..i] + [c];
        assert s[..i + 1][..i] == s[..i];
        i := i + 1;
      }
      assert s[..i] == s;
    }

    /** One pass of lru_reaper's loop: the LRU's head, held only by the
        cache, loses that reference and moves to the head of the freelist. */
    method ReapHead() returns (c: nat)
      requires Valid() && lru != []
      modifies this`ref, this`lru, this`freelist
      ensures Valid() && c == old(lru)[0] && lru == old(lru)[1..] && freelist == [c] + old(freelist)
      ensures c < |old(ref)| && ref == old(ref)[c := 0]
    {
      c := lru[0];
      assert c in lru;
      PopHead(lru);
      assert lru == [] + [c] + lru[1..];
      RemoveMiddle([], c, lru[1..]);
      Put(c);
    }

    /** cache_alloc: a descriptor from the head of the freelist, reaping
        the LRU first when the freelist is empty; None when both are
        empty. The descriptor gets the key and count 0, and is on no
        list. */
    method Alloc(key: nat) returns (r: Option<nat>)
      requires Valid()
      modifies this`ref, this`num, this`lru, this`freelist
      ensures Valid() && reqs == old(reqs) && |ref| == |old(ref)| && |num| == |old(num)|
      ensures r.None? <==> old(freelist) == [] && old(lru) == []
      ensures r.None? ==> ref == old(ref) && num == old(num) && lru == old(lru) && freelist == old(freelist)
      ensures old(freelist) != [] ==>
                r == Some(old(freelist)[0]) && freelist == old(freelist)[1..] && lru == old(lru) &&
                ref == old(ref)
      ensures old(freelist) == [] && old(lru) != [] ==>
                r == Some(old(lru)[|old(lru)| - 1]) && lru == [] && freelist == Rev(old(lru))[1..]
      ensures forall x :: 0 <= x < |ref| ==> ref[x] == if old(freelist) == [] && x in old(lru) then 0 else old(ref[x])
      ensures r.Some? ==> r.value < |ref| && ref[r.value] == 0 && num == old(num)[r.value := key] &&
                          r.value !in freelist && r.value !in lru
    {
      if freelist == [] {
        LruReaper();
        if freelist == [] {
          return None;
        }
      }
      var c := TakeHead(key);
      r := Some(c);
    }

    /** The descriptor at the head of the freelist leaves it and gets the
        key and count 0. */
    method TakeHead(key: nat) returns (c: nat)
      requires Valid() && freelist != []
      modifies this`ref, this`num, this`freelist
      ensures Valid() && c == old(freelist)[0] && freelist == old(freelist)[1..]
      ensures c < |ref| && ref == old(ref) && num == old(num)[c := key] && c !in freelist && c !in lru
    {
      c := freelist[0];
      assert c in freelist;
      PopHead(freelist);
      freelist := freelist[1..];
      num := num[c := key];
      ref := ref[c := 0];
    }

    /** diocb_prep: the read for chunk c covers the chunk's part of the
        file, at most CHUNK_SIZE bytes from c_num << CHUNK_SHIFT, into the
        chunk's own slot. */
    method DiocbPrep(c: nat) returns (base: nat, off: nat, sz: nat)
      requires Shape() && c < |ref| && Cache2Ptr(num[c]) <= offEnd
      ensures base == Cache2Ptr(c) && off == Cache2Ptr(num[c])
      ensures sz == Min(CHUNK_SIZE, offEnd - off) && sz <= CHUNK_SIZE
    {
      off := num[c] * 8192;
      base := c * 8192;
      sz := if off + 8192 > offEnd then offEnd - off else 8192;
    }

    /** aio_submit: take a descriptor (Taken) for the chunk holding
        data_off, queue h on it and submit its read. 0 when no descriptor
        is left, and nothing changes; when no iocb is left (iocbOk) the
        descriptor goes back to the head of the freelist; when io_submit
        fails (submitOk) the descriptor stays taken, pending with count 0.
        Reaping, when the freelist was empty, frees every LRU chunk. */
    method Submit(h: DConn, iocbOk: bool, submitOk: bool) returns (ok: bool)
      requires Valid() && h.dataLen > 0 && h.dataOff + h.dataLen <= offEnd
      modifies this`ref, this`num, this`lru, this`freelist, this`inFlight, this`reqs
      ensures Valid() && offEnd == old(offEnd) && |ref| == |old(ref)|
      ensures ok <==> (old(freelist) != [] || old(lru) != []) && iocbOk && submitOk
      ensures !ok ==> inFlight == old(inFlight) && reqs == old(reqs)
      ensures old(freelist) == [] && old(lru) == [] ==>
                ref == old(ref) && num == old(num) && lru == old(lru) && freelist == old(freelist)
      ensures forall x :: 0 <= x < |ref| ==> ref[x] == if old(freelist) == [] && x in old(lru) then 0 else old(ref[x])
      ensures old(freelist) != [] || old(lru) != [] ==>
                var c := Taken(old(freelist), old(lru));
                c < |ref| && num == old(num)[c := ChunkNum(h.dataOff)] &&
                lru == (if old(freelist) != [] then old(lru) else []) &&
                (!iocbOk ==> freelist == if old(freelist) != [] then old(freelist) else Rev(old(lru))) &&
                (iocbOk ==> c !in freelist &&
                            freelist == if old(freelist) != [] then old(freelist)[1..] else Rev(old(lru))[1..]) &&
                (ok ==> inFlight == old(inFlight) + 1 &&
                        reqs == old(reqs) + [ReadFor(c, h, ChunkNum(h.dataOff), offEnd)])
    {
      var c := Alloc(ChunkNum(h.dataOff));
      if c.None? {
        return false;
      }
      if !iocbOk {
        Free(c.value);
        if old(freelist) != [] {
          assert freelist == [old(freelist)[0]] + old(freelist)[1..];
        } else {
          RevTail(old(lru));
        }
        return false;
      }
      assert Cache2Ptr(num[c.value]) <= h.dataOff < offEnd;
      var base, off, sz := DiocbPrep(c.value);
      if !submitOk {
        return false;
      }
      assert DReq(c.value, h, off, sz) == ReadFor(c.value, h, ChunkNum(h.dataOff), offEnd);
      reqs := reqs + [DReq(c.value, h, off, sz)];
      inFlight := inFlight + 1;
      ok := true;
    }

    /** handle_completion for the i-th read, on chunk c for connection h,
        on I/O thread t. A failed read leaves everything as it is (the
        chunk stays taken and h stays queued). A read that returned data
        takes the cache's own reference (the chunk joins the LRU); then h,
        if a naked buffer can be had (bufOk), gets a window from data_off
        to the end of its data or of the chunk, whichever comes first, a
        further reference and a wake-up for writing; otherwise nbio_del
        retires its endpoint. */
    method HandleCompletion(t: IoThread, c: nat, h: DConn, i: nat, ret: int, bufOk: bool)
      returns (woken: bool, killed: bool)
      requires Valid() && t.Valid() && h.ep in t.eps
      requires i < |reqs| && reqs[i].chunk == c && reqs[i].waiter == h
      requires ChunkNum(h.dataOff) == num[c]
      requires forall k :: 0 <= k < |reqs| && k != i ==> reqs[k].chunk != c
      modifies this`ref, this`lru, this`freelist, this`inFlight, this`reqs, h`view, t
      ensures Valid() && t.Valid() && reqs == old(reqs[..i] + reqs[i + 1..]) && inFlight == old(inFlight) - 1
      ensures num == old(num) && offEnd == old(offEnd)
      ensures ret <= 0 ==> !woken && !killed && ref == old(ref) && lru == old(lru) && h.view == old(h.view) && unchanged(t)
      ensures ret > 0 ==> woken == bufOk && killed == !bufOk
      ensures ret > 0 && !bufOk ==> ref == old(ref)[c := 1] && lru == old(lru) + [c] && h.view == old(h.view)
      ensures ret > 0 && !bufOk ==> t.eps == old(t.eps)[h.ep := Ep(DELETED, 0)] && t.ListOf(h.ep) == Some(DeletedList) &&
                                    forall m :: m != h.ep ==> t.ListOf(m) == old(t.ListOf(m))
      ensures ret > 0 && bufOk ==> ref == old(ref)[c := 2] && lru == old(lru) && unchanged(t)
      ensures ret > 0 && bufOk ==>
                var lo := h.dataOff - Cache2Ptr(num[c]);
                h.view == Some(View(c, lo, lo, lo + Min(h.dataLen, CHUNK_SIZE - lo))) &&
                lo + Min(h.dataLen, CHUNK_SIZE - lo) <= CHUNK_SIZE
      ensures freelist == old(freelist)
      ensures Touched(h.ep, old(t.State()), t.State())
    {
      reqs := reqs[..i] + reqs[i + 1..];
      inFlight := inFlight - 1;
      assert forall k :: 0 <= k < |reqs| ==> reqs[k].chunk != c;
      if ret <= 0 {
        return false, false;
      }
      woken, killed := Filled(t, c, h, bufOk);
    }

    /** handle_completion once chunk c's read returned data: the cache
        takes its own reference, then h gets its window and a reference of
        its own, or, when no buffer can be had, nbio_del retires h's
        endpoint on t. */
    method Filled(t: IoThread, c: nat, h: DConn, bufOk: bool) returns (woken: bool, killed: bool)
      requires Valid() && t.Valid() && h.ep in t.eps
      requires c < |ref| && ref[c] == 0 && c !in freelist && ChunkNum(h.dataOff) == num[c]
      requires forall k :: 0 <= k < |reqs| ==> reqs[k].chunk != c
      modifies this`ref, this`lru, this`freelist, h`view, t
      ensures Valid() && t.Valid() && woken == bufOk && killed == !bufOk && freelist == old(freelist)
      ensures !bufOk ==> ref == old(ref)[c := 1] && lru == old(lru) + [c] && h.view == old(h.view)
      ensures !bufOk ==> t.eps == old(t.eps)[h.ep := Ep(DELETED, 0)] && t.ListOf(h.ep) == Some(DeletedList) &&
                         forall m :: m != h.ep ==> t.ListOf(m) == old(t.ListOf(m))
      ensures bufOk ==> ref == old(ref)[c := 2] && lru == old(lru) && unchanged(t)
      ensures bufOk ==>
                var lo := h.dataOff - Cache2Ptr(num[c]);
                h.view == Some(View(c, lo, lo, lo + Min(h.dataLen, CHUNK_SIZE - lo))) &&
                lo + Min(h.dataLen, CHUNK_SIZE - lo) <= CHUNK_SIZE
      ensures Touched(h.ep, old(t.State()), t.State())
    {
      ghost var l0 := lru;
      Get(c);
      var cBase := num[c] * 8192;
      if !bufOk {
        t.Del(h.ep);
        return false, true;
      }
      var lo := h.dataOff - cBase;
      var sz := if lo + h.dataLen < 8192 then h.dataLen else 8192 - lo;
      h.view := Some(View(c, lo, lo, lo + sz));
      RemoveLast(l0, c);
      Get(c);
      return true, false;
    }

    /** io_dasync_write: send from h's window. EAGAIN parks the endpoint
        (1), failure or 0 gives 0. A count moves the window of the file
        and the buffer cursor; while the window has bytes the handler
        returns 1. A drained window gives its chunk reference back; then
        the next chunk's read is submitted if the file window has bytes
        left (its result is returned), or else the connection waits to
        read the next request in state HTTP_CONN_REQUEST. */
    method Write(t: IoThread, h: DConn, tx: SendRet, iocbOk: bool, submitOk: bool) returns (ok: bool)
      requires Valid() && t.Valid() && h.ep in t.eps
      requires h.view.Some? && h.view.value.chunk < |ref| && ref[h.view.value.chunk] > 0
      requires h.view.value.lo <= h.view.value.rd <= h.view.value.hi && h.view.value.lo < CHUNK_SIZE
      requires h.view.value.hi - h.view.value.rd <= h.dataLen && h.dataOff + h.dataLen <= offEnd
      requires tx.Sent? ==> tx.n <= h.view.value.hi - h.view.value.rd
      modifies this`ref, this`num, this`lru, this`freelist, this`inFlight, this`reqs, h, t
      ensures Valid() && t.Valid()
      ensures h.dataOff + h.dataLen == old(h.dataOff + h.dataLen)
      ensures tx.SendAgain? ==> ok && h.view == old(h.view) && h.dataOff == old(h.dataOff) &&
                                t.ListOf(h.ep) == Some(InactiveList) && t.eps == old(t.eps)
      ensures tx.SendFailed? || tx == Sent(0) ==> !ok && h.view == old(h.view) && h.dataOff == old(h.dataOff) &&
                                                   unchanged(t) && ref == old(ref)
      ensures tx.Sent? && tx.n > 0 ==> h.dataOff == old(h.dataOff) + tx.n
      ensures tx.Sent? && 0 < tx.n < old(h.view.value.hi - h.view.value.rd) ==>
                ok && h.view == Some(old(h.view.value).(rd := old(h.view.value.rd) + tx.n)) &&
                ref == old(ref) && unchanged(t)
      ensures tx.Sent? && 0 < tx.n == old(h.view.value.hi - h.view.value.rd) ==>
                h.view.None?
      ensures tx.Sent? && 0 < tx.n == old(h.view.value.hi - h.view.value.rd) && h.dataLen == 0 ==>
                ok && h.state == HTTP_CONN_REQUEST && reqs == old(reqs) &&
                ref == old(ref)[old(h.view.value.chunk) := old(ref[h.view.value.chunk]) - 1] &&
                h.ep in t.eps && t.GetWait(h.ep) == READ && t.ListOf(h.ep) == Some(ActiveList)
      ensures tx.Sent? && 0 < tx.n == old(h.view.value.hi - h.view.value.rd) && h.dataLen > 0 ==>
                unchanged(t) && h.state == old(h.state) && (ok <==> iocbOk && submitOk)
      ensures tx.Sent? && 0 < tx.n == old(h.view.value.hi - h.view.value.rd) && h.dataLen > 0 ==>
                Requeued(old(h.view.value.chunk), old(ref), old(freelist), old(lru)) &&
                (ok ==>
                   reqs == old(reqs) + [ReadFor(Resubmitted(old(h.view.value.chunk), old(ref[h.view.value.chunk]),
                                                            old(freelist)), h, ChunkNum(h.dataOff), offEnd)])
      ensures Touched(h.ep, old(t.State()), t.State())
    {
      var v := h.view.value;
      match tx
      case SendAgain =>
        t.Inactive(h.ep);
        return true;
      case SendFailed =>
        return false;
      case Sent(n) =>
        if n == 0 {
          return false;
        }
        h.dataOff := h.dataOff + n;
        h.dataLen := h.dataLen - n;
        h.view := Some(v.(rd := v.rd + n));
        if v.rd + n < v.hi {
          return true;
        }
        ok := Drained(t, h, iocbOk, submitOk);
    }

    /** The end of io_dasync_write once h's window is drained: the chunk
        is found again from the buffer's base (ptr2cache), its reference
        is given back and the buffer dropped; then either the next read is
        submitted or the connection waits for its next request. */
    method Drained(t: IoThread, h: DConn, iocbOk: bool, submitOk: bool) returns (ok: bool)
      requires Valid() && t.Valid() && h.ep in t.eps
      requires h.view.Some? && h.view.value.chunk < |ref| && ref[h.view.value.chunk] > 0
      requires h.view.value.lo < CHUNK_SIZE && h.dataOff + h.dataLen <= offEnd
      modifies this`ref, this`num, this`lru, this`freelist, this`inFlight, this`reqs, h`view, h`state, t
      ensures Valid() && t.Valid() && h.view.None?
      ensures h.dataLen == 0 ==>
                ok && h.state == HTTP_CONN_REQUEST && reqs == old(reqs) &&
                ref == old(ref)[old(h.view.value.chunk) := old(ref[h.view.value.chunk]) - 1] &&
                h.ep in t.eps && t.GetWait(h.ep) == READ && t.ListOf(h.ep) == Some(ActiveList)
      ensures h.dataLen > 0 ==>
                unchanged(t) && h.state == old(h.state) && (ok <==> iocbOk && submitOk)
      ensures h.dataLen > 0 ==>
                Requeued(old(h.view.value.chunk), old(ref), old(freelist), old(lru)) &&
                (ok ==>
                   reqs == old(reqs) + [ReadFor(Resubmitted(old(h.view.value.chunk), old(ref[h.view.value.chunk]),
                                                            old(freelist)), h, ChunkNum(h.dataOff), offEnd)])
      ensures Touched(h.ep, old(t.State()), t.State())
    {
      var v := h.view.value;
      var c := Ptr2Cache(Cache2Ptr(v.chunk) + v.lo);
      ChunkRoundTrip(v.chunk, v.lo);
      assert c == v.chunk;
      if h.dataLen > 0 {
        h.view := None;
        ok := Requeue(c, h, iocbOk, submitOk);
        return;
      }
      Put(c);
      h.view := None;
      t.SetWait(h.ep, READ);
      h.state := HTTP_CONN_REQUEST;
      return true;
    }

    /** The counts after chunk c, with counts ref0, freelist fl0 and LRU
        lru0 before, gave back a reference and the next read took a
        descriptor: c keeps one reference only when it had two and the
        freelist had a descriptor to give; when the freelist was empty and
        c had two, reaping dropped c and every LRU chunk to 0; every other
        count stays. */
    ghost predicate Requeued(c: nat, ref0: seq<int>, fl0: seq<nat>, lru0: seq<nat>)
      reads this
      requires c < |ref0|
    {
      |ref| == |ref0| &&
      ref[c] == (if ref0[c] == 2 && fl0 != [] then 1 else 0) &&
      forall x :: 0 <= x < |ref| && x != c ==> ref[x] == if ref0[c] == 2 && fl0 == [] && x in lru0 then 0 else ref0[x]
    }

    /** The resubmit path of io_dasync_write: chunk c's reference is given
        back (buf_put), then the read of the chunk holding data_off is
        submitted. A descriptor is always found, since c itself is then
        either free or on the LRU, so only the iocb and io_submit can
        fail. */
    method Requeue(c: nat, h: DConn, iocbOk: bool, submitOk: bool) returns (ok: bool)
      requires Valid() && c < |ref| && ref[c] > 0 && h.dataLen > 0 && h.dataOff + h.dataLen <= offEnd
      modifies this`ref, this`num, this`lru, this`freelist, this`inFlight, this`reqs
      ensures Valid() && (ok <==> iocbOk && submitOk)
      ensures Requeued(c, old(ref), old(freelist), old(lru))
      ensures ok ==> reqs == old(reqs) + [ReadFor(Resubmitted(c, old(ref[c]), old(freelist)), h, ChunkNum(h.dataOff), offEnd)]
    {
      Put(c);
      ok := Submit(h, iocbOk, submitOk);
    }

    /** io_dasync_prep: submit the read of the first chunk. */
    method Prep(h: DConn, iocbOk: bool, submitOk: bool) returns (ok: bool)
      requires Valid() && h.dataLen > 0 && h.dataOff + h.dataLen <= offEnd
      modifies this`ref, this`num, this`lru, this`freelist, this`inFlight, this`reqs
      ensures Valid()
      ensures ok <==> (old(freelist) != [] || old(lru) != []) && iocbOk && submitOk
      ensures ok ==> reqs == old(reqs) + [ReadFor(Taken(old(freelist), old(lru)), h, ChunkNum(h.dataOff), offEnd)]
      ensures ok ==> Taken(old(freelist), old(lru)) < |num| && num[Taken(old(freelist), old(lru))] == ChunkNum(h.dataOff)
    {
      ok := Submit(h, iocbOk, submitOk);
    }
  }

  /** io_dasync_abort: the naked buffer is released; the chunk reference
      it stood for is not given back. */
  method Abort(h: DConn)
    modifies h`view
    ensures h.view.None?
  {
    h.view := None;
  }
}
