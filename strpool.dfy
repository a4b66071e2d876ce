/** Slab bump allocator (strpool.c). Each slab is one malloc'd block that
    starts with its own header (struct strpool_slab) followed by the
    objects handed out from it. Slabs are kept in list order, head first;
    a slab is a value here and the tail's cursor update replaces the last
    element of the sequence. An allocation is named by the slab it lies in
    and its byte offset within that slab's block. */
module StrPool {
  import opened Bytes

  /** sizeof(struct strpool_slab) on an LP64 target: a size_t and two pointers. */
  const OVERHEAD: nat := 24
  const DEFAULT_SLAB: nat := 8192

  /** One slab: its block size, the offset of its free space and how many
      bytes remain free. */
  datatype Slab = Slab(size: nat, ptr: nat, len: nat)

  /** An object handed out: slab index, offset within that slab, length. */
  datatype Region = Region(slab: nat, off: nat, len: nat)

  predicate Disjoint(a: Region, b: Region)
  {
    a.slab != b.slab || a.off + a.len <= b.off || b.off + b.len <= a.off
  }

  /** strpool_new's choice of slab size. */
  function SlabSizeFor(requested: nat): (s: nat)
    ensures s >= OVERHEAD
    ensures requested == 0 ==> s == DEFAULT_SLAB
    ensures requested >= OVERHEAD ==> s == requested
    ensures 0 < requested < OVERHEAD ==> s == OVERHEAD
  {
    var s := if requested == 0 then DEFAULT_SLAB else requested;
    if s < OVERHEAD then OVERHEAD else s
  }

  class Pool {
    var slabSize: nat
    var slabs: seq<Slab>
    /** Every object handed out so far, in allocation order. */
    ghost var Allocated: seq<Region>

    ghost predicate Valid()
      reads this
    {
      slabSize >= OVERHEAD &&
      (forall i :: 0 <= i < |slabs| ==>
         OVERHEAD <= slabs[i].ptr && slabs[i].ptr + slabs[i].len == slabs[i].size) &&
      (forall k :: 0 <= k < |Allocated| ==>
         Allocated[k].slab < |slabs| && OVERHEAD <= Allocated[k].off &&
         Allocated[k].off + Allocated[k].len <= slabs[Allocated[k].slab].ptr) &&
      (forall j, k :: 0 <= j < k < |Allocated| ==> Disjoint(Allocated[j], Allocated[k]))
    }

    /** strpool_new after calloc succeeded. */
    constructor (requested: nat)
      ensures Valid() && slabSize == SlabSizeFor(requested)
      ensures slabs == [] && Allocated == []
    {
      slabSize := SlabSizeFor(requested);
      slabs := [];
      Allocated := [];
    }

    /** strpool_alloc_slow: a new slab of max(overhead + sz, slab_size)
        bytes is appended at the tail and the object sits right after its
        header; malloc fails exactly when mallocOk is false, giving None
        and no change. */
    method AllocSlow(sz: nat, mallocOk: bool) returns (r: Option<Region>)
      requires Valid()
      modifies this
      ensures Valid() && slabSize == old(slabSize)
      ensures r.Some? <==> mallocOk
      ensures r.None? ==> slabs == old(slabs) && Allocated == old(Allocated)
      ensures r.Some? ==>
        var alloc := if OVERHEAD + sz < slabSize then slabSize else OVERHEAD + sz;
        slabs == old(slabs) + [Slab(alloc, OVERHEAD + sz, alloc - (OVERHEAD + sz))] &&
        r.value == Region(|old(slabs)|, OVERHEAD, sz) &&
        Allocated == old(Allocated) + [r.value]
    {
      var alloc := OVERHEAD + sz;
      if alloc < slabSize {
        alloc := slabSize;
      }
      if !mallocOk {
        return None;
      }
      var region := Region(|slabs|, OVERHEAD, sz);
      slabs := slabs + [Slab(alloc, OVERHEAD + sz, alloc - (OVERHEAD + sz))];
      Allocated := Allocated + [region];
      r := Some(region);
    }

    /** strpool_alloc: when the tail slab has at least sz bytes free the
        object is carved from its free space (the old tail->ptr) and the
        cursor moves on by sz; otherwise the slow path runs. Either way the
        new object overlaps no earlier one. Only the slow path calls malloc,
        which fails exactly when mallocOk is false. */
    method Alloc(sz: nat, mallocOk: bool) returns (r: Option<Region>)
      requires Valid()
      modifies this
      ensures Valid() && slabSize == old(slabSize)
      ensures r.None? <==> !mallocOk && (old(slabs) == [] || old(slabs[|slabs| - 1].len) < sz)
      ensures r.Some? ==> Allocated == old(Allocated) + [r.value] && r.value.len == sz
      ensures r.Some? ==> forall k :: 0 <= k < |old(Allocated)| ==> Disjoint(old(Allocated)[k], r.value)
      ensures r.None? ==> slabs == old(slabs) && Allocated == old(Allocated)
      ensures old(slabs) != [] && old(slabs[|slabs| - 1].len) >= sz ==>
        var t := old(slabs[|slabs| - 1]);
        r == Some(Region(|old(slabs)| - 1, t.ptr, sz)) &&
        slabs == old(slabs[..|slabs| - 1]) + [Slab(t.size, t.ptr + sz, t.len - sz)]
    {
      if slabs == [] || slabs[|slabs| - 1].len < sz {
        r := AllocSlow(sz, mallocOk);
        if r.Some? {
          assert Allocated[|Allocated| - 1] == r.value;
        }
        return;
      }
      var last := |slabs| - 1;
      var t := slabs[last];
      var region := Region(last, t.ptr, sz);
      slabs := slabs[last := Slab(t.size, t.ptr + sz, t.len - sz)];
      Allocated := Allocated + [region];
      r := Some(region);
    }

    /** strpool_free: every slab on the list is released, head to tail. */
    method Free() returns (ghost released: seq<Slab>)
      requires Valid()
      modifies this
      ensures released == old(slabs) && slabs == []
    {
      released := [];
      var i := 0;
      while i < |slabs|
        invariant i <= |slabs| && released == slabs[..i]
      {
        released := released + [slabs[i]];
        i := i + 1;
      }
      slabs := [];
    }
  }

  /** strpool_new: calloc fails exactly when allocOk is false, giving
      null. */
  method New(requested: nat, allocOk: bool) returns (p: Pool?)
    ensures p != null <==> allocOk
    ensures p != null ==> fresh(p) && p.Valid() && p.slabSize == SlabSizeFor(requested)
    ensures p != null ==> p.slabs == [] && p.Allocated == []
  {
    if !allocOk {
      return null;
    }
    p := new Pool(requested);
  }
}
