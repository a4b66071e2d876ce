/** The query side of SkunkDB (skunk.c): a database is a read-only mapping of
    the image skunk_commit wrote; skunk_select probes it for a key. */
module SkunkDb {
  import opened Bytes
  import opened SkunkFormat
  import opened SkunkHeader

  /** struct skunk_db: the mapped file (`end` is image + maplen, so only the
      bytes are kept) and the record the last successful select found.
      `result` is a pointer to a record of the caller's: dest says whether
      the caller has pointed it somewhere, and `result` is what it points
      at. */
  class Db {
    const image: seq<byte>
    var dest: bool
    var result: Option<Answer>

    /** skunk_open has checked that the primary table fits in the image. */
    predicate Valid()
    {
      |image| >= T0
    }

    constructor Mapped(file: seq<byte>)
      requires |file| >= T0
      ensures Valid() && image == file && result == None && !dest
    {
      image := file;
      dest := false;
      result := None;
    }

    /** skunk_open: null when fstat fails, when the file is shorter than
        the primary table (SKUNK_HASHSZ entries of 8 bytes), when the
        calloc of the handle fails or when mmap fails; otherwise a fresh
        handle over the whole file, whose result pointer calloc leaves
        NULL. The outcomes of fstat, calloc and mmap are parameters. */
    static method Open(file: seq<byte>, statOk: bool, allocOk: bool, mapOk: bool) returns (d: Db?)
      ensures d == null <==> !statOk || |file| < HASHSZ * 8 || !allocOk || !mapOk
      ensures d != null ==> fresh(d) && d.Valid() && d.image == file && d.result == None && !d.dest
    {
      if !statOk {
        return null;
      }
      if |file| < 2048 * 8 {
        return null;
      }
      if !allocOk {
        return null;
      }
      if !mapOk {
        return null;
      }
      d := new Db.Mapped(file);
    }

    /** skunk_select: -1 for an empty key or a table that lies outside the
        image, 0 for a key that is not there, 1 with the record stored in
        `result` for the first bucket on the probe path whose hash, key
        length and key bytes match. The answer is the one Lookup
        specifies; a miss leaves `result` as it was. A hit while the
        result pointer is still NULL, as skunk_open leaves it, stores
        through NULL: the process faults (faulted). */
    method Select(key: seq<byte>) returns (code: int, faulted: bool)
      requires Valid()
      modifies this`result
      ensures code == Code(Lookup(image, key))
      ensures faulted <==> Lookup(image, key).Found? && !dest
      ensures Lookup(image, key).Found? && dest ==> result == Some(Lookup(image, key))
      ensures !Lookup(image, key).Found? || !dest ==> result == old(result)
    {
      if |key| == 0 {
        return -1, false;
      }
      var h := SkunkHash(key);
      var t := h % 2048;
      var tofs := U32(image, 8 * t);
      var tlen := U32(image, 8 * t + 4);
      LookupTable(image, key, h, tofs, tlen);
      if tofs == 0 || tlen == 0 {
        return 0, false;
      }
      if tofs > |image| {
        return -1, false;
      }
      code, faulted := Probing(key, h, tofs, tlen);
    }

    /** The probe loop of skunk_select over the table of `tlen` buckets at
        `tofs`, from slot (h ^ klen) % tlen: a bucket that does not fit in
        the image gives -1; one whose hash and key length agree and whose
        record lies in the image with equal key bytes gives 1; after
        tlen + 1 buckets the answer is 0. */
    method Probing(key: seq<byte>, h: nat, tofs: nat, tlen: nat) returns (code: int, faulted: bool)
      requires |key| > 0 && tlen > 0
      modifies this`result
      ensures var r := Probe(image, tofs, tlen, h, key, Start(h, |key|, tlen), 0);
        code == Code(r) && (faulted <==> r.Found? && !dest) &&
        (r.Found? && dest ==> result == Some(r)) && (!r.Found? || !dest ==> result == old(result))
    {
      var i: nat := Start(h, |key|, tlen);
      var dist: nat := 0;
      ghost var p0 := Probe(image, tofs, tlen, h, key, i, dist);
      while true
        invariant i < tlen && dist <= tlen
        invariant Probe(image, tofs, tlen, h, key, i, dist) == p0
        invariant result == old(result)
        decreases tlen - dist
      {
        var b: nat := tofs + 16 * i;
        if b + 16 > |image| {
          ProbeOut(image, tofs, tlen, h, key, i, dist);
          return -1, false;
        }
        // Matches makes the checks of the loop body in order: hash and key
        // length, then the record inside the image, then the key bytes.
        var hit := Matches(image, tofs, i, h, key);
        if hit {
          ProbeHit(image, tofs, tlen, h, key, i, dist);
          if !dest {
            return 1, true;
          }
          result := Some(Found(U32(image, b + 4), |key|, U32(image, b + 12)));
          return 1, false;
        }
        if dist + 1 > tlen {
          ProbeGivesUp(image, tofs, tlen, h, key, i, dist);
          return 0, false;
        }
        ProbeSkip(image, tofs, tlen, h, key, i, dist);
        dist := dist + 1;
        i := Next(i, tlen);
      }
    }
  }

  /** A bucket that does not fit in the image ends the probe with -1. */
  lemma ProbeOut(m: seq<byte>, tofs: nat, len: nat, h: nat, key: seq<byte>, i: nat, dist: nat)
    requires i < len && dist <= len && tofs + 16 * i + 16 > |m|
    ensures Probe(m, tofs, len, h, key, i, dist) == Invalid
  {
  }

  /** After len + 1 buckets without a match the probe reports a miss. */
  lemma ProbeGivesUp(m: seq<byte>, tofs: nat, len: nat, h: nat, key: seq<byte>, i: nat, dist: nat)
    requires i < len && dist == len && tofs + 16 * i + 16 <= |m| && !Matches(m, tofs, i, h, key)
    ensures Probe(m, tofs, len, h, key, i, dist) == Missing
  {
  }

  /** The steps of skunk_select before its probe loop, on a non-empty key
      whose primary entry holds (tofs, tlen). */
  lemma LookupTable(m: seq<byte>, key: seq<byte>, h: nat, tofs: nat, tlen: nat)
    requires |m| >= T0 && |key| > 0 && h == Hash(key)
    requires tofs == U32(m, 8 * (h % 2048)) && tlen == U32(m, 8 * (h % 2048) + 4)
    ensures tofs == 0 || tlen == 0 ==> Lookup(m, key) == Missing
    ensures tofs != 0 && tlen != 0 && tofs > |m| ==> Lookup(m, key) == Invalid
    ensures tofs != 0 && tlen != 0 && tofs <= |m| ==>
      Lookup(m, key) == Probe(m, tofs, tlen, h, key, Start(h, |key|, tlen), 0)
  {
  }

  // ---------------------------------------------------------------------
  // The two bounds checks of the probe loop as written

  /** `(char *)b > d->end`: the bucket is refused only when it starts past
      the end of the image. */
  predicate BucketRefusedAsWritten(maplen: nat, tofs: nat, i: nat)
  {
    tofs + 16 * i > maplen
  }

  /** The as-written bucket check lets through exactly the buckets that
      start inside the image, including those whose 16 bytes run past its
      end; the first of them sits at the end of an image that holds only the
      primary table. */
  lemma BucketCheckAsWritten(maplen: nat, tofs: nat, i: nat)
    ensures !BucketRefusedAsWritten(maplen, tofs, i) && tofs + 16 * i + 16 > maplen <==>
            maplen - 16 < tofs + 16 * i <= maplen
    ensures !BucketRefusedAsWritten(T0, T0, 0) && T0 + 16 > T0
  {
  }

  /** `b->ofs + b->klen + b->vlen > d->maplen`, added in skunk_ofs_t: the sum
      of the three 32-bit fields wraps before it is compared. */
  predicate RecordRefusedAsWritten(maplen: nat, ofs: nat, klen: nat, vlen: nat)
  {
    (ofs + klen + vlen) % 0x1_0000_0000 > maplen
  }

  /** The wrap lets a record through whose bytes lie far past the end of
      the image (ofs 0xFFFF_FFF0, klen 1, vlen 16 in an image of T0 bytes);
      without the wrap the check is the one Matches makes. */
  lemma RecordCheckAsWritten(maplen: nat, ofs: nat, klen: nat, vlen: nat)
    ensures ofs + klen + vlen < 0x1_0000_0000 ==>
      (RecordRefusedAsWritten(maplen, ofs, klen, vlen) <==> ofs + klen + vlen > maplen)
    ensures !RecordRefusedAsWritten(T0, 0xFFFF_FFF0, 1, 0x10) && 0xFFFF_FFF0 + 1 + 0x10 > T0
  {
  }
}
