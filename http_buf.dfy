/** Connection buffers (http_buf.c): a block of memory from one of the
    fixed-size pools with a read cursor and a write cursor.
    `data` is the block b_base..b_end, and the cursors are kept as offsets
    from b_base, so b_base <= b_read <= b_write <= b_end reads
    0 <= rd <= wr <= data.Length. */
module HttpBuf {
  import opened Bytes

  const HTTP_MAX_REQ: nat := 2048
  const HTTP_MAX_RESP: nat := 1024
  const HTTP_DATA_BUFFER: nat := 4096

  /** The pools a buffer's memory can come from. */
  datatype Pool = ReqPool | ResPool | DatPool

  /** Object size of each pool as the constructor creates them: h_res
      holds HTTP_MAX_REQ-byte objects and h_req HTTP_MAX_RESP-byte ones. */
  function ObjectSize(p: Pool): nat
  {
    match p
    case ReqPool => HTTP_MAX_RESP
    case ResPool => HTTP_MAX_REQ
    case DatPool => HTTP_DATA_BUFFER
  }

  /** The pool each allocator draws from: buf_alloc_data draws from h_res. */
  function AllocPool(kind: Pool): Pool
  {
    if kind == DatPool then ResPool else kind
  }

  class Buf {
    var data: array<byte>
    var rd: nat
    var wr: nat

    ghost predicate Valid()
      reads this
    {
      rd <= wr <= data.Length
    }

    /** The bytes written but not yet read. */
    ghost function Unread(): seq<byte>
      reads this, data
      requires Valid()
    {
      data[rd..wr]
    }

    /** do_alloc after both pool allocations succeeded: an empty buffer
        spanning one whole pool object. */
    constructor (size: nat)
      ensures Valid() && fresh(data)
      ensures data.Length == size && rd == 0 && wr == 0
      ensures Unread() == []
    {
      data := new byte[size];
      rd, wr := 0, 0;
    }

    /** buf_read: where the unread bytes start and how many there are. */
    method Read() returns (start: nat, sz: nat)
      requires Valid()
      ensures start == rd && sz == wr - rd
      ensures start + sz <= data.Length && data[start..start + sz] == Unread()
    {
      start, sz := rd, wr - rd;
    }

    /** buf_write: where free space starts and how much there is; no
        pointer (ok false) once the buffer is full. */
    method Write() returns (ok: bool, start: nat, sz: nat)
      requires Valid()
      ensures start == wr && sz == data.Length - wr
      ensures ok <==> sz > 0
    {
      ok, start, sz := wr < data.Length, wr, data.Length - wr;
    }

    /** buf_done_read: consume sz unread bytes. */
    method DoneRead(sz: nat) returns (left: nat)
      requires Valid() && rd + sz <= wr
      modifies this`rd
      ensures Valid()
      ensures rd == old(rd) + sz && left == wr - rd
      ensures Unread() == old(Unread())[sz..]
    {
      rd := rd + sz;
      left := wr - rd;
    }

    /** buf_done_write: publish sz bytes the caller stored at the write cursor. */
    method DoneWrite(sz: nat) returns (free: nat)
      requires Valid() && wr + sz <= data.Length
      modifies this`wr
      ensures Valid()
      ensures wr == old(wr) + sz && free == data.Length - wr
      ensures Unread() == old(Unread()) + data[old(wr)..wr]
    {
      wr := wr + sz;
      free := data.Length - wr;
    }

    /** buf_reset: a drained buffer rewinds both cursors to the base;
        otherwise the unread bytes move down to the base (memmove). */
    method Reset()
      requires Valid()
      modifies this`rd, this`wr, data
      ensures Valid() && rd == 0
      ensures wr == old(wr - rd) && Unread() == old(Unread())
      ensures old(rd == wr) ==> data[..] == old(data[..])
      ensures forall k :: old(wr) <= k < data.Length ==> data[k] == old(data[k])
    {
      if rd == wr {
        rd, wr := 0, 0;
        return;
      }
      var res := wr - rd;
      ghost var u := Unread();
      var i := 0;
      while i < res
        invariant i <= res && rd + res == wr <= data.Length
        invariant forall k :: 0 <= k < i ==> data[k] == u[k]
        invariant forall k :: i <= k < res ==> data[rd + k] == u[k]
        invariant forall k :: wr <= k < data.Length ==> data[k] == old(data[k])
        modifies data
      {
        data[i] := data[rd + i];
        i := i + 1;
      }
      assert data[..res] == u;
      rd, wr := 0, res;
    }
  }

  /** buf_alloc_req / buf_alloc_res / buf_alloc_data: the two allocations
      (from pools outside this model) succeed exactly when allocOk, and
      null is returned otherwise; a buffer returned is empty and spans one
      object of the pool the allocator draws from. */
  method Alloc(kind: Pool, allocOk: bool) returns (b: Buf?)
    ensures b != null <==> allocOk
    ensures b != null ==> fresh(b) && fresh(b.data) && b.Valid()
    ensures b != null ==> b.rd == 0 && b.wr == 0 && b.data.Length == ObjectSize(AllocPool(kind))
  {
    if !allocOk {
      return null;
    }
    b := new Buf(ObjectSize(AllocPool(kind)));
  }
}
