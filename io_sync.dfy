/** The synchronous strategy of io_sync.c: each time the socket is
    writable, top up the data buffer with a positional read of the file,
    then send what the buffer holds. */
module IoSync {
  import opened Bytes
  import opened Nbio
  import opened IoConn
  import HttpBuf

  /** The bytes the top-up adds: a read is made only when the buffer has
      free space, and only a read that neither failed nor met the end of
      the file adds anything. */
  function Loaded(free: nat, r: ReadRet): (l: seq<byte>)
    ensures free == 0 || r.ReadFailed? ==> l == []
    ensures free > 0 && r.ReadBytes? && !r.eof ==> l == r.bytes
  {
    if free > 0 && r.ReadBytes? && !r.eof then r.bytes else []
  }

  /** The top-up gives up: the read failed or reached the end of the file. */
  predicate ReadFails(free: nat, r: ReadRet)
  {
    free > 0 && (r.ReadFailed? || r.eof)
  }

  /** io_sync_write. The read asks for min(free space, data_len) bytes at
      data_off; on failure or end of file the handler returns 0 at once.
      Otherwise the window moves by what was read and the buffered bytes
      are offered to send: EAGAIN parks the endpoint (1), any other
      failure or 0 gives 0, and a count consumes that many bytes. When the
      buffer and the window are both used up the buffer is released, the
      connection waits to read the next request and its state goes back to
      HTTP_CONN_REQUEST; when the rest of the window no longer fits in
      the free space the buffer is compacted. */
  method Write(t: IoThread, h: Conn, r: ReadRet, tx: SendRet) returns (ok: bool)
    requires t.Valid() && h.Valid() && h.dat != null && h.ep in t.eps
    requires r.ReadBytes? ==> |r.bytes| <= Min(h.Free(), h.dataLen)
    requires tx.Sent? ==> tx.n <= |h.dat.Unread()| + |Loaded(h.Free(), r)|
    modifies h, h.dat, h.dat.data, t
    ensures t.Valid() && h.Valid()
    ensures ReadFails(old(h.Free()), r) ==>
              !ok && h.dat == old(h.dat) && h.dat.rd == old(h.dat.rd) && h.dat.wr == old(h.dat.wr) &&
              h.dataOff == old(h.dataOff) && h.dataLen == old(h.dataLen) && h.sent == old(h.sent) && unchanged(t)
    ensures !ReadFails(old(h.Free()), r) ==>
              h.dataOff + h.dataLen == old(h.dataOff + h.dataLen) &&
              h.dataLen == old(h.dataLen) - |Loaded(old(h.Free()), r)|
    ensures !ReadFails(old(h.Free()), r) && tx.SendAgain? ==>
              ok && h.sent == old(h.sent) && h.dat == old(h.dat) &&
              h.dat.Unread() == old(h.dat.Unread()) + Loaded(old(h.Free()), r) &&
              t.ListOf(h.ep) == Some(InactiveList) && t.eps == old(t.eps)
    ensures !ReadFails(old(h.Free()), r) && (tx.SendFailed? || tx == Sent(0)) ==>
              !ok && h.sent == old(h.sent) && h.dat == old(h.dat) &&
              h.dat.Unread() == old(h.dat.Unread()) + Loaded(old(h.Free()), r) && unchanged(t)
    ensures !ReadFails(old(h.Free()), r) && tx.Sent? && tx.n > 0 ==>
              ok && h.sent == old(h.sent) + (old(h.dat.Unread()) + Loaded(old(h.Free()), r))[..tx.n]
    ensures !ReadFails(old(h.Free()), r) && tx.Sent? && tx.n > 0 &&
            tx.n == |old(h.dat.Unread())| + |Loaded(old(h.Free()), r)| && h.dataLen == 0 ==>
              h.dat == null && h.state == HTTP_CONN_REQUEST &&
              h.ep in t.eps && t.GetWait(h.ep) == READ && t.ListOf(h.ep) == Some(ActiveList)
    ensures !ReadFails(old(h.Free()), r) && tx.Sent? && tx.n > 0 &&
            (tx.n < |old(h.dat.Unread())| + |Loaded(old(h.Free()), r)| || h.dataLen > 0) ==>
              h.dat == old(h.dat) && h.state == old(h.state) && unchanged(t) &&
              h.dat.Unread() == (old(h.dat.Unread()) + Loaded(old(h.Free()), r))[tx.n..] &&
              (h.dataLen > old(h.Free()) - |Loaded(old(h.Free()), r)| ==> h.dat.rd == 0)
    ensures Touched(h.ep, old(t.State()), t.State())
  {
    var loaded := TopUp(h, r);
    if !loaded {
      return false;
    }
    ok := Transmit(t, h, tx);
  }

  /** The top-up half of io_sync_write: false when the read failed or met
      the end of the file, with nothing changed. */
  method TopUp(h: Conn, r: ReadRet) returns (ok: bool)
    requires h.Valid() && h.dat != null
    requires r.ReadBytes? ==> |r.bytes| <= Min(h.Free(), h.dataLen)
    modifies h`dataOff, h`dataLen, h.dat`wr, h.dat.data
    ensures h.Valid() && h.dat.rd == old(h.dat.rd)
    ensures ok == !ReadFails(old(h.Free()), r)
    ensures !ok ==> h.dat.wr == old(h.dat.wr) && h.dataOff == old(h.dataOff) && h.dataLen == old(h.dataLen)
    ensures ok ==> h.dat.Unread() == old(h.dat.Unread()) + Loaded(old(h.Free()), r)
    ensures ok ==> h.dataOff == old(h.dataOff) + |Loaded(old(h.Free()), r)|
    ensures ok ==> h.dataLen == old(h.dataLen) - |Loaded(old(h.Free()), r)|
    ensures ok ==> h.Free() == old(h.Free()) - |Loaded(old(h.Free()), r)|
  {
    var wok, wptr, wsz := h.dat.Write();
    if wsz > 0 {
      match r
      case ReadFailed =>
        return false;
      case ReadBytes(bytes, eof) =>
        if eof {
          return false;
        }
        Append(h.dat, bytes);
        h.dataOff := h.dataOff + |bytes|;
        h.dataLen := h.dataLen - |bytes|;
    }
    return true;
  }

  /** The send half of io_sync_write, on the bytes the buffer holds. */
  method Transmit(t: IoThread, h: Conn, tx: SendRet) returns (ok: bool)
    requires t.Valid() && h.Valid() && h.dat != null && h.ep in t.eps
    requires tx.Sent? ==> tx.n <= |h.dat.Unread()|
    modifies h`sent, h`dat, h`state, h.dat, h.dat.data, t
    ensures t.Valid() && h.Valid()
    ensures tx.SendAgain? ==>
              ok && h.sent == old(h.sent) && h.dat == old(h.dat) && h.dat.Unread() == old(h.dat.Unread()) &&
              t.ListOf(h.ep) == Some(InactiveList) && t.eps == old(t.eps)
    ensures tx.SendFailed? || tx == Sent(0) ==>
              !ok && h.sent == old(h.sent) && h.dat == old(h.dat) && h.dat.Unread() == old(h.dat.Unread()) &&
              unchanged(t)
    ensures tx.Sent? && tx.n > 0 ==> ok && h.sent == old(h.sent) + old(h.dat.Unread())[..tx.n]
    ensures tx.Sent? && tx.n > 0 && tx.n == |old(h.dat.Unread())| && h.dataLen == 0 ==>
              h.dat == null && h.state == HTTP_CONN_REQUEST &&
              h.ep in t.eps && t.GetWait(h.ep) == READ && t.ListOf(h.ep) == Some(ActiveList)
    ensures tx.Sent? && tx.n > 0 && (tx.n < |old(h.dat.Unread())| || h.dataLen > 0) ==>
              h.dat == old(h.dat) && h.state == old(h.state) && unchanged(t) &&
              h.dat.Unread() == old(h.dat.Unread())[tx.n..] &&
              (h.dataLen > old(h.Free()) ==> h.dat.rd == 0)
    ensures Touched(h.ep, old(t.State()), t.State())
  {
    var rptr, rsz := h.dat.Read();
    match tx
    case SendAgain =>
      t.Inactive(h.ep);
      return true;
    case SendFailed =>
      return false;
    case Sent(n) =>
      if n == 0 {
        return false;
      }
      Took(t, h, n);
      return true;
  }

  /** The rest of io_sync_write once send took n > 0 buffered bytes: they
      leave the buffer; once the buffer and the window are both empty the
      buffer is released and the connection waits to read its next
      request in HTTP_CONN_REQUEST; otherwise the buffer is compacted
      when the window holds more than its free space. */
  method Took(t: IoThread, h: Conn, n: nat)
    requires t.Valid() && h.Valid() && h.dat != null && h.ep in t.eps
    requires 0 < n <= |h.dat.Unread()|
    modifies h`sent, h`dat, h`state, h.dat, h.dat.data, t
    ensures t.Valid() && h.Valid()
    ensures h.sent == old(h.sent) + old(h.dat.Unread())[..n]
    ensures n == |old(h.dat.Unread())| && h.dataLen == 0 ==>
              h.dat == null && h.state == HTTP_CONN_REQUEST &&
              h.ep in t.eps && t.GetWait(h.ep) == READ && t.ListOf(h.ep) == Some(ActiveList)
    ensures n < |old(h.dat.Unread())| || h.dataLen > 0 ==>
              h.dat == old(h.dat) && h.state == old(h.state) && unchanged(t) &&
              h.dat.Unread() == old(h.dat.Unread())[n..] &&
              (h.dataLen > old(h.Free()) ==> h.dat.rd == 0)
    ensures Touched(h.ep, old(t.State()), t.State())
  {
    var rptr, rsz := h.dat.Read();
    h.sent := h.sent + h.dat.data[rptr..rptr + n];
    var left := h.dat.DoneRead(n);
    if left + h.dataLen == 0 {
      h.dat := null;
      t.SetWait(h.ep, READ);
      h.state := HTTP_CONN_REQUEST;
    } else {
      var fok, fptr, fsz := h.dat.Write();
      if h.dataLen > fsz {
        h.dat.Reset();
      }
    }
  }

  /** io_sync_prep: take a data buffer; 0 when none is available
      (allocOk false). */
  method Prep(h: Conn, allocOk: bool) returns (ok: bool)
    requires h.Valid()
    modifies h`dat
    ensures h.Valid() && ok == (h.dat != null) && ok == allocOk
    ensures ok ==> fresh(h.dat) && h.dat.Unread() == [] && h.dat.data.Length == HttpBuf.HTTP_MAX_REQ
  {
    h.dat := HttpBuf.Alloc(HttpBuf.DatPool, allocOk);
    ok := h.dat != null;
  }
}
