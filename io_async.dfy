/** The kernel-AIO strategy of io_async.c: the file is read into the
    data buffer by asynchronous preads, and the socket is fed from the
    buffer as each read completes. The module's in_flight counter and the
    reads the kernel has accepted are the fields of an Aio object. */
module IoAsync {
  import opened Bytes
  import opened Nbio
  import opened IoConn
  import HttpBuf

  /** A read the kernel has accepted: for which connection, from which
      file offset and how many bytes at most. */
  datatype Pending = Pending(conn: Conn, off: nat, len: nat)

  /** The result a completion carries: the bytes read (ret is their
      count, 0 for end of file), or a negative error. */
  datatype AioRet = AioRead(bytes: seq<byte>) | AioError

  class Aio {
    var inFlight: nat
    ghost var reqs: seq<Pending>

    /** in_flight counts the reads submitted and not yet completed. */
    ghost predicate Valid()
      reads this
    {
      inFlight == |reqs|
    }

    constructor()
      ensures Valid() && reqs == []
    {
      inFlight := 0;
      reqs := [];
    }

    /** aio_submit: a pread of min(data_len, free space) bytes at
        data_off into the buffer's free space. Taking an iocb (iocbOk)
        and io_submit (submitOk) can fail, giving 0 with nothing
        submitted; in_flight counts only an accepted read. */
    method Submit(h: Conn, iocbOk: bool, submitOk: bool) returns (ok: bool)
      requires Valid() && h.Valid() && h.dat != null && h.dataLen > 0
      modifies this
      ensures Valid() && ok == (iocbOk && submitOk)
      ensures ok ==> inFlight == old(inFlight) + 1 &&
                     reqs == old(reqs) + [Pending(h, h.dataOff, Min(h.dataLen, h.Free()))]
      ensures !ok ==> inFlight == old(inFlight) && reqs == old(reqs)
    {
      if !iocbOk {
        return false;
      }
      var wok, wptr, wsz := h.dat.Write();
      var sz := if h.dataLen < wsz then h.dataLen else wsz;
      if !submitOk {
        return false;
      }
      reqs := reqs + [Pending(h, h.dataOff, sz)];
      inFlight := inFlight + 1;
      ok := true;
    }

    /** handle_completion for the i-th outstanding read, whose event
        names its connection h. The read is no longer in flight whatever
        its result; a failure, or 0, changes nothing else. Bytes read are
        published in the buffer, the window moves by their count and the
        connection waits to write. */
    method HandleCompletion(t: IoThread, h: Conn, i: nat, r: AioRet)
      requires Valid() && t.Valid() && i < |reqs| && reqs[i].conn == h
      requires h.Valid() && h.dat != null && h.state == HTTP_CONN_DATA
      requires r.AioRead? ==> |r.bytes| <= Min(h.Free(), h.dataLen)
      modifies this, h, h.dat, h.dat.data, t
      ensures Valid() && t.Valid() && reqs == old(reqs[..i] + reqs[i + 1..])
      ensures inFlight == old(inFlight) - 1
      ensures h.Valid() && h.dat == old(h.dat) && h.state == HTTP_CONN_DATA && h.sent == old(h.sent)
      ensures r.AioError? || r == AioRead([]) ==>
                h.dat.Unread() == old(h.dat.Unread()) && h.dat.rd == old(h.dat.rd) && h.dat.wr == old(h.dat.wr) &&
                h.dataOff == old(h.dataOff) && h.dataLen == old(h.dataLen) && unchanged(t)
      ensures r.AioRead? && |r.bytes| > 0 ==>
                h.dat.Unread() == old(h.dat.Unread()) + r.bytes &&
                h.dataOff == old(h.dataOff) + |r.bytes| && h.dataLen == old(h.dataLen) - |r.bytes| &&
                h.ep in t.eps && t.GetWait(h.ep) == WRITE && t.ListOf(h.ep) == Some(ActiveList)
      ensures Touched(h.ep, old(t.State()), t.State())
    {
      reqs := reqs[..i] + reqs[i + 1..];
      inFlight := inFlight - 1;
      match r
      case AioError =>
        return;
      case AioRead(bytes) =>
        if |bytes| == 0 {
          return;
        }
        Append(h.dat, bytes);
        h.dataOff := h.dataOff + |bytes|;
        h.dataLen := h.dataLen - |bytes|;
        t.SetWait(h.ep, WRITE);
    }

    /** io_async_write. With nothing buffered yet the connection stops
        waiting (wait 0) until a read completes, and 1 is returned.
        Otherwise the buffered bytes are offered to send: EAGAIN parks the
        endpoint (1), failure or 0 gives 0, and a partial send leaves the
        rest buffered (1). Once the buffer is drained, a window with bytes
        left compacts the buffer and submits the next read (its result is
        returned); an empty window releases the buffer, waits to read the
        next request and returns to HTTP_CONN_REQUEST. */
    method Write(t: IoThread, h: Conn, tx: SendRet, iocbOk: bool, submitOk: bool) returns (ok: bool)
      requires Valid() && t.Valid() && h.Valid() && h.dat != null && h.ep in t.eps
      requires tx.Sent? ==> tx.n <= |h.dat.Unread()|
      modifies this, h, h.dat, h.dat.data, t
      ensures Valid() && t.Valid() && h.Valid()
      ensures h.dataOff == old(h.dataOff) && h.dataLen == old(h.dataLen)
      ensures old(h.dat.Unread()) == [] ==>
                ok && h.dat == old(h.dat) && h.sent == old(h.sent) && h.dat.Unread() == [] &&
                h.ep in t.eps && t.GetWait(h.ep) == 0 && t.ListOf(h.ep) == Some(InactiveList) &&
                reqs == old(reqs)
      ensures old(h.dat.Unread()) != [] && tx.SendAgain? ==>
                ok && h.dat == old(h.dat) && h.sent == old(h.sent) && h.dat.Unread() == old(h.dat.Unread()) &&
                t.ListOf(h.ep) == Some(InactiveList) && t.eps == old(t.eps) && reqs == old(reqs)
      ensures old(h.dat.Unread()) != [] && (tx.SendFailed? || tx == Sent(0)) ==>
                !ok && h.dat == old(h.dat) && h.sent == old(h.sent) && h.dat.Unread() == old(h.dat.Unread()) &&
                unchanged(t) && reqs == old(reqs)
      ensures old(h.dat.Unread()) != [] && tx.Sent? && tx.n > 0 ==>
                h.sent == old(h.sent) + old(h.dat.Unread())[..tx.n]
      ensures old(h.dat.Unread()) != [] && tx.Sent? && 0 < tx.n < |old(h.dat.Unread())| ==>
                ok && h.dat == old(h.dat) && h.dat.Unread() == old(h.dat.Unread())[tx.n..] &&
                unchanged(t) && reqs == old(reqs)
      ensures old(h.dat.Unread()) != [] && tx.Sent? && tx.n == |old(h.dat.Unread())| && h.dataLen > 0 ==>
                h.dat == old(h.dat) && h.dat.Unread() == [] && h.dat.rd == 0 && h.dat.wr == 0 && unchanged(t) &&
                ok == (iocbOk && submitOk) &&
                reqs == old(reqs) + (if ok then [Pending(h, h.dataOff, Min(h.dataLen, h.dat.data.Length))] else [])
      ensures old(h.dat.Unread()) != [] && tx.Sent? && tx.n == |old(h.dat.Unread())| && h.dataLen == 0 ==>
                ok && h.dat == null && h.state == HTTP_CONN_REQUEST && reqs == old(reqs) &&
                h.ep in t.eps && t.GetWait(h.ep) == READ && t.ListOf(h.ep) == Some(ActiveList)
      ensures Touched(h.ep, old(t.State()), t.State())
    {
      var rptr, rsz := h.dat.Read();
      if rsz == 0 {
        t.SetWait(h.ep, 0);
        return true;
      }
      match tx
      case SendAgain =>
        t.Inactive(h.ep);
        return true;
      case SendFailed =>
        return false;
      case Sent(n) =>
        if n == 0 {
          return false;
        }
        ok := Took(t, h, n, iocbOk, submitOk);
    }

    /** The rest of io_async_write once send took n > 0 buffered bytes:
        they are sent and leave the buffer; a partial send returns 1, and
        a drained buffer either submits the next read, after compacting
        the buffer, or, with the window empty, releases the buffer and
        waits to read the next request in HTTP_CONN_REQUEST. */
    method Took(t: IoThread, h: Conn, n: nat, iocbOk: bool, submitOk: bool) returns (ok: bool)
      requires Valid() && t.Valid() && h.Valid() && h.dat != null && h.ep in t.eps
      requires 0 < n <= |h.dat.Unread()|
      modifies this, h, h.dat, h.dat.data, t
      ensures Valid() && t.Valid() && h.Valid()
      ensures h.dataOff == old(h.dataOff) && h.dataLen == old(h.dataLen)
      ensures h.sent == old(h.sent) + old(h.dat.Unread())[..n]
      ensures n < |old(h.dat.Unread())| ==>
                ok && h.dat == old(h.dat) && h.dat.Unread() == old(h.dat.Unread())[n..] &&
                unchanged(t) && reqs == old(reqs)
      ensures n == |old(h.dat.Unread())| && h.dataLen > 0 ==>
                h.dat == old(h.dat) && h.dat.Unread() == [] && h.dat.rd == 0 && h.dat.wr == 0 && unchanged(t) &&
                ok == (iocbOk && submitOk) &&
                reqs == old(reqs) + (if ok then [Pending(h, h.dataOff, Min(h.dataLen, h.dat.data.Length))] else [])
      ensures n == |old(h.dat.Unread())| && h.dataLen == 0 ==>
                ok && h.dat == null && h.state == HTTP_CONN_REQUEST && reqs == old(reqs) &&
                h.ep in t.eps && t.GetWait(h.ep) == READ && t.ListOf(h.ep) == Some(ActiveList)
      ensures Touched(h.ep, old(t.State()), t.State())
    {
      var rptr, rsz := h.dat.Read();
      ghost var u0 := h.dat.Unread();
      assert h.dat.data[rptr..rptr + n] == u0[..n];
      h.sent := h.sent + h.dat.data[rptr..rptr + n];
      ghost var sent1 := h.sent;
      var left := h.dat.DoneRead(n);
      if left > 0 {
        return true;
      }
      if h.dataLen > 0 {
        h.dat.Reset();
        ok := Submit(h, iocbOk, submitOk);
        return;
      }
      assert h.sent == sent1;
      h.dat := null;
      t.SetWait(h.ep, READ);
      h.state := HTTP_CONN_REQUEST;
      return true;
    }

    /** io_async_prep: take a data buffer and submit the first read; 0,
        with no buffer held, when either fails. */
    method Prep(h: Conn, allocOk: bool, iocbOk: bool, submitOk: bool) returns (ok: bool)
      requires Valid() && h.Valid() && h.dataLen > 0
      modifies this, h`dat
      ensures Valid() && h.Valid()
      ensures ok == (allocOk && iocbOk && submitOk)
      ensures ok ==> fresh(h.dat) && h.dat.Unread() == [] && h.dat.wr == 0 &&
                     h.dat.data.Length == HttpBuf.HTTP_MAX_REQ &&
                     inFlight == old(inFlight) + 1 &&
                     reqs == old(reqs) + [Pending(h, h.dataOff, Min(h.dataLen, HttpBuf.HTTP_MAX_REQ))]
      ensures !ok ==> h.dat == null && reqs == old(reqs) && inFlight == old(inFlight)
    {
      if !allocOk {
        h.dat := null;
        return false;
      }
      h.dat := new HttpBuf.Buf(HttpBuf.ObjectSize(HttpBuf.AllocPool(HttpBuf.DatPool)));
      ok := Submit(h, iocbOk, submitOk);
      if !ok {
        h.dat := null;
      }
    }
  }
}
