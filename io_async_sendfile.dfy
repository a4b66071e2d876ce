/** The kernel-AIO sendfile strategy of io_async_sendfile.c: the whole
    rest of the window is handed to an asynchronous sendfile, and the
    completion handler moves the window, resubmits or finishes. The
    module's in_flight counter and the requests the kernel has accepted
    are the fields of an AioSendfile object. */
module IoAsyncSendfile {
  import opened Bytes
  import opened Nbio
  import opened IoConn

  /** A sendfile the kernel has accepted: for which connection, from
      which file offset and how many bytes. */
  datatype Pending = Pending(conn: Conn, off: nat, len: nat)

  class AioSendfile {
    var inFlight: nat
    ghost var reqs: seq<Pending>

    /** in_flight counts the requests submitted and not yet completed. */
    ghost predicate Valid()
      reads this
    {
      inFlight == |reqs|
    }

    constructor()
      ensures Valid() && reqs == []
    {
      inFlight := 0;
      reqs := [];
    }

    /** aio_submit: one sendfile of all data_len bytes at data_off.
        Taking an iocb (iocbOk) and io_submit (submitOk) can fail, giving
        0 with nothing submitted; in_flight counts only an accepted one. */
    method Submit(h: Conn, iocbOk: bool, submitOk: bool) returns (ok: bool)
      requires Valid() && h.dataLen > 0
      modifies this
      ensures Valid() && ok == (iocbOk && submitOk)
      ensures ok ==> inFlight == old(inFlight) + 1 && reqs == old(reqs) + [Pending(h, h.dataOff, h.dataLen)]
      ensures !ok ==> inFlight == old(inFlight) && reqs == old(reqs)
    {
      if !iocbOk || !submitOk {
        return false;
      }
      reqs := reqs + [Pending(h, h.dataOff, h.dataLen)];
      inFlight := inFlight + 1;
      ok := true;
    }

    /** handle_completion for the i-th outstanding request, whose event
        names its connection h and carries ret. The request is no longer
        in flight. A positive ret (at most data_len) moves the window; if
        bytes are left the rest is resubmitted, and a failed resubmit
        deletes the connection; if none are left the connection returns to
        HTTP_CONN_REQUEST and waits to read, parked. -EAGAIN makes it wait
        to write, parked; any other result deletes it. */
    method HandleCompletion(t: IoThread, h: Conn, i: nat, ret: int, iocbOk: bool, submitOk: bool)
      requires Valid() && t.Valid() && i < |reqs| && reqs[i].conn == h
      requires h.state == HTTP_CONN_DATA && h.ep in t.eps
      requires ret > 0 ==> ret <= h.dataLen
      modifies this, h`dataOff, h`dataLen, h`state, t
      ensures Valid() && t.Valid() && h.ep in t.eps
      ensures ret <= 0 ==>
                reqs == old(reqs[..i] + reqs[i + 1..]) && inFlight == old(inFlight) - 1 &&
                h.dataOff == old(h.dataOff) && h.dataLen == old(h.dataLen) && h.state == HTTP_CONN_DATA
      ensures ret == -EAGAIN ==> t.GetWait(h.ep) == WRITE && t.ListOf(h.ep) == Some(InactiveList)
      ensures ret <= 0 && ret != -EAGAIN ==> t.ListOf(h.ep) == Some(DeletedList) && t.eps[h.ep] == Ep(DELETED, 0)
      ensures ret > 0 ==> h.dataOff == old(h.dataOff) + ret && h.dataLen == old(h.dataLen) - ret
      ensures ret > 0 && h.dataLen == 0 ==>
                reqs == old(reqs[..i] + reqs[i + 1..]) && h.state == HTTP_CONN_REQUEST &&
                h.ep in t.eps && t.GetWait(h.ep) == READ && t.ListOf(h.ep) == Some(InactiveList)
      ensures ret > 0 && h.dataLen > 0 && iocbOk && submitOk ==>
                reqs == old(reqs[..i] + reqs[i + 1..]) + [Pending(h, h.dataOff, h.dataLen)] &&
                h.state == HTTP_CONN_DATA && unchanged(t)
      ensures ret > 0 && h.dataLen > 0 && !(iocbOk && submitOk) ==>
                reqs == old(reqs[..i] + reqs[i + 1..]) && h.state == HTTP_CONN_DATA &&
                t.ListOf(h.ep) == Some(DeletedList) && t.eps[h.ep] == Ep(DELETED, 0)
      ensures Touched(h.ep, old(t.State()), t.State())
    {
      reqs := reqs[..i] + reqs[i + 1..];
      inFlight := inFlight - 1;
      if ret > 0 {
        Advance(t, h, ret, iocbOk, submitOk);
        return;
      }
      if ret == -EAGAIN {
        Park(t, h.ep, WRITE);
        return;
      }
      t.Del(h.ep);
    }

    /** handle_completion after ret > 0 bytes were sent: the window moves
        by ret; the rest, if any, is resubmitted and a failed resubmit
        deletes the connection; with nothing left the connection returns
        to HTTP_CONN_REQUEST and waits to read, parked. */
    method Advance(t: IoThread, h: Conn, ret: nat, iocbOk: bool, submitOk: bool)
      requires Valid() && t.Valid() && h.ep in t.eps
      requires 0 < ret <= h.dataLen
      modifies this, h`dataOff, h`dataLen, h`state, t
      ensures Valid() && t.Valid() && h.ep in t.eps
      ensures h.dataOff == old(h.dataOff) + ret && h.dataLen == old(h.dataLen) - ret
      ensures h.dataLen == 0 ==>
                reqs == old(reqs) && h.state == HTTP_CONN_REQUEST &&
                t.GetWait(h.ep) == READ && t.ListOf(h.ep) == Some(InactiveList)
      ensures h.dataLen > 0 && iocbOk && submitOk ==>
                reqs == old(reqs) + [Pending(h, h.dataOff, h.dataLen)] && h.state == old(h.state) && unchanged(t)
      ensures h.dataLen > 0 && !(iocbOk && submitOk) ==>
                reqs == old(reqs) && h.state == old(h.state) &&
                t.ListOf(h.ep) == Some(DeletedList) && t.eps[h.ep] == Ep(DELETED, 0)
      ensures Touched(h.ep, old(t.State()), t.State())
    {
      h.dataOff := h.dataOff + ret;
      h.dataLen := h.dataLen - ret;
      if h.dataLen > 0 {
        var ok := Submit(h, iocbOk, submitOk);
        if !ok {
          t.Del(h.ep);
        }
      } else {
        h.state := HTTP_CONN_REQUEST;
        Park(t, h.ep, READ);
      }
    }

    /** io_async_sendfile_write: stop waiting on the socket (wait 0), then
        submit the rest of the window. */
    method Write(t: IoThread, h: Conn, iocbOk: bool, submitOk: bool) returns (ok: bool)
      requires Valid() && t.Valid() && h.dataLen > 0
      modifies this, t
      ensures Valid() && t.Valid() && ok == (iocbOk && submitOk)
      ensures h.ep in t.eps && t.GetWait(h.ep) == 0 && t.ListOf(h.ep) == Some(InactiveList)
      ensures reqs == old(reqs) + (if ok then [Pending(h, h.dataOff, h.dataLen)] else [])
      ensures Touched(h.ep, old(t.State()), t.State())
    {
      t.SetWait(h.ep, 0);
      ok := Submit(h, iocbOk, submitOk);
    }
  }

  /** nbio_set_wait followed by nbio_inactive: endpoint n waits for wait
      from the inactive list. */
  method Park(t: IoThread, n: nat, wait: bv8)
    requires t.Valid()
    modifies t
    ensures t.Valid() && n in t.eps && t.eps[n] == Ep(wait & WAIT, wait & WAIT)
    ensures t.GetWait(n) == wait & WAIT && t.ListOf(n) == Some(InactiveList)
    ensures t.hooks == old(t.hooks) + [PluginActive(n), PluginInactive(n)]
    ensures Touched(n, old(t.State()), t.State())
  {
    ghost var s0 := t.State();
    t.SetWait(n, wait);
    ghost var s1 := t.State();
    t.Inactive(n);
    TouchedTrans(n, s0, s1, t.State());
  }

  /** io_async_sendfile_prep: nothing to set up, always 1. */
  method Prep(h: Conn) returns (ok: bool)
    ensures ok
  {
    ok := true;
  }
}
