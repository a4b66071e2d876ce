/** The sendfile strategy of io_sendfile.c: each time the socket is
    writable, ask the kernel to send the whole rest of the window straight
    from the file. */
module IoSendfile {
  import opened Bytes
  import opened Nbio
  import opened IoConn

  /** io_sendfile_write. sendfile is asked for all data_len bytes at
      data_off (the count it reports is at most that). EAGAIN parks the
      endpoint and returns 1 with the window as it was; any other failure,
      or 0, returns 0; a count moves the window by that much, and once
      nothing is left the connection waits to read the next request with
      its state back at HTTP_CONN_REQUEST. */
  method Write(t: IoThread, h: Conn, tx: SendRet) returns (ok: bool)
    requires t.Valid() && h.ep in t.eps
    requires tx.Sent? ==> tx.n <= h.dataLen
    modifies h`dataOff, h`dataLen, h`state, t
    ensures t.Valid() && h.dataOff + h.dataLen == old(h.dataOff + h.dataLen)
    ensures ok <==> tx.SendAgain? || (tx.Sent? && tx.n > 0)
    ensures !(tx.Sent? && tx.n > 0) ==> h.dataOff == old(h.dataOff) && h.dataLen == old(h.dataLen) && h.state == old(h.state)
    ensures tx.SendAgain? ==> t.ListOf(h.ep) == Some(InactiveList) && t.eps == old(t.eps)
    ensures tx.SendFailed? || tx == Sent(0) ==> unchanged(t)
    ensures tx.Sent? && tx.n > 0 ==>
              h.dataOff == old(h.dataOff) + tx.n && h.dataLen == old(h.dataLen) - tx.n
    ensures tx.Sent? && tx.n > 0 && h.dataLen == 0 ==>
              h.state == HTTP_CONN_REQUEST && h.ep in t.eps && t.GetWait(h.ep) == READ &&
              t.ListOf(h.ep) == Some(ActiveList)
    ensures tx.Sent? && tx.n > 0 && h.dataLen > 0 ==> h.state == old(h.state) && unchanged(t)
    ensures Touched(h.ep, old(t.State()), t.State())
  {
    match tx
    case SendAgain =>
      t.Inactive(h.ep);
      return true;
    case SendFailed =>
      return false;
    case Sent(n) =>
      if n == 0 {
        return false;
      }
      h.dataOff := h.dataOff + n;
      h.dataLen := h.dataLen - n;
      if h.dataLen == 0 {
        t.SetWait(h.ep, READ);
        h.state := HTTP_CONN_REQUEST;
      }
      return true;
  }

  /** io_sendfile_prep: nothing to set up, always 1; io_sendfile_abort
      has nothing to undo. */
  method Prep(h: Conn) returns (ok: bool)
    ensures ok
  {
    ok := true;
  }
}
