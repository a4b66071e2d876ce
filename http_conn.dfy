/** The echo connection of http_conn.c: a fixed request buffer with a
    fill cursor, a search for the blank line that ends a request head,
    and the reactor wait transitions between reading and writing.
    recv and send are parameters: the count or failure the kernel
    reports is given to each handler. */
module HttpConn {
  import opened Bytes
  import opened Nbio
  import BoyerMoore
  import ParseReq
  import HttpDecode

  const HTTP_MAX_REQ: nat := 2048

  /** "\r\n\r\n", the end of a request head. */
  const TERMINATOR: seq<byte> := [CR, LF, CR, LF]

  /** The reply http_write sends on every request. */
  const HELLO: seq<byte> := Str("HELLO\r\n")

  /** What recv reported: some bytes, EAGAIN, or end of stream or an error. */
  datatype Recv = Got(bytes: seq<byte>) | RecvAgain | RecvFailed

  /** What send reported: a count of bytes taken, EAGAIN, or 0 or an error. */
  datatype Send = Sent(n: nat) | SendAgain | SendFailed

  /** The buffer holds a complete request head. */
  ghost predicate HasTerminator(s: seq<byte>)
  {
    exists q :: BoyerMoore.MatchAt(TERMINATOR, s, q)
  }

  /** http_conn_ctor: the skip table for the terminator, built once and
      shared by every connection's search. */
  method TerminatorSkip() returns (skip: seq<int>)
    ensures |skip| == 256 && BoyerMoore.IsSkipTable(TERMINATOR, skip)
  {
    var a := new int[256];
    BoyerMoore.BmSkip(TERMINATOR, a);
    skip := a[..];
  }

  class Conn {
    /** The endpoint this connection is registered as in its I/O thread. */
    const ep: nat
    /** h_buf..h_buf_end; h_buf_ptr is buf + ptr. */
    const buf: array<byte>
    var ptr: nat
    /** The bytes handed to send so far, in order. */
    var sent: seq<byte>

    ghost predicate Valid()
      reads this
    {
      buf.Length == HTTP_MAX_REQ && ptr <= buf.Length
    }

    /** The bytes received and not yet consumed by a request. */
    function Pending(): seq<byte>
      reads this, buf
      requires Valid()
    {
      buf[..ptr]
    }

    constructor(ep: nat)
      ensures Valid() && this.ep == ep && ptr == 0 && sent == [] && fresh(buf)
    {
      this.ep := ep;
      buf := new byte[HTTP_MAX_REQ];
      ptr := 0;
      sent := [];
    }

    /** http_read: take what recv delivered into the free tail of the
        buffer, then look for the end of the head over everything
        buffered. Without it the handler waits for more data, unless the
        buffer is full, in which case the cursor goes back to the start
        and the (now empty) request is handled anyway. */
    method Read(t: IoThread, rx: Recv, skip: seq<int>)
      requires Valid() && t.Valid() && ep in t.eps
      requires |skip| == 256 && BoyerMoore.IsSkipTable(TERMINATOR, skip)
      requires rx.Got? ==> 0 < |rx.bytes| <= buf.Length - ptr
      modifies this, buf, t
      ensures Valid() && t.Valid() && sent == old(sent)
      ensures rx.RecvAgain? ==> ptr == old(ptr) && buf[..] == old(buf[..])
      ensures rx.RecvAgain? ==> t.ListOf(ep) == Some(InactiveList) && t.eps == old(t.eps)
      ensures rx.RecvFailed? ==> ptr == old(ptr) && buf[..] == old(buf[..])
      ensures rx.RecvFailed? ==> t.ListOf(ep) == Some(DeletedList) && t.eps[ep] == Ep(DELETED, 0)
      ensures rx.Got? ==> buf[..old(ptr) + |rx.bytes|] == old(buf[..ptr]) + rx.bytes
      ensures rx.Got? && !HasTerminator(buf[..old(ptr) + |rx.bytes|]) && old(ptr) + |rx.bytes| < buf.Length ==>
                ptr == old(ptr) + |rx.bytes| && unchanged(t)
      ensures rx.Got? && !HasTerminator(buf[..old(ptr) + |rx.bytes|]) && old(ptr) + |rx.bytes| == buf.Length ==>
                ptr == 0 && ep in t.eps && t.GetWait(ep) == WRITE && t.ListOf(ep) == Some(ActiveList)
      ensures rx.Got? && HasTerminator(buf[..old(ptr) + |rx.bytes|]) ==>
                (ptr == HttpDecode.Decode(buf[..old(ptr) + |rx.bytes|]).len &&
                 ep in t.eps && t.GetWait(ep) == WRITE && t.ListOf(ep) == Some(ActiveList))
      ensures Touched(ep, old(t.State()), t.State())
    {
      match rx
      case RecvAgain =>
        t.Inactive(ep);
      case RecvFailed =>
        t.Del(ep);
      case Got(bytes) =>
        Fill(bytes);
        var term := BoyerMoore.BmFind(TERMINATOR, buf[..ptr], skip);
        if term.None? {
          if ptr == buf.Length {
            ptr := 0;
          } else {
            return;
          }
        } else {
          assert HasTerminator(buf[..ptr]);
        }
        HandleRequest(t);
    }

    /** The copy recv makes into the free tail of the buffer. */
    method Fill(bytes: seq<byte>)
      requires Valid() && |bytes| <= buf.Length - ptr
      modifies this`ptr, buf
      ensures Valid() && ptr == old(ptr) + |bytes|
      ensures buf[..ptr] == old(buf[..ptr]) + bytes
    {
      var i := 0;
      while i < |bytes|
        invariant 0 <= i <= |bytes| && ptr == old(ptr)
        invariant forall j :: 0 <= j < ptr ==> buf[j] == old(buf[j])
        invariant forall j :: 0 <= j < i ==> buf[ptr + j] == bytes[j]
      {
        buf[ptr + i] := bytes[i];
        i := i + 1;
      }
      ptr := ptr + |bytes|;
    }

    /** handle_request: parse the buffered bytes as a request, put the
        cursor just past the head and wait to write the reply. */
    method HandleRequest(t: IoThread)
      requires Valid() && t.Valid()
      modifies this`ptr, t
      ensures Valid() && t.Valid()
      ensures ptr == HttpDecode.Decode(old(buf[..ptr])).len && ptr <= old(ptr)
      ensures ep in t.eps && t.GetWait(ep) == WRITE && t.ListOf(ep) == Some(ActiveList)
      ensures Touched(ep, old(t.State()), t.State())
    {
      var r := new ParseReq.Request();
      var hlen := r.HttpReq(buf[..ptr]);
      HttpDecode.DecodeWithin(buf[..ptr]);
      ptr := hlen;
      t.SetWait(ep, WRITE);
    }

    /** http_write: send the reply; anything taken means waiting for the
        next request, EAGAIN parks the endpoint and failure retires it. */
    method Write(t: IoThread, tx: Send)
      requires Valid() && t.Valid() && ep in t.eps
      requires tx.Sent? ==> tx.n <= |HELLO|
      modifies this`sent, t
      ensures Valid() && t.Valid() && ptr == old(ptr)
      ensures tx.Sent? && tx.n > 0 ==>
                sent == old(sent) + HELLO[..tx.n] && ep in t.eps && t.GetWait(ep) == READ && t.ListOf(ep) == Some(ActiveList)
      ensures tx.SendAgain? ==> sent == old(sent) && t.ListOf(ep) == Some(InactiveList) && t.eps == old(t.eps)
      ensures tx.SendFailed? || tx == Sent(0) ==> sent == old(sent) && t.ListOf(ep) == Some(DeletedList)
      ensures Touched(ep, old(t.State()), t.State())
    {
      match tx
      case SendAgain =>
        t.Inactive(ep);
      case SendFailed =>
        t.Del(ep);
      case Sent(n) =>
        if n == 0 {
          t.Del(ep);
        } else {
          sent := sent + HELLO[..n];
          t.SetWait(ep, READ);
        }
    }
  }

  /** http_conn: a new connection on socket endpoint `ep`, with an empty
      request buffer, waiting to read. When either allocation fails
      (connOk, bufOk) no connection is made and the socket is closed,
      which `closed` reports. */
  method Accept(t: IoThread, ep: nat, connOk: bool, bufOk: bool) returns (c: Conn?, closed: bool)
    requires t.Valid() && ep !in t.eps
    modifies t
    ensures t.Valid()
    ensures closed <==> !(connOk && bufOk)
    ensures c == null <==> closed
    ensures closed ==> unchanged(t)
    ensures c != null ==> fresh(c) && c.Valid() && c.ep == ep && c.Pending() == [] && c.sent == []
    ensures c != null ==> t.ListOf(ep) == Some(ActiveList) && ep in t.eps && t.GetWait(ep) == READ
    ensures Touched(ep, old(t.State()), t.State())
  {
    if !connOk || !bufOk {
      return null, true;
    }
    c := new Conn(ep);
    t.Add(ep, READ);
    closed := false;
  }
}
