/** The part of `struct http_conn` (include/ashttpd.h) that the file
    transmission strategies work on: the connection state, the data
    buffer, and the window of the file still to be sent as an offset and
    a remaining length. The results of the system calls a strategy makes
    are given to it as values. */
module IoConn {
  import opened Bytes
  import HttpBuf

  const HTTP_CONN_REQUEST: nat := 0
  const HTTP_CONN_HEADER: nat := 1
  const HTTP_CONN_DATA: nat := 2

  /** EAGAIN, as Linux numbers it; kernel AIO reports errors as -errno. */
  const EAGAIN: int := 11

  /** What send or sendfile reported: a count, EAGAIN, or 0 or another error. */
  datatype SendRet = Sent(n: nat) | SendAgain | SendFailed

  /** What a positional read of the file reported: the bytes it read and
      whether it hit the end of the file, or failure. */
  datatype ReadRet = ReadBytes(bytes: seq<byte>, eof: bool) | ReadFailed

  class Conn {
    /** The connection's endpoint in its I/O thread. */
    const ep: nat
    /** h_state: HTTP_CONN_REQUEST, HTTP_CONN_HEADER or HTTP_CONN_DATA. */
    var state: nat
    /** h_dat, the data buffer while a file is being sent. */
    var dat: HttpBuf.Buf?
    /** h_data_off and h_data_len: the part of the file not yet read. */
    var dataOff: nat
    var dataLen: nat
    /** The bytes the socket has taken, in order. */
    var sent: seq<byte>

    ghost predicate Valid()
      reads this, dat
    {
      dat != null ==> dat.Valid()
    }

    /** Free space at the data buffer's write cursor. */
    function Free(): nat
      reads this, dat
      requires dat != null && Valid()
    {
      dat.data.Length - dat.wr
    }

    constructor(ep: nat)
      ensures Valid() && this.ep == ep && state == HTTP_CONN_REQUEST && dat == null
      ensures dataOff == 0 && dataLen == 0 && sent == []
    {
      this.ep := ep;
      state := HTTP_CONN_REQUEST;
      dat := null;
      dataOff, dataLen := 0, 0;
      sent := [];
    }
  }

  /** What the kernel does for a read into the buffer: the bytes land at
      the write cursor and nothing before it changes. */
  method Store(b: HttpBuf.Buf, bytes: seq<byte>)
    requires b.Valid() && |bytes| <= b.data.Length - b.wr
    modifies b.data
    ensures b.data[..b.wr] == old(b.data[..b.wr])
    ensures b.data[b.wr..b.wr + |bytes|] == bytes
  {
    var i := 0;
    while i < |bytes|
      invariant 0 <= i <= |bytes|
      invariant forall j :: 0 <= j < b.wr ==> b.data[j] == old(b.data[j])
      invariant forall j :: 0 <= j < i ==> b.data[b.wr + j] == bytes[j]
    {
      b.data[b.wr + i] := bytes[i];
      i := i + 1;
    }
  }

  /** Storing then publishing bytes appends them to the unread bytes. */
  method Append(b: HttpBuf.Buf, bytes: seq<byte>)
    requires b.Valid() && |bytes| <= b.data.Length - b.wr
    modifies b`wr, b.data
    ensures b.Valid() && b.rd == old(b.rd) && b.wr == old(b.wr) + |bytes|
    ensures b.Unread() == old(b.Unread()) + bytes
  {
    ghost var u := b.Unread();
    Store(b, bytes);
    assert b.data[b.rd..b.wr] == b.data[..b.wr][b.rd..];
    assert old(b.data[b.rd..b.wr]) == old(b.data[..b.wr])[b.rd..];
    var _ := b.DoneWrite(|bytes|);
  }
}
