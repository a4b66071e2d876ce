/** http_req (http_req.c): decodes a request head into `struct
    http_request`, then derives the connection-close flag, splits the
    Host header into hostname and port, and defaults an absent URI to
    "/". The header table is searched by dispatch_hdr, so it must be in
    vstrcmp order; the table in the source is not (see LabelsAsWritten). */
module HttpReq {
  import opened Bytes
  import opened Vec
  import opened HttpDecode
  import opened HttpParse

  const HTTP_DEFAULT_PORT: int := 80

  const HOST_LABEL: seq<byte> := Str("Host")
  const CONNECTION_LABEL: seq<byte> := Str("Connection")
  const CONTENT_LENGTH_LABEL: seq<byte> := Str("Content-Length")

  /** Labels of hcb[3..] in the order the source lists them. */
  const LabelsAsWritten: seq<seq<byte>> := [HOST_LABEL, CONNECTION_LABEL, CONTENT_LENGTH_LABEL]

  /** The same entries in vstrcmp order, as dispatch_hdr needs them. */
  const Labels: seq<seq<byte>> := [CONNECTION_LABEL, CONTENT_LENGTH_LABEL, HOST_LABEL]
  const CONNECTION: nat := 0
  const CONTENT_LENGTH: nat := 1
  const HOST: nat := 2

  /** close_token, and the abs_path an empty one stands for. */
  const CLOSE: seq<byte> := Str("Close")
  const ROOT: seq<byte> := Str("/")

  /** The fields of `struct http_request` that http_req may write;
      query and etag it leaves alone. A NULL v_ptr is None; requestMethod
      is the `method` field. */
  datatype Fields = Fields(requestMethod: Option<seq<byte>>, host: Option<seq<byte>>, uri: Option<seq<byte>>,
                           hostname: Option<seq<byte>>, contentLen: nat, port: int, protoVers: int,
                           connClose: bool)

  // ---------------------------------------------------------------------
  // Header values

  /** r->host after the header lines: the last Host value, if any. */
  function HostAfter(host: Option<seq<byte>>, hs: seq<Header>): Option<seq<byte>>
  {
    match LastDispatched(Labels, hs, HOST)
    case Some(v) => Some(v)
    case None => host
  }

  /** The local `connection`: the last Connection value, else empty. */
  function ConnectionValue(hs: seq<Header>): seq<byte>
  {
    match LastDispatched(Labels, hs, CONNECTION)
    case Some(v) => v
    case None => []
  }

  /** The local `clen`: htype_int of the last Content-Length value, else -1. */
  function ContentLength(hs: seq<Header>): int
  {
    match LastDispatched(Labels, hs, CONTENT_LENGTH)
    case Some(v) => IntField(v)
    case None => -1
  }

  // ---------------------------------------------------------------------
  // Host and port

  /** The position of the last ':' in h, if any. */
  function LastColon(h: seq<byte>): (r: Option<nat>)
    ensures r.Some? ==> r.value < |h| && h[r.value] == COLON && forall j :: r.value < j < |h| ==> h[j] != COLON
    ensures r.None? ==> forall j :: 0 <= j < |h| ==> h[j] != COLON
  {
    if h == [] then None
    else if h[|h| - 1] == COLON then Some(|h| - 1)
    else
      var r := LastColon(h[..|h| - 1]);
      assert forall j :: 0 <= j < |h| - 1 ==> h[..|h| - 1][j] == h[j];
      r
  }

  /** The port a suffix gives: its value when it is a non-empty run of
      digits whose value, wrapped to 32 bits by vtouint, fits in 16 bits;
      the default port otherwise. */
  function PortDigits(d: seq<byte>): int
  {
    if d != [] && DigitRun(d) == |d| && Decimal(d) % TWO32 <= 0xffff then Decimal(d) % TWO32
    else HTTP_DEFAULT_PORT
  }

  /** hostname: the host cut before its last ':'. */
  function HostnameOf(h: seq<byte>): seq<byte>
  {
    match LastColon(h)
    case Some(c) => h[..c]
    case None => h
  }

  /** port: from the bytes after the host's last ':', else the default. */
  function PortOf(h: seq<byte>): int
  {
    match LastColon(h)
    case Some(c) => PortDigits(h[c + 1..])
    case None => HTTP_DEFAULT_PORT
  }

  lemma {:induction false} LastColonIs(h: seq<byte>, c: nat)
    requires c < |h| && h[c] == COLON && forall j :: c < j < |h| ==> h[j] != COLON
    ensures LastColon(h) == Some(c)
  {
  }

  /** The backwards scan for ':' and the port check. */
  method SplitHost(h: seq<byte>) returns (hostname: seq<byte>, port: int)
    ensures hostname == HostnameOf(h) && port == PortOf(h)
  {
    hostname, port := h, HTTP_DEFAULT_PORT;
    var digits: seq<byte> := [];
    var i: nat := |h|;
    while i > 0
      invariant i <= |h|
      invariant forall j :: i <= j < |h| ==> h[j] != COLON
      decreases i
    {
      if h[i - 1] == COLON {
        LastColonIs(h, i - 1);
        digits := h[i..];
        hostname := h[..i - 1];
        break;
      }
      i := i - 1;
    }
    if |digits| > 0 {
      var n, prt := VToUint(digits);
      DigitRunUnique(digits, n);
      if n == |digits| {
        assert digits[..n] == digits;
        // prt & ~0xffff is zero exactly when prt fits in 16 bits
        if prt <= 0xffff {
          port := prt;
        }
      }
    }
  }

  /** A hostname, ':' and a decimal port up to 65535 split back into the
      two, whatever colons the hostname holds. */
  lemma {:induction false} HostPortRoundTrip(name: seq<byte>, d: seq<byte>)
    requires d != [] && (forall i :: 0 <= i < |d| ==> IsDigit(d[i])) && Decimal(d) <= 0xffff
    ensures HostnameOf(name + [COLON] + d) == name
    ensures PortOf(name + [COLON] + d) == Decimal(d)
  {
    var h := name + [COLON] + d;
    assert forall j :: |name| < j < |h| ==> h[j] == d[j - |name| - 1];
    LastColonIs(h, |name|);
    assert h[..|name|] == name && h[|name| + 1..] == d;
    DigitRunUnique(d, |d|);
  }

  /** A host without ':' is its own hostname, on the default port. */
  lemma {:induction false} HostWithoutPort(h: seq<byte>)
    requires forall j :: 0 <= j < |h| ==> h[j] != COLON
    ensures HostnameOf(h) == h && PortOf(h) == HTTP_DEFAULT_PORT
  {
  }

  // ---------------------------------------------------------------------
  // The whole request

  /** What http_req leaves in *r, from what r held before (r0) and the
      bytes: the header handlers and the first-line handlers fire during
      decoding; the rest happens only when decoding succeeded. */
  function Parsed(r0: Fields, d: Decoded): Fields
  {
    var r1 := Scanned(r0, d);
    if d.len == 0 then r1 else Completed(r1, d.third, d.headers)
  }

  /** What the handlers leave while the head is scanned: r->host from the
      header lines, and method and uri when the first line was complete. */
  function Scanned(r0: Fields, d: Decoded): Fields
  {
    r0.(host := HostAfter(r0.host, d.headers),
        requestMethod := if d.called then Some(d.first) else r0.requestMethod,
        uri := if d.called then Some(d.second) else r0.uri)
  }

  /** The steps after a successful decode: version, content length,
      close flag, hostname and port, and the "/" default. */
  function Completed(r1: Fields, third: seq<byte>, hs: seq<Header>): Fields
  {
    var pv := ProtoVersion(Some(third));
    var clen := ContentLength(hs);
    var r2 := r1.(protoVers := pv,
                  contentLen := if clen > 0 then clen else r1.contentLen,
                  connClose := pv < HTTP_VER_1_1 || CompareFast(Lower(ConnectionValue(hs)), Lower(CLOSE)) == 0);
    var r3 := match r2.host
              case Some(h) => r2.(hostname := Some(HostnameOf(h)), port := PortOf(h))
              case None => r2.(port := HTTP_DEFAULT_PORT);
    if r3.uri.None? then r3.(uri := Some(ROOT)) else r3
  }

  class Request {
    var requestMethod: Option<seq<byte>>
    var host: Option<seq<byte>>
    var uri: Option<seq<byte>>
    var hostname: Option<seq<byte>>
    var contentLen: nat
    var port: int
    var protoVers: int
    var connClose: bool

    function Snapshot(): Fields
      reads this
    {
      Fields(requestMethod, host, uri, hostname, contentLen, port, protoVers, connClose)
    }

    /** http_req: returns the head's length, 0 when decoding fails. */
    method HttpReq(p: seq<byte>) returns (hlen: nat)
      modifies this
      ensures hlen == Decode(p).len
      ensures Snapshot() == Parsed(old(Snapshot()), Decode(p))
    {
      var ret, line, hdrs := DecodeBuf(p);
      ghost var d := Decode(p);
      var hs := Cuts(p, hdrs);
      var connection, clen := TakeHeaders(hs);
      if line.first.len != 0 && line.second.len != 0 {
        requestMethod := Some(Cut(p, line.first));
        uri := Some(Cut(p, line.second));
      }
      assert Snapshot() == Scanned(old(Snapshot()), d);
      hlen := ret;
      if ret != 0 {
        Complete(Cut(p, line.third), connection, clen, hs);
      }
    }

    /** The header handlers, run on each header line in turn: Host into
        r->host, Connection and Content-Length into locals. */
    method TakeHeaders(hs: seq<Header>) returns (connection: seq<byte>, clen: int)
      modifies this
      ensures Snapshot() == old(Snapshot()).(host := HostAfter(old(host), hs))
      ensures connection == ConnectionValue(hs) && clen == ContentLength(hs)
    {
      ghost var r0 := Snapshot();
      LabelsNoNul();
      connection, clen := [], -1;
      var j := 0;
      while j < |hs|
        invariant j <= |hs|
        invariant Snapshot() == r0.(host := HostAfter(r0.host, hs[..j]))
        invariant connection == ConnectionValue(hs[..j]) && clen == ContentLength(hs[..j])
      {
        var e := DispatchHdr(Labels, hs[j].0);
        assert hs[..j + 1] == hs[..j] + [hs[j]];
        LastDispatchedSnoc(Labels, hs[..j], hs[j], CONNECTION);
        LastDispatchedSnoc(Labels, hs[..j], hs[j], CONTENT_LENGTH);
        LastDispatchedSnoc(Labels, hs[..j], hs[j], HOST);
        if e == Some(CONNECTION) {
          connection := hs[j].1;
        } else if e == Some(CONTENT_LENGTH) {
          clen := HtypeInt(hs[j].1);
        } else if e == Some(HOST) {
          host := Some(hs[j].1);
        }
        j := j + 1;
      }
      assert hs[..|hs|] == hs;
    }

    /** After a successful decode. */
    method Complete(pv: seq<byte>, connection: seq<byte>, clen: int, ghost hs: seq<Header>)
      requires connection == ConnectionValue(hs) && clen == ContentLength(hs)
      modifies this
      ensures Snapshot() == Completed(old(Snapshot()), pv, hs)
    {
      protoVers := ProtoVersion(Some(pv));
      if clen > 0 {
        contentLen := clen;
      }
      if protoVers >= HTTP_VER_1_1 {
        var c := VCaseCmpFast(connection, CLOSE);
        connClose := c == 0;
      } else {
        connClose := true;
      }
      port := HTTP_DEFAULT_PORT;
      if host.Some? {
        var name, prt := SplitHost(host.value);
        hostname, port := Some(name), prt;
      }
      if uri.None? {
        uri := Some(ROOT);
      }
    }
  }

  lemma LabelsNoNul()
    ensures forall j :: 0 <= j < |Labels| ==> NoNul(Labels[j])
  {
  }

  // ---------------------------------------------------------------------
  // Properties

  /** The table in vstrcmp order is sorted. */
  lemma {:induction false} LabelsSorted()
    ensures Sorted(Labels)
  {
    Below(Lower(CONNECTION_LABEL), Lower(CONTENT_LENGTH_LABEL), 3);
    Below(Lower(CONTENT_LENGTH_LABEL), Lower(HOST_LABEL), 0);
  }

  /** As written, dispatch_hdr never finds "Host": it compares with
      "Connection", goes right, compares with "Content-Length", goes right
      and runs out. */
  lemma {:induction false} HostMissedAsWritten(k: seq<byte>)
    requires Lower(k) == Lower(HOST_LABEL)
    ensures Dispatch(LabelsAsWritten, k) == None
  {
    var h := Lower(HOST_LABEL);
    Above(h, Lower(CONNECTION_LABEL), 0);
    Above(h, Lower(CONTENT_LENGTH_LABEL), 0);
    assert Search(LabelsAsWritten, k, 3, 0) == None;
    assert Search(LabelsAsWritten, k, 2, 1) == None;
  }

  /** ... so with the table as written no Host header ever reaches r->host. */
  lemma {:induction false} HostIgnoredAsWritten(hs: seq<Header>)
    ensures LastDispatched(LabelsAsWritten, hs, 0) == None
  {
    forall k | true
      ensures Dispatch(LabelsAsWritten, k) != Some(0)
    {
      if Dispatch(LabelsAsWritten, k) == Some(0) {
        HostMissedAsWritten(k);
      }
    }
    NeverDispatched(LabelsAsWritten, hs, 0);
  }

  /** Each header value is that of the last line whose key equals the
      label up to case. */
  lemma {:induction false} HeaderValues(hs: seq<Header>, host: Option<seq<byte>>)
    ensures HostAfter(host, hs) == (if LastValue(hs, HOST_LABEL).Some? then LastValue(hs, HOST_LABEL) else host)
    ensures ConnectionValue(hs) == (if LastValue(hs, CONNECTION_LABEL).Some? then LastValue(hs, CONNECTION_LABEL).value else [])
    ensures ContentLength(hs) == (if LastValue(hs, CONTENT_LENGTH_LABEL).Some? then IntField(LastValue(hs, CONTENT_LENGTH_LABEL).value) else -1)
  {
    LabelsSorted();
    LastDispatchedIs(Labels, hs, CONNECTION);
    LastDispatchedIs(Labels, hs, CONTENT_LENGTH);
    LastDispatchedIs(Labels, hs, HOST);
  }

  /** Once decoding succeeded: for HTTP/1.1 and above (and the unknown
      code 0xff) the connection closes exactly when the last Connection
      value is "close" in any case; below 1.1 it always closes. */
  lemma {:induction false} ConnCloseRule(r0: Fields, d: Decoded)
    requires d.len != 0
    ensures var c := LastValue(d.headers, CONNECTION_LABEL);
      Parsed(r0, d).connClose <==>
        ProtoVersion(Some(d.third)) < HTTP_VER_1_1 || (c.Some? && Lower(c.value) == Lower(CLOSE))
  {
    var hs := d.headers;
    HeaderValues(hs, r0.host);
    CompareFastZeroIffEqual(Lower(ConnectionValue(hs)), Lower(CLOSE));
  }

  /** Once decoding succeeded: content_len is set only by a positive
      Content-Length, and the first line lands in method, uri and
      proto_vers, so the "/" default never replaces a decoded uri. */
  lemma {:induction false} FirstLineAndLength(r0: Fields, d: Decoded)
    requires d.len != 0 && d.called
    ensures var c := LastValue(d.headers, CONTENT_LENGTH_LABEL);
      Parsed(r0, d).contentLen == (if c.Some? && IntField(c.value) > 0 then IntField(c.value) else r0.contentLen)
    ensures Parsed(r0, d).requestMethod == Some(d.first) && Parsed(r0, d).uri == Some(d.second)
    ensures Parsed(r0, d).protoVers == ProtoVersion(Some(d.third))
  {
    HeaderValues(d.headers, r0.host);
  }

  /** Once decoding succeeded: with a host (from the last Host header, or
      as r held it), hostname and port are its split; without, the port
      is 80 and hostname is untouched. */
  lemma {:induction false} HostAndPort(r0: Fields, d: Decoded)
    requires d.len != 0
    ensures var hv := LastValue(d.headers, HOST_LABEL);
      var h := if hv.Some? then hv else r0.host;
      Parsed(r0, d).host == h
      && (h.Some? ==> Parsed(r0, d).hostname == Some(HostnameOf(h.value)) && Parsed(r0, d).port == PortOf(h.value))
      && (h.None? ==> Parsed(r0, d).hostname == r0.hostname && Parsed(r0, d).port == HTTP_DEFAULT_PORT)
  {
    HeaderValues(d.headers, r0.host);
  }

  /** When decoding fails only the handlers that ran during the scan have
      written: version, length, close flag, hostname and port keep what r
      held. */
  lemma {:induction false} FailureKeeps(r0: Fields, d: Decoded)
    requires d.len == 0
    ensures Parsed(r0, d).(requestMethod := r0.requestMethod, uri := r0.uri, host := r0.host) == r0
  {
  }

  /** A request head rendered as "m u HTTP/1.1" and well-formed header
      lines is read back: method and uri are m and u, the version is
      HTTP_VER_1_1, and the connection closes exactly when the last
      Connection header says "close" in any case. */
  lemma {:induction false} RequestRoundTrip(r0: Fields, p: seq<byte>, m: seq<byte>, u: seq<byte>, hs: seq<Header>)
    requires Token(m) && Token(u) && forall j :: 0 <= j < |hs| ==> GoodHeader(hs[j])
    requires At(p, 0, HeadText(m, u, VersionText(1, 1), hs))
    ensures var r := Parsed(r0, Decode(p));
      var c := LastValue(hs, CONNECTION_LABEL);
      r.requestMethod == Some(m) && r.uri == Some(u) && r.protoVers == HTTP_VER_1_1
      && (r.connClose <==> c.Some? && Lower(c.value) == Lower(CLOSE))
  {
    var v := VersionText(1, 1);
    assert LastField(v);
    RoundTrip(p, m, u, v, hs);
    ProtoVersionOfText(1, 1);
    FirstLineAndLength(r0, Decode(p));
    ConnCloseRule(r0, Decode(p));
  }
}
