/** http_resp (http_resp.c): decodes a response head into `struct
    http_response`: the status line gives the version and the status
    code, the header lines the content fields, and the Connection value
    the close flag. As with requests, the header table must be in
    vstrcmp order for dispatch_hdr; the source's is not. */
module HttpResp {
  import opened Bytes
  import opened Vec
  import opened HttpDecode
  import opened HttpParse

  const CONNECTION_LABEL: seq<byte> := Str("Connection")
  const CONTENT_TYPE_LABEL: seq<byte> := Str("Content-Type")
  const CONTENT_LENGTH_LABEL: seq<byte> := Str("Content-Length")
  const CONTENT_ENCODING_LABEL: seq<byte> := Str("Content-Encoding")
  const TRANSFER_ENCODING_LABEL: seq<byte> := Str("Transfer-Encoding")
  const CLOSE: seq<byte> := Str("Close")

  /** Labels of hcb[3..] in the order the source lists them. */
  const LabelsAsWritten: seq<seq<byte>> :=
    [CONNECTION_LABEL, CONTENT_TYPE_LABEL, CONTENT_LENGTH_LABEL, CONTENT_ENCODING_LABEL, TRANSFER_ENCODING_LABEL]

  /** The same entries in vstrcmp order. */
  const Labels: seq<seq<byte>> :=
    [CONNECTION_LABEL, CONTENT_ENCODING_LABEL, CONTENT_LENGTH_LABEL, CONTENT_TYPE_LABEL, TRANSFER_ENCODING_LABEL]
  const CONNECTION: nat := 0
  const CONTENT_ENCODING: nat := 1
  const CONTENT_LENGTH: nat := 2
  const CONTENT_TYPE: nat := 3
  const TRANSFER_ENCODING: nat := 4

  /** The fields of `struct http_response` that http_resp may write
      (host it leaves alone). */
  datatype Fields = Fields(contentLen: nat, code: int, protoVers: int, connClose: bool,
                           transferEnc: Option<seq<byte>>, contentType: Option<seq<byte>>,
                           contentEnc: Option<seq<byte>>)

  /** A string field after the header lines: the last value dispatched to
      entry j, else what it held. */
  function FieldAfter(old_: Option<seq<byte>>, hs: seq<Header>, j: nat): Option<seq<byte>>
  {
    match LastDispatched(Labels, hs, j)
    case Some(v) => Some(v)
    case None => old_
  }

  /** The local `connection`: the last Connection value, else empty. */
  function ConnectionValue(hs: seq<Header>): seq<byte>
  {
    match LastDispatched(Labels, hs, CONNECTION)
    case Some(v) => v
    case None => []
  }

  /** The local `clen`: htype_int of the last Content-Length value, else -1. */
  function ContentLength(hs: seq<Header>): int
  {
    match LastDispatched(Labels, hs, CONTENT_LENGTH)
    case Some(v) => IntField(v)
    case None => -1
  }

  /** What http_resp leaves in *r, from what it held before (r0) and the
      decoded head. */
  function Parsed(r0: Fields, d: Decoded): Fields
  {
    var r1 := Scanned(r0, d);
    if d.len == 0 then r1 else Completed(r1, d.first, d.headers)
  }

  /** What the handlers leave while the head is scanned: the three string
      fields from the header lines, and the status code when the status
      line was complete (the message has no destination). */
  function Scanned(r0: Fields, d: Decoded): Fields
  {
    var hs := d.headers;
    r0.(contentType := FieldAfter(r0.contentType, hs, CONTENT_TYPE),
        contentEnc := FieldAfter(r0.contentEnc, hs, CONTENT_ENCODING),
        transferEnc := FieldAfter(r0.transferEnc, hs, TRANSFER_ENCODING),
        code := if d.called then CodeField(d.second) else r0.code)
  }

  /** The steps after a successful decode: content length, close flag, version. */
  function Completed(r1: Fields, pv: seq<byte>, hs: seq<Header>): Fields
  {
    var clen := ContentLength(hs);
    r1.(contentLen := if clen > 0 then clen else r1.contentLen,
        connClose := CompareFast(Lower(ConnectionValue(hs)), Lower(CLOSE)) == 0,
        protoVers := ProtoVersion(Some(pv)))
  }

  class Response {
    var contentLen: nat
    var code: int
    var protoVers: int
    var connClose: bool
    var transferEnc: Option<seq<byte>>
    var contentType: Option<seq<byte>>
    var contentEnc: Option<seq<byte>>

    function Snapshot(): Fields
      reads this
    {
      Fields(contentLen, code, protoVers, connClose, transferEnc, contentType, contentEnc)
    }

    /** http_resp: returns the head's length, 0 when decoding fails. */
    method HttpResp(p: seq<byte>) returns (hlen: nat)
      modifies this
      ensures hlen == Decode(p).len
      ensures Snapshot() == Parsed(old(Snapshot()), Decode(p))
    {
      var ret, line, hdrs := DecodeBuf(p);
      ghost var d := Decode(p);
      var hs := Cuts(p, hdrs);
      var connection, clen := TakeHeaders(hs);
      if line.first.len != 0 && line.second.len != 0 {
        code := HtypeCode(Cut(p, line.second));
      }
      assert Snapshot() == Scanned(old(Snapshot()), d);
      hlen := ret;
      if ret != 0 {
        Complete(Cut(p, line.first), connection, clen, hs);
      }
    }

    /** The header handlers, run on each header line in turn. */
    method TakeHeaders(hs: seq<Header>) returns (connection: seq<byte>, clen: int)
      modifies this
      ensures Snapshot() == old(Snapshot()).(contentType := FieldAfter(old(contentType), hs, CONTENT_TYPE),
                                             contentEnc := FieldAfter(old(contentEnc), hs, CONTENT_ENCODING),
                                             transferEnc := FieldAfter(old(transferEnc), hs, TRANSFER_ENCODING))
      ensures connection == ConnectionValue(hs) && clen == ContentLength(hs)
    {
      ghost var r0 := Snapshot();
      LabelsNoNul();
      connection, clen := [], -1;
      var j := 0;
      while j < |hs|
        invariant j <= |hs|
        invariant Snapshot() == r0.(contentType := FieldAfter(r0.contentType, hs[..j], CONTENT_TYPE),
                                    contentEnc := FieldAfter(r0.contentEnc, hs[..j], CONTENT_ENCODING),
                                    transferEnc := FieldAfter(r0.transferEnc, hs[..j], TRANSFER_ENCODING))
        invariant connection == ConnectionValue(hs[..j]) && clen == ContentLength(hs[..j])
      {
        var e := DispatchHdr(Labels, hs[j].0);
        assert hs[..j + 1] == hs[..j] + [hs[j]];
        LastDispatchedSnoc(Labels, hs[..j], hs[j], CONNECTION);
        LastDispatchedSnoc(Labels, hs[..j], hs[j], CONTENT_ENCODING);
        LastDispatchedSnoc(Labels, hs[..j], hs[j], CONTENT_LENGTH);
        LastDispatchedSnoc(Labels, hs[..j], hs[j], CONTENT_TYPE);
        LastDispatchedSnoc(Labels, hs[..j], hs[j], TRANSFER_ENCODING);
        if e == Some(CONNECTION) {
          connection := hs[j].1;
        } else if e == Some(CONTENT_ENCODING) {
          contentEnc := Some(hs[j].1);
        } else if e == Some(CONTENT_LENGTH) {
          clen := HtypeInt(hs[j].1);
        } else if e == Some(CONTENT_TYPE) {
          contentType := Some(hs[j].1);
        } else if e == Some(TRANSFER_ENCODING) {
          transferEnc := Some(hs[j].1);
        }
        j := j + 1;
      }
      assert hs[..|hs|] == hs;
    }

    /** After a successful decode. */
    method Complete(pv: seq<byte>, connection: seq<byte>, clen: int, ghost hs: seq<Header>)
      requires connection == ConnectionValue(hs) && clen == ContentLength(hs)
      modifies this
      ensures Snapshot() == Completed(old(Snapshot()), pv, hs)
    {
      if clen > 0 {
        contentLen := clen;
      }
      var c := VCaseCmpFast(connection, CLOSE);
      connClose := c == 0;
      protoVers := ProtoVersion(Some(pv));
    }
  }

  lemma LabelsNoNul()
    ensures forall j :: 0 <= j < |Labels| ==> NoNul(Labels[j])
  {
  }

  // ---------------------------------------------------------------------
  // Properties

  /** The table in vstrcmp order is sorted. */
  lemma {:induction false} LabelsSorted()
    ensures Sorted(Labels)
  {
    Below(Lower(CONNECTION_LABEL), Lower(CONTENT_ENCODING_LABEL), 3);
    Below(Lower(CONTENT_ENCODING_LABEL), Lower(CONTENT_LENGTH_LABEL), 8);
    Below(Lower(CONTENT_LENGTH_LABEL), Lower(CONTENT_TYPE_LABEL), 8);
    Below(Lower(CONTENT_TYPE_LABEL), Lower(TRANSFER_ENCODING_LABEL), 0);
  }

  /** As written, "Content-Type" is compared with Content-Length (goes
      right), Transfer-Encoding (goes left) and Content-Encoding (goes
      right) and is not found. */
  lemma {:induction false} ContentTypeMissedAsWritten(k: seq<byte>)
    requires Lower(k) == Lower(CONTENT_TYPE_LABEL)
    ensures Dispatch(LabelsAsWritten, k) == None
  {
    var t := Lower(CONTENT_TYPE_LABEL);
    Above(t, Lower(CONTENT_LENGTH_LABEL), 8);
    Below(t, Lower(TRANSFER_ENCODING_LABEL), 0);
    Above(t, Lower(CONTENT_ENCODING_LABEL), 8);
    assert Search(LabelsAsWritten, k, 4, 0) == None;
    assert Search(LabelsAsWritten, k, 3, 1) == None;
    assert Search(LabelsAsWritten, k, 3, 2) == None;
  }

  /** As written, "Content-Encoding" is compared with Content-Length (goes
      left), Content-Type (goes left) and Connection (goes right) and is
      not found. */
  lemma {:induction false} ContentEncodingMissedAsWritten(k: seq<byte>)
    requires Lower(k) == Lower(CONTENT_ENCODING_LABEL)
    ensures Dispatch(LabelsAsWritten, k) == None
  {
    var e := Lower(CONTENT_ENCODING_LABEL);
    Below(e, Lower(CONTENT_LENGTH_LABEL), 8);
    Below(e, Lower(CONTENT_TYPE_LABEL), 8);
    Above(e, Lower(CONNECTION_LABEL), 3);
    assert Search(LabelsAsWritten, k, 1, 0) == None;
    assert Search(LabelsAsWritten, k, 0, 1) == None;
    assert Search(LabelsAsWritten, k, 0, 2) == None;
  }

  /** ... so with the table as written Content-Type and Content-Encoding
      are never stored. */
  lemma {:induction false} ContentFieldsIgnoredAsWritten(hs: seq<Header>)
    ensures LastDispatched(LabelsAsWritten, hs, 1) == None
    ensures LastDispatched(LabelsAsWritten, hs, 3) == None
  {
    forall k | true
      ensures Dispatch(LabelsAsWritten, k) != Some(1) && Dispatch(LabelsAsWritten, k) != Some(3)
    {
      if Dispatch(LabelsAsWritten, k) == Some(1) {
        ContentTypeMissedAsWritten(k);
      }
      if Dispatch(LabelsAsWritten, k) == Some(3) {
        ContentEncodingMissedAsWritten(k);
      }
    }
    NeverDispatched(LabelsAsWritten, hs, 1);
    NeverDispatched(LabelsAsWritten, hs, 3);
  }

  /** Each header value is that of the last line whose key equals the
      label up to case. */
  lemma {:induction false} HeaderValues(hs: seq<Header>, r0: Fields)
    ensures var r := Scanned(r0, Decoded(0, false, [], [], [], hs));
      (LastValue(hs, CONTENT_TYPE_LABEL).Some? ==> r.contentType == LastValue(hs, CONTENT_TYPE_LABEL))
      && (LastValue(hs, CONTENT_TYPE_LABEL).None? ==> r.contentType == r0.contentType)
      && (LastValue(hs, CONTENT_ENCODING_LABEL).Some? ==> r.contentEnc == LastValue(hs, CONTENT_ENCODING_LABEL))
      && (LastValue(hs, CONTENT_ENCODING_LABEL).None? ==> r.contentEnc == r0.contentEnc)
      && (LastValue(hs, TRANSFER_ENCODING_LABEL).Some? ==> r.transferEnc == LastValue(hs, TRANSFER_ENCODING_LABEL))
      && (LastValue(hs, TRANSFER_ENCODING_LABEL).None? ==> r.transferEnc == r0.transferEnc)
    ensures ConnectionValue(hs) == (if LastValue(hs, CONNECTION_LABEL).Some? then LastValue(hs, CONNECTION_LABEL).value else [])
    ensures ContentLength(hs) == (if LastValue(hs, CONTENT_LENGTH_LABEL).Some? then IntField(LastValue(hs, CONTENT_LENGTH_LABEL).value) else -1)
  {
    LabelsSorted();
    LastDispatchedIs(Labels, hs, CONNECTION);
    LastDispatchedIs(Labels, hs, CONTENT_ENCODING);
    LastDispatchedIs(Labels, hs, CONTENT_LENGTH);
    LastDispatchedIs(Labels, hs, CONTENT_TYPE);
    LastDispatchedIs(Labels, hs, TRANSFER_ENCODING);
  }

  /** Once decoding succeeded the connection closes exactly when the last
      Connection value is "close" in any case, whatever the version; the
      content length is set only by a positive Content-Length. */
  lemma {:induction false} CloseAndLength(r0: Fields, d: Decoded)
    requires d.len != 0
    ensures var c := LastValue(d.headers, CONNECTION_LABEL);
      Parsed(r0, d).connClose <==> c.Some? && Lower(c.value) == Lower(CLOSE)
    ensures var c := LastValue(d.headers, CONTENT_LENGTH_LABEL);
      Parsed(r0, d).contentLen == (if c.Some? && IntField(c.value) > 0 then IntField(c.value) else r0.contentLen)
  {
    HeaderValues(d.headers, r0);
    CompareFastZeroIffEqual(Lower(ConnectionValue(d.headers)), Lower(CLOSE));
  }

  /** A status line "HTTP/X.Y ddd msg" and well-formed header lines are
      read back: version (X << 4) | Y and status code ddd. */
  lemma {:induction false} ResponseRoundTrip(r0: Fields, p: seq<byte>, maj: nat, min: nat, code: seq<byte>,
                                             msg: seq<byte>, hs: seq<Header>)
    requires maj < 10 && min < 10 && |code| == 3 && forall i :: 0 <= i < 3 ==> IsDigit(code[i])
    requires LastField(msg) && forall j :: 0 <= j < |hs| ==> GoodHeader(hs[j])
    requires At(p, 0, HeadText(VersionText(maj, min), code, msg, hs))
    ensures Parsed(r0, Decode(p)).protoVers == 16 * maj + min
    ensures Parsed(r0, Decode(p)).code == Decimal(code)
  {
    var v := VersionText(maj, min);
    assert Token(v);
    assert Token(code);
    RoundTrip(p, v, code, msg, hs);
    ProtoVersionOfText(maj, min);
    CodeFieldOfDigits(code, []);
    assert code + [] == code;
  }
}
