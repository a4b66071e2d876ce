/** http_req as http_parse.c defines it: the request decoder with the
    larger header table (content fields, Proxy-Connection), the stripping
    of an absolute Request-URI ("http://host/path") down to its abs_path,
    with the host taken from the URI when no Host header gave one, and the
    port cut off the host. */
module ParseReq {
  import opened Bytes
  import opened Vec
  import opened HttpDecode
  import opened HttpParse
  import HR = HttpReq

  const HOST_LABEL: seq<byte> := Str("Host")
  const CONTENT_TYPE_LABEL: seq<byte> := Str("Content-Type")
  const CONTENT_LENGTH_LABEL: seq<byte> := Str("Content-Length")
  const PROXY_CONNECTION_LABEL: seq<byte> := Str("Proxy-Connection")
  const CONTENT_ENCODING_LABEL: seq<byte> := Str("Content-Encoding")
  const TRANSFER_ENCODING_LABEL: seq<byte> := Str("Transfer-Encoding")
  const HTTP_SCHEME: seq<byte> := Str("http://")

  /** Labels of hcb[3..] in the order the source lists them. */
  const LabelsAsWritten: seq<seq<byte>> :=
    [HOST_LABEL, CONTENT_TYPE_LABEL, CONTENT_LENGTH_LABEL, PROXY_CONNECTION_LABEL,
     CONTENT_ENCODING_LABEL, TRANSFER_ENCODING_LABEL]

  /** The same entries in vstrcmp order. */
  const Labels: seq<seq<byte>> :=
    [CONTENT_ENCODING_LABEL, CONTENT_LENGTH_LABEL, CONTENT_TYPE_LABEL, HOST_LABEL,
     PROXY_CONNECTION_LABEL, TRANSFER_ENCODING_LABEL]
  const CONTENT_ENCODING: nat := 0
  const CONTENT_LENGTH: nat := 1
  const CONTENT_TYPE: nat := 2
  const HOST: nat := 3
  const PROXY_CONNECTION: nat := 4
  const TRANSFER_ENCODING: nat := 5

  /** The fields of `struct http_request` that http_req may write; the
      body `content` is represented by its length. */
  datatype Fields = Fields(requestMethod: Option<seq<byte>>, host: Option<seq<byte>>, uri: Option<seq<byte>>,
                           contentType: Option<seq<byte>>, contentEnc: Option<seq<byte>>,
                           transferEnc: Option<seq<byte>>, contentLen: nat, protoVers: int, port: int)

  /** A string field after the header lines: the last value dispatched to
      entry j, else what it held. */
  function FieldAfter(old_: Option<seq<byte>>, hs: seq<Header>, j: nat): Option<seq<byte>>
  {
    match LastDispatched(Labels, hs, j)
    case Some(v) => Some(v)
    case None => old_
  }

  /** The local `clen`: htype_int of the last Content-Length value, else -1. */
  function ContentLength(hs: seq<Header>): int
  {
    match LastDispatched(Labels, hs, CONTENT_LENGTH)
    case Some(v) => IntField(v)
    case None => -1
  }

  /** The local `prox`: htype_present sets it once any Proxy-Connection
      line is dispatched. */
  predicate Proxied(hs: seq<Header>)
  {
    LastDispatched(Labels, hs, PROXY_CONNECTION).Some?
  }

  // ---------------------------------------------------------------------
  // Absolute Request-URI

  /** The first position at or after `from` holding c. */
  function FirstFrom(s: seq<byte>, c: byte, from: nat): (r: Option<nat>)
    ensures r.Some? ==> from <= r.value < |s| && s[r.value] == c
    decreases |s| - from
  {
    if from >= |s| then None
    else if s[from] == c then Some(from)
    else FirstFrom(s, c, from + 1)
  }

  /** FirstFrom finds the first c: k when s[k] is c and nothing before it from `from` is. */
  lemma {:induction false} FirstFromIs(s: seq<byte>, c: byte, from: nat, k: nat)
    requires from <= k < |s| && s[k] == c && forall j :: from <= j < k ==> s[j] != c
    ensures FirstFrom(s, c, from) == Some(k)
    decreases k - from
  {
    if from < k {
      FirstFromIs(s, c, from + 1, k);
    }
  }

  /** FirstFrom finds nothing when there is no c from `from` on. */
  lemma {:induction false} FirstFromNone(s: seq<byte>, c: byte, from: nat)
    requires from <= |s| && NoneIn(s, c, from, |s|)
    ensures FirstFrom(s, c, from).None?
    decreases |s| - from
  {
    if from < |s| {
      FirstFromNone(s, c, from + 1);
    }
  }

  /** Position r, if any, is at or after i. */
  predicate NotBefore(r: Option<nat>, i: nat)
  {
    r.None? || r.value >= i
  }

  /** The positions the scan of an absolute URI passes: the first ':',
      the first two '/' after it and the third '/' if there is one. */
  datatype Marks = Marks(colon: nat, s1: nat, s2: nat, s3: Option<nat>)

  /** The marks of u; None when u lacks the ':' or the two '/' after it,
      which leaves the URI alone. */
  function MarksOf(u: seq<byte>): (r: Option<Marks>)
    ensures r.Some? ==> r.value.colon < r.value.s1 < r.value.s2 < |u|
    ensures r.Some? && r.value.s3.Some? ==> r.value.s2 < r.value.s3.value < |u|
  {
    AfterColon(u, FirstFrom(u, COLON, 0))
  }

  /** MarksOf, from the search for the first '/' after the colon on. */
  function AfterColon(u: seq<byte>, c: Option<nat>): Option<Marks>
    requires c.Some? ==> c.value < |u|
  {
    if c.None? then None else AfterSlash(u, c.value, FirstFrom(u, SLASH, c.value + 1))
  }

  function AfterSlash(u: seq<byte>, c: nat, s1: Option<nat>): Option<Marks>
    requires s1.Some? ==> c < s1.value < |u|
  {
    if s1.None? then None else AfterSlashes(u, c, s1.value, FirstFrom(u, SLASH, s1.value + 1))
  }

  function AfterSlashes(u: seq<byte>, c: nat, s1: nat, s2: Option<nat>): Option<Marks>
  {
    if s2.None? then None else Some(Marks(c, s1, s2.value, FirstFrom(u, SLASH, s2.value + 1)))
  }

  /** The abs_path left after stripping: from the third '/' on, empty
      when there is no third '/' or nothing follows it; None when the URI
      is not stripped. */
  function AbsPath(u: seq<byte>): Option<seq<byte>>
  {
    match MarksOf(u)
    case None => None
    case Some(m) => if m.s3.Some? && m.s3.value + 1 < |u| then Some(u[m.s3.value..]) else Some([])
  }

  /** The host the URI names: between its second and third '/' (or its end). */
  function AbsHost(u: seq<byte>): Option<seq<byte>>
  {
    match MarksOf(u)
    case None => None
    case Some(m) => Some(u[m.s2 + 1..if m.s3.Some? then m.s3.value else |u|])
  }

  /** The host as the source computes it: taken at the third '/', where
      the scan stops, so it is always empty. */
  function AbsHostAsWritten(u: seq<byte>): Option<seq<byte>>
  {
    match MarksOf(u)
    case None => None
    case Some(m) => if m.s3.Some? then Some([]) else None
  }

  /** The marks the scan has passed: how many (its state), and where. */
  datatype Seen = Seen(count: nat, colon: nat, s1: nat, s2: nat, s3: nat)

  /** The marks passed in u[..i]: the first ':', then up to three '/'
      after it. */
  function Passed(u: seq<byte>, i: nat): (p: Seen)
    requires i <= |u|
    ensures p.count <= 4
    ensures p.count >= 1 ==> p.colon < i
    ensures p.count >= 2 ==> p.colon < p.s1 < i
    ensures p.count >= 3 ==> p.s1 < p.s2 < i
    ensures p.count == 4 ==> p.s2 < p.s3 < i
  {
    if i == 0 then Seen(0, 0, 0, 0, 0)
    else
      var p := Passed(u, i - 1);
      var j := i - 1;
      if p.count == 0 && u[j] == COLON then p.(count := 1, colon := j)
      else if p.count == 1 && u[j] == SLASH then p.(count := 2, s1 := j)
      else if p.count == 2 && u[j] == SLASH then p.(count := 3, s2 := j)
      else if p.count == 3 && u[j] == SLASH then p.(count := 4, s3 := j)
      else p
  }

  /** No c in s[from..to]. */
  predicate NoneIn(s: seq<byte>, c: byte, from: nat, to: nat)
    requires to <= |s|
  {
    forall j :: from <= j < to ==> s[j] != c
  }

  /** The marks passed are the first ':' and the first '/' after each
      mark, and none of the next kind lies before i. */
  lemma {:induction false} PassedFirst(u: seq<byte>, i: nat)
    requires i <= |u|
    ensures var p := Passed(u, i); p.count == 0 ==> NoneIn(u, COLON, 0, i)
    ensures var p := Passed(u, i); p.count >= 1 ==> u[p.colon] == COLON && NoneIn(u, COLON, 0, p.colon)
    ensures var p := Passed(u, i); p.count == 1 ==> NoneIn(u, SLASH, p.colon + 1, i)
    ensures var p := Passed(u, i); p.count >= 2 ==> u[p.s1] == SLASH && NoneIn(u, SLASH, p.colon + 1, p.s1)
    ensures var p := Passed(u, i); p.count == 2 ==> NoneIn(u, SLASH, p.s1 + 1, i)
    ensures var p := Passed(u, i); p.count >= 3 ==> u[p.s2] == SLASH && NoneIn(u, SLASH, p.s1 + 1, p.s2)
    ensures var p := Passed(u, i); p.count == 3 ==> NoneIn(u, SLASH, p.s2 + 1, i)
    ensures var p := Passed(u, i); p.count == 4 ==> u[p.s3] == SLASH && NoneIn(u, SLASH, p.s2 + 1, p.s3)
  {
    if i > 0 {
      PassedFirst(u, i - 1);
      var q, j := Passed(u, i - 1), i - 1;
      if q.count == 0 && u[j] == COLON {
        assert Passed(u, i) == q.(count := 1, colon := j);
      } else if q.count == 1 && u[j] == SLASH {
        assert Passed(u, i) == q.(count := 2, s1 := j);
      } else if q.count == 2 && u[j] == SLASH {
        assert Passed(u, i) == q.(count := 3, s2 := j);
      } else if q.count == 3 && u[j] == SLASH {
        assert Passed(u, i) == q.(count := 4, s3 := j);
      } else {
        assert Passed(u, i) == q;
        if q.count == 0 {
          NoneInSnoc(u, COLON, 0, j);
        } else if q.count == 1 {
          NoneInSnoc(u, SLASH, q.colon + 1, j);
        } else if q.count == 2 {
          NoneInSnoc(u, SLASH, q.s1 + 1, j);
        } else if q.count == 3 {
          NoneInSnoc(u, SLASH, q.s2 + 1, j);
        }
      }
    }
  }

  /** A byte other than c after a run without c extends the run. */
  lemma NoneInSnoc(s: seq<byte>, c: byte, from: nat, to: nat)
    requires from <= to < |s| && NoneIn(s, c, from, to) && s[to] != c
    ensures NoneIn(s, c, from, to + 1)
  {
  }

  lemma MarksFrom(u: seq<byte>, c: nat, s1: nat, s2: nat, s3: Option<nat>)
    requires FirstFrom(u, COLON, 0) == Some(c) && FirstFrom(u, SLASH, c + 1) == Some(s1)
    requires FirstFrom(u, SLASH, s1 + 1) == Some(s2) && FirstFrom(u, SLASH, s2 + 1) == s3
    ensures MarksOf(u) == Some(Marks(c, s1, s2, s3))
  {
    StageColon(u, c);
    StageSlash(u, c, s1);
    StageSlashes(u, c, s1, s2, s3);
  }

  lemma StageColon(u: seq<byte>, c: nat)
    requires FirstFrom(u, COLON, 0) == Some(c)
    ensures MarksOf(u) == AfterColon(u, Some(c))
  {
  }

  lemma StageSlash(u: seq<byte>, c: nat, s1: nat)
    requires c < |u| && FirstFrom(u, SLASH, c + 1) == Some(s1)
    ensures AfterColon(u, Some(c)) == AfterSlash(u, c, Some(s1))
  {
  }

  lemma StageSlashes(u: seq<byte>, c: nat, s1: nat, s2: nat, s3: Option<nat>)
    requires c < s1 < |u| && FirstFrom(u, SLASH, s1 + 1) == Some(s2) && FirstFrom(u, SLASH, s2 + 1) == s3
    ensures AfterSlash(u, c, Some(s1)) == Some(Marks(c, s1, s2, s3))
  {
  }

  /** At the end of the scan (the whole of u, or four marks) the marks
      passed are those of MarksOf. */
  lemma {:induction false} PassedMarks(u: seq<byte>, i: nat)
    requires i <= |u| && (i == |u| || Passed(u, i).count == 4)
    ensures var p := Passed(u, i); p.count < 3 <==> MarksOf(u).None?
    ensures var p := Passed(u, i);
      p.count >= 3 ==> MarksOf(u) == Some(Marks(p.colon, p.s1, p.s2, if p.count == 4 then Some(p.s3) else None))
  {
    PassedFirst(u, i);
    var p := Passed(u, i);
    if p.count == 0 {
      FirstFromNone(u, COLON, 0);
    } else {
      FirstFromIs(u, COLON, 0, p.colon);
      if p.count == 1 {
        FirstFromNone(u, SLASH, p.colon + 1);
      } else {
        FirstFromIs(u, SLASH, p.colon + 1, p.s1);
        if p.count == 2 {
          FirstFromNone(u, SLASH, p.s1 + 1);
        } else {
          FirstFromIs(u, SLASH, p.s1 + 1, p.s2);
          if p.count == 3 {
            FirstFromNone(u, SLASH, p.s2 + 1);
          } else {
            FirstFromIs(u, SLASH, p.s2 + 1, p.s3);
          }
          MarksFrom(u, p.colon, p.s1, p.s2, if p.count == 4 then Some(p.s3) else None);
        }
      }
    }
  }

  /** The scan loop over r->uri: the state counts the ':' and then the
      '/' passed (up to 4), and the scan stops one character after the
      state reaches 4, stepping back onto the third '/'. The host is
      captured at the '/' that takes the state from 3 to 4 as written
      (`asWritten`), from 2 to 3 as intended, and only when no host is
      set yet; it then grows by each further character before the next
      '/'. */
  method ScanUri(u: seq<byte>, hostSet0: bool, asWritten: bool)
    returns (state: nat, i: nat, doHost: bool, hStart: nat, hLen: nat, ghost seen: Seen, ghost broke: bool)
    ensures i <= |u| && (if broke then i + 1 < |u| else i == |u|)
    ensures seen == Passed(u, if broke then i + 1 else i) && state == seen.count
    ensures broke ==> state == 4 && seen.s3 == i
    ensures !broke && state == 4 ==> seen.s3 == i - 1
    ensures doHost ==> !hostSet0
    ensures !asWritten && !hostSet0 ==> (doHost <==> state >= 3)
    ensures !asWritten && doHost ==> hStart == seen.s2 + 1 && hStart + hLen == (if state == 4 then seen.s3 else |u|)
    ensures asWritten && !hostSet0 ==> (doHost <==> state == 4)
    ensures asWritten && doHost ==> hStart <= |u| && hLen == 0
  {
    var captureAt := if asWritten then 3 else 2;
    var hostSet := hostSet0;
    i, state, doHost, hStart, hLen := 0, 0, false, 0, 0;
    seen, broke := Seen(0, 0, 0, 0, 0), false;
    while i < |u|
      invariant i <= |u| && !broke
      invariant seen == Passed(u, i) && state == seen.count
      invariant state == 4 ==> seen.s3 == i - 1
      invariant hostSet == (hostSet0 || doHost) && (doHost ==> !hostSet0)
      invariant !asWritten && !hostSet0 ==> (doHost <==> state >= 3)
      invariant !asWritten && doHost ==> hStart == seen.s2 + 1 && hStart + hLen == (if state == 4 then i - 1 else i)
      invariant asWritten && !hostSet0 ==> (doHost <==> state == 4)
      invariant asWritten && doHost ==> hStart == i && hLen == 0
    {
      if state == 0 {
        if u[i] == COLON {
          state, seen := 1, seen.(count := 1, colon := i);
        }
      } else if state < 4 {
        if u[i] == SLASH {
          if state == captureAt && !hostSet {
            hStart, hLen := i + 1, 0;
            hostSet, doHost := true, true;
          }
          seen := if state == 1 then seen.(count := 2, s1 := i)
                  else if state == 2 then seen.(count := 3, s2 := i)
                  else seen.(count := 4, s3 := i);
          state := state + 1;
        } else if doHost {
          hLen := hLen + 1;
        }
      } else {
        i := i - 1;
        broke := true;
        break;
      }
      i := i + 1;
    }
  }

  /** The absolute-URI stripping: the scan, then the abs_path (None when
      the URI is left alone) and the host afterwards. */
  method StripAbsUri(u: seq<byte>, host: Option<seq<byte>>, asWritten: bool)
    returns (path: Option<seq<byte>>, newHost: Option<seq<byte>>)
    ensures path == AbsPath(u)
    ensures newHost == if host.Some? then host else if asWritten then AbsHostAsWritten(u) else AbsHost(u)
  {
    var state, i, doHost, hStart, hLen, seen, broke := ScanUri(u, host.Some?, asWritten);
    PassedMarks(u, if broke then i + 1 else i);
    if state < 3 {
      path := None;
    } else {
      path := Some(u[i..]);
      if !broke {
        assert u[i..] == [];
      }
    }
    newHost := if doHost then Some(u[hStart..hStart + hLen]) else host;
    if doHost && asWritten {
      assert u[hStart..hStart + hLen] == [];
    }
  }

  // ---------------------------------------------------------------------
  // The whole request

  /** What http_req leaves in *r, from what r held before (r0) and the
      decoded head. */
  function Parsed(r0: Fields, d: Decoded): Fields
  {
    var r1 := Scanned(r0, d);
    if d.len == 0 then r1 else Completed(r1, d.third, d.headers)
  }

  /** What the handlers leave while the head is scanned. */
  function Scanned(r0: Fields, d: Decoded): Fields
  {
    var hs := d.headers;
    r0.(host := FieldAfter(r0.host, hs, HOST),
        contentType := FieldAfter(r0.contentType, hs, CONTENT_TYPE),
        contentEnc := FieldAfter(r0.contentEnc, hs, CONTENT_ENCODING),
        transferEnc := FieldAfter(r0.transferEnc, hs, TRANSFER_ENCODING),
        requestMethod := if d.called then Some(d.first) else r0.requestMethod,
        uri := if d.called then Some(d.second) else r0.uri)
  }

  /** Whether the URI is scanned as an absolute URI: always behind a
      proxy, otherwise when it starts with "http://" in any case. */
  predicate Absolute(uri: Option<seq<byte>>, prox: bool)
  {
    prox || (uri.Some? && |uri.value| >= 7 && Lower(uri.value[..7]) == Lower(HTTP_SCHEME))
  }

  /** The steps after a successful decode: version and content length,
      then the absolute-URI stripping, then the port and the "/" default. */
  function Completed(r1: Fields, pv: seq<byte>, hs: seq<Header>): Fields
  {
    var clen := ContentLength(hs);
    var r2 := r1.(protoVers := ProtoVersion(Some(pv)),
                  contentLen := if clen > 0 then clen else r1.contentLen);
    Finished(Stripped(r2, Proxied(hs)))
  }

  /** The absolute-URI step: an absolute URI is cut to its abs_path (NULL
      when that is empty), and gives the host when none is set. */
  function Stripped(r: Fields, prox: bool): Fields
  {
    if !Absolute(r.uri, prox) || r.uri.None? then r
    else
      var u := r.uri.value;
      var path := AbsPath(u);
      r.(uri := if path.None? then r.uri else if path.value == [] then None else path,
         host := if r.host.None? then AbsHost(u) else r.host)
  }

  /** The last steps: the port cut off the host (80 without one), and
      "/" for a NULL uri. */
  function Finished(r: Fields): Fields
  {
    r.(host := if r.host.Some? then Some(HR.HostnameOf(r.host.value)) else None,
       port := if r.host.Some? then HR.PortOf(r.host.value) else HR.HTTP_DEFAULT_PORT,
       uri := if r.uri.None? then Some(HR.ROOT) else r.uri)
  }

  class Request {
    var requestMethod: Option<seq<byte>>
    var host: Option<seq<byte>>
    var uri: Option<seq<byte>>
    var contentType: Option<seq<byte>>
    var contentEnc: Option<seq<byte>>
    var transferEnc: Option<seq<byte>>
    var contentLen: nat
    var protoVers: int
    var port: int

    function Snapshot(): Fields
      reads this
    {
      Fields(requestMethod, host, uri, contentType, contentEnc, transferEnc, contentLen, protoVers, port)
    }

    /** A request zeroed as the callers' memset leaves it. */
    constructor()
      ensures Snapshot() == Fields(None, None, None, None, None, None, 0, 0, 0)
    {
      requestMethod, host, uri := None, None, None;
      contentType, contentEnc, transferEnc := None, None, None;
      contentLen, protoVers, port := 0, 0, 0;
    }

    /** http_req: returns the head's length, 0 when decoding fails. */
    method HttpReq(p: seq<byte>) returns (hlen: nat)
      modifies this
      ensures hlen == Decode(p).len
      ensures Snapshot() == Parsed(old(Snapshot()), Decode(p))
    {
      var ret, line, hdrs := DecodeBuf(p);
      ghost var d := Decode(p);
      var hs := Cuts(p, hdrs);
      var clen, prox := TakeHeaders(hs);
      if line.first.len != 0 && line.second.len != 0 {
        requestMethod := Some(Cut(p, line.first));
        uri := Some(Cut(p, line.second));
      }
      assert Snapshot() == Scanned(old(Snapshot()), d);
      hlen := ret;
      if ret != 0 {
        Complete(Cut(p, line.third), clen, prox, hs);
      }
    }

    /** The header handlers, run on each header line in turn. */
    method TakeHeaders(hs: seq<Header>) returns (clen: int, prox: bool)
      modifies this
      ensures Snapshot() == old(Snapshot()).(host := FieldAfter(old(host), hs, HOST),
                                             contentType := FieldAfter(old(contentType), hs, CONTENT_TYPE),
                                             contentEnc := FieldAfter(old(contentEnc), hs, CONTENT_ENCODING),
                                             transferEnc := FieldAfter(old(transferEnc), hs, TRANSFER_ENCODING))
      ensures clen == ContentLength(hs) && prox == Proxied(hs)
    {
      ghost var r0 := Snapshot();
      LabelsNoNul();
      clen, prox := -1, false;
      var j := 0;
      while j < |hs|
        invariant j <= |hs|
        invariant Snapshot() == r0.(host := FieldAfter(r0.host, hs[..j], HOST),
                                    contentType := FieldAfter(r0.contentType, hs[..j], CONTENT_TYPE),
                                    contentEnc := FieldAfter(r0.contentEnc, hs[..j], CONTENT_ENCODING),
                                    transferEnc := FieldAfter(r0.transferEnc, hs[..j], TRANSFER_ENCODING))
        invariant clen == ContentLength(hs[..j]) && prox == Proxied(hs[..j])
      {
        var e := DispatchHdr(Labels, hs[j].0);
        assert hs[..j + 1] == hs[..j] + [hs[j]];
        LastDispatchedSnoc(Labels, hs[..j], hs[j], CONTENT_ENCODING);
        LastDispatchedSnoc(Labels, hs[..j], hs[j], CONTENT_LENGTH);
        LastDispatchedSnoc(Labels, hs[..j], hs[j], CONTENT_TYPE);
        LastDispatchedSnoc(Labels, hs[..j], hs[j], HOST);
        LastDispatchedSnoc(Labels, hs[..j], hs[j], PROXY_CONNECTION);
        LastDispatchedSnoc(Labels, hs[..j], hs[j], TRANSFER_ENCODING);
        if e == Some(CONTENT_ENCODING) {
          contentEnc := Some(hs[j].1);
        } else if e == Some(CONTENT_LENGTH) {
          clen := HtypeInt(hs[j].1);
        } else if e == Some(CONTENT_TYPE) {
          contentType := Some(hs[j].1);
        } else if e == Some(HOST) {
          host := Some(hs[j].1);
        } else if e == Some(PROXY_CONNECTION) {
          prox := true;
        } else if e == Some(TRANSFER_ENCODING) {
          transferEnc := Some(hs[j].1);
        }
        j := j + 1;
      }
      assert hs[..|hs|] == hs;
    }

    /** After a successful decode. */
    method Complete(pv: seq<byte>, clen: int, prox: bool, ghost hs: seq<Header>)
      requires clen == ContentLength(hs) && prox == Proxied(hs)
      modifies this
      ensures Snapshot() == Completed(old(Snapshot()), pv, hs)
    {
      protoVers := ProtoVersion(Some(pv));
      if clen > 0 {
        contentLen := clen;
      }
      StripUri(prox);
      Finish();
    }

    /** The absolute-URI step; a NULL uri scans as empty and is left alone. */
    method StripUri(prox: bool)
      modifies this
      ensures Snapshot() == Stripped(old(Snapshot()), prox)
    {
      if prox || (uri.Some? && |uri.value| >= 7 && Lower(uri.value[..7]) == Lower(HTTP_SCHEME)) {
        var u := if uri.Some? then uri.value else [];
        var path, h := StripAbsUri(u, host, false);
        host := h;
        if path.Some? {
          uri := if path.value == [] then None else path;
        }
      }
    }

    /** The port and the "/" default. */
    method Finish()
      modifies this
      ensures Snapshot() == Finished(old(Snapshot()))
    {
      port := HR.HTTP_DEFAULT_PORT;
      if host.Some? {
        var name, prt := HR.SplitHost(host.value);
        host, port := Some(name), prt;
      }
      if uri.None? {
        uri := Some(HR.ROOT);
      }
    }
  }

  lemma LabelsNoNul()
    ensures forall j :: 0 <= j < |Labels| ==> NoNul(Labels[j])
  {
  }

  // ---------------------------------------------------------------------
  // Properties

  /** The table in vstrcmp order is sorted. */
  lemma {:induction false} LabelsSorted()
    ensures Sorted(Labels)
  {
    Below(Lower(CONTENT_ENCODING_LABEL), Lower(CONTENT_LENGTH_LABEL), 8);
    Below(Lower(CONTENT_LENGTH_LABEL), Lower(CONTENT_TYPE_LABEL), 8);
    Below(Lower(CONTENT_TYPE_LABEL), Lower(HOST_LABEL), 0);
    Below(Lower(HOST_LABEL), Lower(PROXY_CONNECTION_LABEL), 0);
    Below(Lower(PROXY_CONNECTION_LABEL), Lower(TRANSFER_ENCODING_LABEL), 0);
  }

  /** As written, "Host" goes left of Proxy-Connection, then right of
      Content-Type and of Content-Length, and is not found. */
  lemma {:induction false} HostMissedAsWritten(k: seq<byte>)
    requires Lower(k) == Lower(HOST_LABEL)
    ensures Dispatch(LabelsAsWritten, k) == None
  {
    var h := Lower(HOST_LABEL);
    Below(h, Lower(PROXY_CONNECTION_LABEL), 0);
    Above(h, Lower(CONTENT_TYPE_LABEL), 0);
    Above(h, Lower(CONTENT_LENGTH_LABEL), 0);
    assert Search(LabelsAsWritten, k, 3, 0) == None;
    assert Search(LabelsAsWritten, k, 2, 1) == None;
    assert Search(LabelsAsWritten, k, 0, 3) == None;
  }

  /** As written, "Content-Length" goes left of Proxy-Connection, of
      Content-Type and of Host, and is not found. */
  lemma {:induction false} ContentLengthMissedAsWritten(k: seq<byte>)
    requires Lower(k) == Lower(CONTENT_LENGTH_LABEL)
    ensures Dispatch(LabelsAsWritten, k) == None
  {
    var l := Lower(CONTENT_LENGTH_LABEL);
    Below(l, Lower(PROXY_CONNECTION_LABEL), 0);
    Below(l, Lower(CONTENT_TYPE_LABEL), 8);
    Below(l, Lower(HOST_LABEL), 0);
    assert Search(LabelsAsWritten, k, 0, 0) == None;
    assert Search(LabelsAsWritten, k, 0, 1) == None;
    assert Search(LabelsAsWritten, k, 0, 3) == None;
  }

  /** As written, "Content-Encoding" takes the same path and is not found. */
  lemma {:induction false} ContentEncodingMissedAsWritten(k: seq<byte>)
    requires Lower(k) == Lower(CONTENT_ENCODING_LABEL)
    ensures Dispatch(LabelsAsWritten, k) == None
  {
    var e := Lower(CONTENT_ENCODING_LABEL);
    Below(e, Lower(PROXY_CONNECTION_LABEL), 0);
    Below(e, Lower(CONTENT_TYPE_LABEL), 8);
    Below(e, Lower(HOST_LABEL), 0);
    assert Search(LabelsAsWritten, k, 0, 0) == None;
    assert Search(LabelsAsWritten, k, 0, 1) == None;
    assert Search(LabelsAsWritten, k, 0, 3) == None;
  }

  /** ... so with the table as written the Host, Content-Length and
      Content-Encoding lines are never stored. */
  lemma {:induction false} HeadersIgnoredAsWritten(hs: seq<Header>)
    ensures LastDispatched(LabelsAsWritten, hs, 0) == None
    ensures LastDispatched(LabelsAsWritten, hs, 2) == None
    ensures LastDispatched(LabelsAsWritten, hs, 4) == None
  {
    forall k | true
      ensures Dispatch(LabelsAsWritten, k) != Some(0)
      ensures Dispatch(LabelsAsWritten, k) != Some(2)
      ensures Dispatch(LabelsAsWritten, k) != Some(4)
    {
      if Dispatch(LabelsAsWritten, k) == Some(0) {
        HostMissedAsWritten(k);
      }
      if Dispatch(LabelsAsWritten, k) == Some(2) {
        ContentLengthMissedAsWritten(k);
      }
      if Dispatch(LabelsAsWritten, k) == Some(4) {
        ContentEncodingMissedAsWritten(k);
      }
    }
    NeverDispatched(LabelsAsWritten, hs, 0);
    NeverDispatched(LabelsAsWritten, hs, 2);
    NeverDispatched(LabelsAsWritten, hs, 4);
  }

  /** Each stored header value is that of the last line whose key equals
      the label up to case; prox is set exactly when such a
      Proxy-Connection line exists. */
  lemma {:induction false} HeaderValues(hs: seq<Header>, r0: Fields)
    ensures var r := Scanned(r0, Decoded(0, false, [], [], [], hs));
      (LastValue(hs, HOST_LABEL).Some? ==> r.host == LastValue(hs, HOST_LABEL))
      && (LastValue(hs, HOST_LABEL).None? ==> r.host == r0.host)
      && (LastValue(hs, CONTENT_TYPE_LABEL).Some? ==> r.contentType == LastValue(hs, CONTENT_TYPE_LABEL))
      && (LastValue(hs, CONTENT_TYPE_LABEL).None? ==> r.contentType == r0.contentType)
      && (LastValue(hs, CONTENT_ENCODING_LABEL).Some? ==> r.contentEnc == LastValue(hs, CONTENT_ENCODING_LABEL))
      && (LastValue(hs, CONTENT_ENCODING_LABEL).None? ==> r.contentEnc == r0.contentEnc)
      && (LastValue(hs, TRANSFER_ENCODING_LABEL).Some? ==> r.transferEnc == LastValue(hs, TRANSFER_ENCODING_LABEL))
      && (LastValue(hs, TRANSFER_ENCODING_LABEL).None? ==> r.transferEnc == r0.transferEnc)
    ensures ContentLength(hs) == (if LastValue(hs, CONTENT_LENGTH_LABEL).Some? then IntField(LastValue(hs, CONTENT_LENGTH_LABEL).value) else -1)
    ensures Proxied(hs) <==> LastValue(hs, PROXY_CONNECTION_LABEL).Some?
  {
    LabelsSorted();
    LastDispatchedIs(Labels, hs, CONTENT_ENCODING);
    LastDispatchedIs(Labels, hs, CONTENT_LENGTH);
    LastDispatchedIs(Labels, hs, CONTENT_TYPE);
    LastDispatchedIs(Labels, hs, HOST);
    LastDispatchedIs(Labels, hs, PROXY_CONNECTION);
    LastDispatchedIs(Labels, hs, TRANSFER_ENCODING);
  }

  /** The marks of "http://" + name + path, with name free of '/' and path
      empty or starting with '/'. */
  lemma {:induction false} SchemeMarks(name: seq<byte>, path: seq<byte>)
    requires forall j :: 0 <= j < |name| ==> name[j] != SLASH
    requires path == [] || path[0] == SLASH
    ensures MarksOf(HTTP_SCHEME + name + path) == Some(Marks(4, 5, 6, if path == [] then None else Some(7 + |name|)))
  {
    var u := HTTP_SCHEME + name + path;
    var n := |name|;
    assert u[..7] == HTTP_SCHEME;
    assert forall j :: 7 <= j < 7 + n ==> u[j] == name[j - 7];
    FirstFromIs(u, COLON, 0, 4);
    FirstFromIs(u, SLASH, 5, 5);
    FirstFromIs(u, SLASH, 6, 6);
    if path == [] {
      FirstFromNone(u, SLASH, 7);
    } else {
      assert u[7 + n] == path[0];
      FirstFromIs(u, SLASH, 7, 7 + n);
    }
    MarksFrom(u, 4, 5, 6, if path == [] then None else Some(7 + n));
  }

  /** "http://" + name + path, with name free of '/' and path starting
      with '/', splits into the host name and the abs_path (emptied when
      it is the single '/'). */
  lemma {:induction false} AbsUriSplit(name: seq<byte>, path: seq<byte>)
    requires forall j :: 0 <= j < |name| ==> name[j] != SLASH
    requires path != [] && path[0] == SLASH
    ensures AbsHost(HTTP_SCHEME + name + path) == Some(name)
    ensures AbsPath(HTTP_SCHEME + name + path) == Some(if |path| > 1 then path else [])
  {
    var u := HTTP_SCHEME + name + path;
    SchemeMarks(name, path);
    assert u[7..7 + |name|] == name;
    assert u[7 + |name|..] == path;
  }

  /** "http://" + name with name free of '/': the whole rest is the host
      and the abs_path is empty. */
  lemma {:induction false} AbsUriHostOnly(name: seq<byte>)
    requires forall j :: 0 <= j < |name| ==> name[j] != SLASH
    ensures AbsHost(HTTP_SCHEME + name) == Some(name)
    ensures AbsPath(HTTP_SCHEME + name) == Some([])
  {
    SchemeMarks(name, []);
    assert HTTP_SCHEME + name + [] == HTTP_SCHEME + name;
    assert (HTTP_SCHEME + name)[7..] == name;
  }

  /** As written, the host taken from "http://name/path" is empty, and
      from "http://name" there is none at all. */
  lemma {:induction false} AbsHostLostAsWritten(name: seq<byte>, path: seq<byte>)
    requires forall j :: 0 <= j < |name| ==> name[j] != SLASH
    requires path != [] && path[0] == SLASH
    ensures AbsHostAsWritten(HTTP_SCHEME + name + path) == Some([])
    ensures AbsHostAsWritten(HTTP_SCHEME + name) == None
  {
    SchemeMarks(name, path);
    SchemeMarks(name, []);
    assert HTTP_SCHEME + name + [] == HTTP_SCHEME + name;
  }

  /** A request line "m http://name/path v" without a Host line gives the
      host name (its port cut off) and the abs_path ("/" when the path is
      the single '/'). */
  lemma {:induction false} AbsoluteRequest(r0: Fields, d: Decoded, name: seq<byte>, path: seq<byte>)
    requires d.len != 0 && d.called && d.second == HTTP_SCHEME + name + path
    requires r0.host.None? && LastValue(d.headers, HOST_LABEL).None?
    requires forall j :: 0 <= j < |name| ==> name[j] != SLASH
    requires path != [] && path[0] == SLASH
    ensures Parsed(r0, d).host == Some(HR.HostnameOf(name))
    ensures Parsed(r0, d).port == HR.PortOf(name)
    ensures Parsed(r0, d).uri == Some(if |path| > 1 then path else HR.ROOT)
  {
    LabelsSorted();
    LastDispatchedIs(Labels, d.headers, HOST);
    var r1 := Scanned(r0, d);
    assert r1.host.None? && r1.uri == Some(d.second);
    var clen := ContentLength(d.headers);
    var r2 := r1.(protoVers := ProtoVersion(Some(d.third)),
                  contentLen := if clen > 0 then clen else r1.contentLen);
    StripsAbsolute(r2, Proxied(d.headers), name, path);
  }

  /** The absolute-URI step on "http://name/path" with no host set. */
  lemma {:induction false} StripsAbsolute(r: Fields, prox: bool, name: seq<byte>, path: seq<byte>)
    requires r.uri == Some(HTTP_SCHEME + name + path) && r.host.None?
    requires forall j :: 0 <= j < |name| ==> name[j] != SLASH
    requires path != [] && path[0] == SLASH
    ensures Stripped(r, prox) == r.(uri := if |path| > 1 then Some(path) else None, host := Some(name))
  {
    AbsUriSplit(name, path);
    assert (HTTP_SCHEME + name + path)[..7] == HTTP_SCHEME;
  }

  /** A URI neither behind a proxy nor starting with "http://" is kept as
      it is, and a Host line's host and port are used. */
  lemma {:induction false} RelativeRequest(r0: Fields, d: Decoded, h: seq<byte>)
    requires d.len != 0 && d.called && d.second != []
    requires !(|d.second| >= 7 && Lower(d.second[..7]) == Lower(HTTP_SCHEME))
    requires LastValue(d.headers, PROXY_CONNECTION_LABEL).None?
    requires LastValue(d.headers, HOST_LABEL) == Some(h)
    ensures Parsed(r0, d).uri == Some(d.second)
    ensures Parsed(r0, d).host == Some(HR.HostnameOf(h))
    ensures Parsed(r0, d).port == HR.PortOf(h)
  {
    HeaderValues(d.headers, r0);
  }

  /** When decoding fails only the handlers that fired change *r. */
  lemma {:induction false} FailureKeeps(r0: Fields, d: Decoded)
    requires d.len == 0
    ensures Parsed(r0, d).protoVers == r0.protoVers && Parsed(r0, d).contentLen == r0.contentLen
    ensures Parsed(r0, d).port == r0.port
    ensures !d.called ==> Parsed(r0, d).uri == r0.uri && Parsed(r0, d).requestMethod == r0.requestMethod
  {
  }
}
