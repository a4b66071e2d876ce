/** http_decode_buf (http_parse.c): the byte-at-a-time state machine that
    splits an HTTP/1.x head into the three fields of its first line and
    the key/value pairs of its header lines. The scanner is a step
    function over the buffer; the loop is proved to compute it, and a
    head rendered from well-formed parts is proved to decode back to them. */
module HttpDecode {
  import opened Bytes

  /** The five values of `state`: skipping spaces before a first-line
      field (0), inside a field (1), inside a header key (2), after the
      ':' (3), inside a header value (4). */
  datatype Phase = Skip | Field | Key | Colon | Value

  /** A `struct ro_vec` into the buffer: the offset of v_ptr from p and v_len. */
  datatype Span = Span(start: nat, len: nat)

  /** hv[0..2]: method, uri and protocol of a request (protocol, code and
      message of a response). */
  datatype Line = Line(first: Span, second: Span, third: Span)

  function Get(l: Line, i: nat): Span
  {
    if i == 0 then l.first else if i == 1 then l.second else l.third
  }

  function Put(l: Line, i: nat, f: Span): (r: Line)
    ensures Get(r, i) == f
  {
    if i == 0 then l.(first := f) else if i == 1 then l.(second := f) else l.(third := f)
  }

  /** The locals of http_decode_buf. `hdrs` lists the (k, v) pairs handed
      to dispatch_hdr, in order; `stop` is `cur = end` after the line that
      ends the head. */
  datatype Scan = Scan(phase: Phase, i: nat, line: Line, k: Span, v: Span, ret: nat,
                       hdrs: seq<(Span, Span)>, stop: bool)

  /** Before the first byte: every hv length 0, state 0, i 0, ret 0. */
  const Init: Scan := Scan(Skip, 0, Line(Span(0, 0), Span(0, 0), Span(0, 0)), Span(0, 0), Span(0, 0), 0, [], false)

  /** One iteration of the loop, on the byte at offset `cur`. A field or
      a value starts at its first byte with length 0 and grows by one on
      each later byte, the terminator included, so that it ends just
      before the terminator; a '\n' preceded by '\r' drops that '\r'. */
  function Step(p: seq<byte>, cur: nat, s: Scan): Scan
    requires cur < |p|
  {
    var c := p[cur];
    match s.phase
    case Skip =>
      if c != SP then s.(phase := Field, line := Put(s.line, s.i, Span(cur, 0))) else s
    case Field =>
      var f := Get(s.line, s.i);
      var f1 := f.(len := f.len + 1);
      if c == SP then
        if s.i < 2 then s.(line := Put(s.line, s.i, f1), phase := Skip, i := s.i + 1)
        else s.(line := Put(s.line, s.i, f1))
      else if c == LF then
        var f2 := if f1.len > 0 && cur > 0 && p[cur - 1] == CR then f1.(len := f1.len - 1) else f1;
        s.(line := Put(s.line, s.i, f2), k := Span(cur + 1, 0), phase := Key, ret := cur + 1)
      else s.(line := Put(s.line, s.i, f1))
    case Key =>
      if c == COLON then s.(phase := Colon)
      else if c == LF then s.(ret := cur + 1, stop := true)
      else s.(k := s.k.(len := s.k.len + 1))
    case Colon =>
      if c != SP then s.(v := Span(cur, 0), phase := Value) else s
    case Value =>
      var v1 := s.v.(len := s.v.len + 1);
      if c == LF then
        var v2 := if v1.len > 0 && cur > 0 && p[cur - 1] == CR then v1.(len := v1.len - 1) else v1;
        s.(v := v2, hdrs := s.hdrs + [(s.k, v2)], k := Span(cur + 1, 0), phase := Key)
      else s.(v := v1)
  }

  /** The scan of the bytes at offsets a..b-1 from state `s`; once the
      head has ended no further byte is looked at. */
  function RunFrom(p: seq<byte>, a: nat, b: nat, s: Scan): Scan
    requires a <= b <= |p|
    decreases b - a
  {
    if a == b || s.stop then s else RunFrom(p, a + 1, b, Step(p, a, s))
  }

  /** The bytes a span designates, or nothing if it leaves the buffer. */
  function Cut(p: seq<byte>, f: Span): (r: seq<byte>)
    ensures f.start + f.len <= |p| ==> r == p[f.start..f.start + f.len]
  {
    if f.start + f.len <= |p| then p[f.start..f.start + f.len] else []
  }

  type Header = (seq<byte>, seq<byte>)

  /** What http_decode_buf yields: its return value (0 when the first or
      second field is empty), whether it went on to call the handlers of
      the three first-line fields (exactly when neither is empty), the
      three fields and the header pairs passed to dispatch_hdr. */
  datatype Decoded = Decoded(len: nat, called: bool, first: seq<byte>, second: seq<byte>, third: seq<byte>, headers: seq<Header>)

  function Cuts(p: seq<byte>, hs: seq<(Span, Span)>): (r: seq<Header>)
    ensures |r| == |hs| && forall j :: 0 <= j < |hs| ==> r[j] == (Cut(p, hs[j].0), Cut(p, hs[j].1))
  {
    seq(|hs|, j requires 0 <= j < |hs| => (Cut(p, hs[j].0), Cut(p, hs[j].1)))
  }

  function Outcome(p: seq<byte>, s: Scan): Decoded
  {
    var called := s.line.first.len != 0 && s.line.second.len != 0;
    Decoded(if called then s.ret else 0, called,
            Cut(p, s.line.first), Cut(p, s.line.second), Cut(p, s.line.third), Cuts(p, s.hdrs))
  }

  /** http_decode_buf on the bytes p..end. */
  function Decode(p: seq<byte>): Decoded
  {
    Outcome(p, RunFrom(p, 0, |p|, Init))
  }

  // ---------------------------------------------------------------------
  // The loop

  /** http_decode_buf's loop over `cur`, with the dispatch of each header
      line recorded in `hdrs` rather than made on the spot. */
  method DecodeBuf(p: seq<byte>) returns (ret: nat, line: Line, hdrs: seq<(Span, Span)>)
    ensures Outcome(p, RunFrom(p, 0, |p|, Init)) ==
      Decoded(ret, line.first.len != 0 && line.second.len != 0, Cut(p, line.first), Cut(p, line.second), Cut(p, line.third), Cuts(p, hdrs))
  {
    var state := Skip;
    var i: nat := 0;
    line := Line(Span(0, 0), Span(0, 0), Span(0, 0));
    var k, v := Span(0, 0), Span(0, 0);
    ret := 0;
    hdrs := [];
    var cur: nat := 0;
    while cur < |p|
      invariant cur <= |p|
      invariant RunFrom(p, 0, cur, Init) == Scan(state, i, line, k, v, ret, hdrs, false)
    {
      ghost var s := Scan(state, i, line, k, v, ret, hdrs, false);
      RunSnoc(p, 0, cur, Init);
      var c := p[cur];
      match state {
        case Skip =>
          if c != SP {
            state := Field;
            line := Put(line, i, Span(cur, 0));
          }
        case Field =>
          var f := Get(line, i);
          f := f.(len := f.len + 1);
          if c == SP {
            line := Put(line, i, f);
            if i < 2 {
              state := Skip;
              i := i + 1;
            }
          } else if c == LF {
            if f.len > 0 && cur > 0 && p[cur - 1] == CR {
              f := f.(len := f.len - 1);
            }
            line := Put(line, i, f);
            k := Span(cur + 1, 0);
            state := Key;
            ret := cur + 1;
          } else {
            line := Put(line, i, f);
          }
        case Key =>
          if c == COLON {
            state := Colon;
          } else if c == LF {
            // `cur = end` ends the loop.
            ret := cur + 1;
            assert RunFrom(p, 0, cur + 1, Init) == Scan(state, i, line, k, v, ret, hdrs, true);
            RunStopped(p, 0, cur + 1, |p|, Init);
            break;
          } else {
            k := k.(len := k.len + 1);
          }
        case Colon =>
          if c != SP {
            v := Span(cur, 0);
            state := Value;
          }
        case Value =>
          v := v.(len := v.len + 1);
          if c == LF {
            if v.len > 0 && cur > 0 && p[cur - 1] == CR {
              v := v.(len := v.len - 1);
            }
            hdrs := hdrs + [(k, v)];
            k := Span(cur + 1, 0);
            state := Key;
          }
      }
      assert Step(p, cur, s) == Scan(state, i, line, k, v, ret, hdrs, false);
      cur := cur + 1;
    }
    assert RunFrom(p, 0, |p|, Init).line == line && RunFrom(p, 0, |p|, Init).ret == ret
      && RunFrom(p, 0, |p|, Init).hdrs == hdrs;
    if line.first.len == 0 || line.second.len == 0 {
      ret := 0;
    }
  }

  // ---------------------------------------------------------------------
  // Scanning in pieces

  /** Once the head has ended, later bytes change nothing. */
  lemma {:induction false} RunStopped(p: seq<byte>, a: nat, b: nat, c: nat, s: Scan)
    requires a <= b <= c <= |p| && RunFrom(p, a, b, s).stop
    ensures RunFrom(p, a, c, s) == RunFrom(p, a, b, s)
    decreases b - a
  {
    if a < b && !s.stop {
      RunStopped(p, a + 1, b, c, Step(p, a, s));
    }
  }

  /** Scanning a..c is scanning a..b, then b..c from where it left off. */
  lemma {:induction false} RunSplit(p: seq<byte>, a: nat, b: nat, c: nat, s: Scan)
    requires a <= b <= c <= |p|
    ensures RunFrom(p, a, c, s) == RunFrom(p, b, c, RunFrom(p, a, b, s))
    decreases b - a
  {
    if a < b && !s.stop {
      RunSplit(p, a + 1, b, c, Step(p, a, s));
    }
  }

  /** Scanning one more byte is one more step, unless the head has ended. */
  lemma {:induction false} RunSnoc(p: seq<byte>, a: nat, b: nat, s: Scan)
    requires a <= b < |p| && !RunFrom(p, a, b, s).stop
    ensures RunFrom(p, a, b + 1, s) == Step(p, b, RunFrom(p, a, b, s))
  {
    RunSplit(p, a, b, b + 1, s);
    RunOne(p, b, RunFrom(p, a, b, s));
  }

  lemma {:induction false} RunOne(p: seq<byte>, a: nat, s: Scan)
    requires a < |p| && !s.stop
    ensures RunFrom(p, a, a + 1, s) == Step(p, a, s)
  {
    assert RunFrom(p, a + 1, a + 1, Step(p, a, s)) == Step(p, a, s);
  }

  /** The return value is 0 or the offset just past a '\n'. */
  lemma {:induction false} RetAfterNewline(p: seq<byte>, n: nat)
    requires n <= |p|
    ensures var s := RunFrom(p, 0, n, Init); s.ret == 0 || (s.ret <= n && p[s.ret - 1] == LF)
  {
    if n > 0 {
      RetAfterNewline(p, n - 1);
      if RunFrom(p, 0, n - 1, Init).stop {
        RunStopped(p, 0, n - 1, n, Init);
      } else {
        RunSnoc(p, 0, n - 1, Init);
      }
    }
  }

  /** Bytes that neither end a field nor, for the first two fields, are a
      space only lengthen the current field. */
  lemma {:induction false} FieldChars(p: seq<byte>, a: nat, b: nat, s: Scan)
    requires a <= b <= |p| && s.phase == Field && !s.stop
    requires forall x :: a <= x < b ==> p[x] != LF && (s.i < 2 ==> p[x] != SP)
    ensures RunFrom(p, a, b, s) == s.(line := Put(s.line, s.i, Get(s.line, s.i).(len := Get(s.line, s.i).len + (b - a))))
    decreases b - a
  {
    var f := Get(s.line, s.i);
    if b > a {
      var s1 := s.(line := Put(s.line, s.i, f.(len := f.len + 1)));
      assert Step(p, a, s) == s1;
      FieldChars(p, a + 1, b, s1);
      PutPut(s.line, s.i, f.(len := f.len + 1), f.(len := f.len + (b - a)));
    } else {
      assert f.(len := f.len) == f;
    }
  }

  /** Bytes other than ':' and '\n' only lengthen the key. */
  lemma {:induction false} KeyChars(p: seq<byte>, a: nat, b: nat, s: Scan)
    requires a <= b <= |p| && s.phase == Key && !s.stop
    requires forall x :: a <= x < b ==> p[x] != LF && p[x] != COLON
    ensures RunFrom(p, a, b, s) == s.(k := s.k.(len := s.k.len + (b - a)))
    decreases b - a
  {
    if b > a {
      assert Step(p, a, s) == s.(k := s.k.(len := s.k.len + 1));
      KeyChars(p, a + 1, b, s.(k := s.k.(len := s.k.len + 1)));
    }
  }

  /** Bytes other than '\n' only lengthen the value. */
  lemma {:induction false} ValueChars(p: seq<byte>, a: nat, b: nat, s: Scan)
    requires a <= b <= |p| && s.phase == Value && !s.stop
    requires forall x :: a <= x < b ==> p[x] != LF
    ensures RunFrom(p, a, b, s) == s.(v := s.v.(len := s.v.len + (b - a)))
    decreases b - a
  {
    if b > a {
      assert Step(p, a, s) == s.(v := s.v.(len := s.v.len + 1));
      ValueChars(p, a + 1, b, s.(v := s.v.(len := s.v.len + 1)));
    }
  }

  lemma {:induction false} PutPut(l: Line, i: nat, f: Span, g: Span)
    ensures Put(Put(l, i, f), i, g) == Put(l, i, g)
  {
  }

  // ---------------------------------------------------------------------
  // Rendering a head and decoding it back

  /** `t` lies in the buffer at offset `a`. */
  predicate At(p: seq<byte>, a: nat, t: seq<byte>)
  {
    a + |t| <= |p| && p[a..a + |t|] == t
  }

  lemma AtByte(p: seq<byte>, a: nat, t: seq<byte>, j: nat)
    requires At(p, a, t) && j < |t|
    ensures p[a + j] == t[j]
  {
    assert p[a..a + |t|][j] == p[a + j];
  }

  lemma {:induction false} AtConcat(p: seq<byte>, a: nat, x: seq<byte>, y: seq<byte>)
    ensures At(p, a, x + y) <==> At(p, a, x) && At(p, a + |x|, y)
  {
    if a + |x| + |y| <= |p| {
      assert p[a..a + |x| + |y|] == p[a..a + |x|] + p[a + |x|..a + |x| + |y|];
      if p[a..a + |x| + |y|] == x + y {
        assert p[a..a + |x|] == (x + y)[..|x|] == x;
        assert p[a + |x|..a + |x| + |y|] == (x + y)[|x|..] == y;
      }
    }
  }

  lemma AtCut(p: seq<byte>, a: nat, t: seq<byte>)
    requires At(p, a, t)
    ensures Cut(p, Span(a, |t|)) == t
  {
  }

  /** A header line as a client writes it: key, ": ", value, CRLF. */
  function HeaderText(h: Header): seq<byte>
  {
    h.0 + [COLON, SP] + h.1 + [CR, LF]
  }

  function HeadersText(hs: seq<Header>): seq<byte>
    decreases |hs|
  {
    if |hs| == 0 then [] else HeaderText(hs[0]) + HeadersText(hs[1..])
  }

  /** A whole head: the three first-line fields separated by single
      spaces, the header lines, and an empty line; every line ends in CRLF. */
  function HeadText(a: seq<byte>, b: seq<byte>, c: seq<byte>, hs: seq<Header>): seq<byte>
  {
    a + [SP] + b + [SP] + c + [CR, LF] + HeadersText(hs) + [CR, LF]
  }

  /** A method or uri: non-empty, without spaces or newlines. */
  predicate Token(t: seq<byte>)
  {
    |t| > 0 && forall j :: 0 <= j < |t| ==> t[j] != SP && t[j] != LF
  }

  /** The third field may hold spaces but not start with one. */
  predicate LastField(t: seq<byte>)
  {
    |t| > 0 && t[0] != SP && forall j :: 0 <= j < |t| ==> t[j] != LF
  }

  /** A key without ':' or newline; a value without newline that does not
      start with a space. */
  predicate GoodHeader(h: Header)
  {
    (forall j :: 0 <= j < |h.0| ==> h.0[j] != COLON && h.0[j] != LF)
    && (forall j :: 0 <= j < |h.1| ==> h.1[j] != LF)
    && (|h.1| > 0 ==> h.1[0] != SP)
  }

  /** Where the scan of HeadersText(hs), laid at offset a, puts each key
      and value. */
  function HdrSpans(hs: seq<Header>, a: nat): (r: seq<(Span, Span)>)
    ensures |r| == |hs|
    decreases |hs|
  {
    if |hs| == 0 then []
    else [(Span(a, |hs[0].0|), Span(a + |hs[0].0| + 2, |hs[0].1|))] + HdrSpans(hs[1..], a + |HeaderText(hs[0])|)
  }

  /** The rest of a first-line field, from the byte after its first one
      (at b - 1) up to a space: the field ends before the space. */
  lemma {:induction false} FieldToSpace(p: seq<byte>, b: nat, n: nat, s: Scan)
    requires s.phase == Field && !s.stop && s.i < 2 && b >= 1 && Get(s.line, s.i) == Span(b - 1, 0)
    requires b + n < |p| && p[b + n] == SP && forall x :: b <= x < b + n ==> p[x] != LF && p[x] != SP
    ensures RunFrom(p, b, b + n + 1, s) == s.(phase := Skip, i := s.i + 1, line := Put(s.line, s.i, Span(b - 1, n + 1)))
  {
    FieldChars(p, b, b + n, s);
    var s1 := s.(line := Put(s.line, s.i, Span(b - 1, n)));
    PutPut(s.line, s.i, Span(b - 1, n), Span(b - 1, n + 1));
    FieldSpace(p, b + n, s1);
    RunOne(p, b + n, s1);
    RunSplit(p, b, b + n, b + n + 1, s);
  }

  /** The rest of the third field up to a '\n' after a '\r': the field
      ends before the '\r' and the header keys start after the '\n'. */
  lemma {:induction false} FieldToNewline(p: seq<byte>, b: nat, n: nat, s: Scan)
    requires s.phase == Field && !s.stop && s.i == 2 && b >= 1 && Get(s.line, 2) == Span(b - 1, 0)
    requires b + n < |p| && p[b + n] == LF && p[b + n - 1] == CR && forall x :: b <= x < b + n ==> p[x] != LF
    ensures RunFrom(p, b, b + n + 1, s) ==
      s.(phase := Key, line := Put(s.line, 2, Span(b - 1, n)), k := Span(b + n + 1, 0), ret := b + n + 1)
  {
    FieldChars(p, b, b + n, s);
    var s1 := s.(line := Put(s.line, 2, Span(b - 1, n)));
    PutPut(s.line, 2, Span(b - 1, n), Span(b - 1, n));
    FieldEnds(p, b + n, s1);
    RunOne(p, b + n, s1);
    RunSplit(p, b, b + n, b + n + 1, s);
  }

  /** A first-line field followed by a space: skipped into, scanned, left. */
  lemma {:induction false} TokenField(p: seq<byte>, a: nat, t: seq<byte>, s: Scan)
    requires s.phase == Skip && !s.stop && s.i < 2 && Token(t) && At(p, a, t + [SP])
    ensures RunFrom(p, a, a + |t| + 1, s) == s.(i := s.i + 1, line := Put(s.line, s.i, Span(a, |t|)))
  {
    AtByte(p, a, t + [SP], 0);
    AtByte(p, a, t + [SP], |t|);
    forall x | a + 1 <= x < a + |t|
      ensures p[x] != LF && p[x] != SP
    {
      AtByte(p, a, t + [SP], x - a);
    }
    SkipEnters(p, a, s);
    RunOne(p, a, s);
    var s1 := s.(phase := Field, line := Put(s.line, s.i, Span(a, 0)));
    FieldToSpace(p, a + 1, |t| - 1, s1);
    PutPut(s.line, s.i, Span(a, 0), Span(a, |t|));
    RunSplit(p, a, a + 1, a + |t| + 1, s);
  }

  /** The third field and its CRLF: the scan moves on to the header keys. */
  lemma {:induction false} LastFieldLine(p: seq<byte>, a: nat, t: seq<byte>, s: Scan)
    requires s.phase == Skip && !s.stop && s.i == 2 && LastField(t) && At(p, a, t + [CR, LF])
    ensures RunFrom(p, a, a + |t| + 2, s) ==
      s.(phase := Key, line := Put(s.line, 2, Span(a, |t|)), k := Span(a + |t| + 2, 0), ret := a + |t| + 2)
  {
    AtByte(p, a, t + [CR, LF], 0);
    AtByte(p, a, t + [CR, LF], |t|);
    AtByte(p, a, t + [CR, LF], |t| + 1);
    forall x | a + 1 <= x < a + |t| + 1
      ensures p[x] != LF
    {
      AtByte(p, a, t + [CR, LF], x - a);
    }
    SkipEnters(p, a, s);
    RunOne(p, a, s);
    var s1 := s.(phase := Field, line := Put(s.line, 2, Span(a, 0)));
    FieldToNewline(p, a + 1, |t|, s1);
    PutPut(s.line, 2, Span(a, 0), Span(a, |t|));
    RunSplit(p, a, a + 1, a + |t| + 2, s);
  }

  /** The scan is between header lines, at offset b, with the given first
      line, return value and dispatched headers. */
  predicate AtKey(t: Scan, b: nat, line: Line, ret: nat, hdrs: seq<(Span, Span)>)
  {
    t.phase == Key && !t.stop && t.k == Span(b, 0) && t.line == line && t.ret == ret && t.hdrs == hdrs
  }

  /** A key and the ": " after it. */
  lemma {:induction false} KeyPart(p: seq<byte>, a: nat, key: seq<byte>, s: Scan)
    requires s.phase == Key && !s.stop && s.k == Span(a, 0)
    requires (forall j :: 0 <= j < |key| ==> key[j] != COLON && key[j] != LF) && At(p, a, key + [COLON, SP])
    ensures RunFrom(p, a, a + |key| + 2, s) == s.(phase := Colon, k := Span(a, |key|))
  {
    forall x | a <= x < a + |key|
      ensures p[x] != LF && p[x] != COLON
    {
      AtByte(p, a, key + [COLON, SP], x - a);
    }
    AtByte(p, a, key + [COLON, SP], |key|);
    AtByte(p, a, key + [COLON, SP], |key| + 1);
    KeyChars(p, a, a + |key|, s);
    var s1 := s.(k := Span(a, |key|));
    KeyColon(p, a + |key|, s1);
    RunOne(p, a + |key|, s1);
    ColonSpace(p, a + |key| + 1, s1.(phase := Colon));
    RunOne(p, a + |key| + 1, s1.(phase := Colon));
    RunSplit(p, a, a + |key|, a + |key| + 1, s);
    RunSplit(p, a, a + |key| + 1, a + |key| + 2, s);
  }

  /** The rest of a value, from the byte after its first one (at b - 1)
      up to a '\n' after a '\r': the header is dispatched with the value
      ending before the '\r', and the next key starts. */
  lemma {:induction false} ValueToNewline(p: seq<byte>, b: nat, n: nat, s: Scan)
    requires s.phase == Value && !s.stop && b >= 1 && s.v == Span(b - 1, 0)
    requires b + n < |p| && p[b + n] == LF && p[b + n - 1] == CR && forall x :: b <= x < b + n ==> p[x] != LF
    ensures RunFrom(p, b, b + n + 1, s) ==
      s.(phase := Key, v := Span(b - 1, n), hdrs := s.hdrs + [(s.k, Span(b - 1, n))], k := Span(b + n + 1, 0))
  {
    ValueChars(p, b, b + n, s);
    var s1 := s.(v := Span(b - 1, n));
    ValueEnds(p, b + n, s1);
    RunOne(p, b + n, s1);
    RunSplit(p, b, b + n, b + n + 1, s);
  }

  // One step of each kind the round trip needs.

  lemma SkipEnters(p: seq<byte>, cur: nat, s: Scan)
    requires s.phase == Skip && cur < |p| && p[cur] != SP
    ensures Step(p, cur, s) == s.(phase := Field, line := Put(s.line, s.i, Span(cur, 0)))
  {
  }

  lemma FieldSpace(p: seq<byte>, cur: nat, s: Scan)
    requires s.phase == Field && s.i < 2 && cur < |p| && p[cur] == SP
    ensures Step(p, cur, s) ==
      s.(line := Put(s.line, s.i, Get(s.line, s.i).(len := Get(s.line, s.i).len + 1)), phase := Skip, i := s.i + 1)
  {
  }

  lemma FieldEnds(p: seq<byte>, cur: nat, s: Scan)
    requires s.phase == Field && cur < |p| && cur > 0 && p[cur] == LF && p[cur - 1] == CR
    ensures Step(p, cur, s) ==
      s.(line := Put(s.line, s.i, Get(s.line, s.i)), k := Span(cur + 1, 0), phase := Key, ret := cur + 1)
  {
  }

  lemma KeyColon(p: seq<byte>, cur: nat, s: Scan)
    requires s.phase == Key && cur < |p| && p[cur] == COLON
    ensures Step(p, cur, s) == s.(phase := Colon)
  {
  }

  lemma KeyEnds(p: seq<byte>, cur: nat, s: Scan)
    requires s.phase == Key && cur < |p| && p[cur] == LF
    ensures Step(p, cur, s) == s.(ret := cur + 1, stop := true)
  {
  }

  lemma ColonSpace(p: seq<byte>, cur: nat, s: Scan)
    requires s.phase == Colon && cur < |p| && p[cur] == SP
    ensures Step(p, cur, s) == s
  {
  }

  lemma ColonEnters(p: seq<byte>, cur: nat, s: Scan)
    requires s.phase == Colon && cur < |p| && p[cur] != SP
    ensures Step(p, cur, s) == s.(v := Span(cur, 0), phase := Value)
  {
  }

  lemma ValueEnds(p: seq<byte>, cur: nat, s: Scan)
    requires s.phase == Value && cur < |p| && cur > 0 && p[cur] == LF && p[cur - 1] == CR
    ensures Step(p, cur, s) == s.(hdrs := s.hdrs + [(s.k, s.v)], k := Span(cur + 1, 0), phase := Key)
  {
  }

  /** A value and its CRLF: the header is dispatched and the next key starts. */
  lemma {:induction false} ValuePart(p: seq<byte>, a: nat, val: seq<byte>, s: Scan)
    requires s.phase == Colon && !s.stop
    requires (forall j :: 0 <= j < |val| ==> val[j] != LF) && (|val| > 0 ==> val[0] != SP)
    requires At(p, a, val + [CR, LF])
    ensures RunFrom(p, a, a + |val| + 2, s) ==
      s.(phase := Key, v := Span(a, |val|), hdrs := s.hdrs + [(s.k, Span(a, |val|))], k := Span(a + |val| + 2, 0))
  {
    AtByte(p, a, val + [CR, LF], 0);
    AtByte(p, a, val + [CR, LF], |val|);
    AtByte(p, a, val + [CR, LF], |val| + 1);
    forall x | a + 1 <= x < a + |val| + 1
      ensures p[x] != LF
    {
      AtByte(p, a, val + [CR, LF], x - a);
    }
    ColonEnters(p, a, s);
    RunOne(p, a, s);
    ValueToNewline(p, a + 1, |val|, s.(v := Span(a, 0), phase := Value));
    RunSplit(p, a, a + 1, a + |val| + 2, s);
  }

  lemma {:induction false} HeaderLine(p: seq<byte>, a: nat, h: Header, s: Scan)
    requires s.phase == Key && !s.stop && s.k == Span(a, 0) && GoodHeader(h) && At(p, a, HeaderText(h))
    ensures AtKey(RunFrom(p, a, a + |HeaderText(h)|, s), a + |HeaderText(h)|, s.line, s.ret,
                  s.hdrs + [(Span(a, |h.0|), Span(a + |h.0| + 2, |h.1|))])
  {
    assert HeaderText(h) == (h.0 + [COLON, SP]) + (h.1 + [CR, LF]);
    AtConcat(p, a, h.0 + [COLON, SP], h.1 + [CR, LF]);
    KeyPart(p, a, h.0, s);
    ValuePart(p, a + |h.0| + 2, h.1, s.(phase := Colon, k := Span(a, |h.0|)));
    RunSplit(p, a, a + |h.0| + 2, a + |HeaderText(h)|, s);
  }

  lemma {:induction false} HeaderLines(p: seq<byte>, a: nat, hs: seq<Header>, s: Scan)
    requires s.phase == Key && !s.stop && s.k == Span(a, 0) && At(p, a, HeadersText(hs))
    requires forall j :: 0 <= j < |hs| ==> GoodHeader(hs[j])
    ensures AtKey(RunFrom(p, a, a + |HeadersText(hs)|, s), a + |HeadersText(hs)|, s.line, s.ret, s.hdrs + HdrSpans(hs, a))
    decreases |hs|
  {
    if |hs| == 0 {
      assert HeadersText(hs) == [] && HdrSpans(hs, a) == [];
      assert RunFrom(p, a, a, s) == s;
      assert s.hdrs + [] == s.hdrs;
    } else {
      var h := hs[0];
      var b := a + |HeaderText(h)|;
      var e := b + |HeadersText(hs[1..])|;
      assert HeadersText(hs) == HeaderText(h) + HeadersText(hs[1..]);
      AtConcat(p, a, HeaderText(h), HeadersText(hs[1..]));
      HeaderLine(p, a, h, s);
      var t := RunFrom(p, a, b, s);
      HeaderLines(p, b, hs[1..], t);
      AtKeyCompose(p, a, b, e, s, t.line, t.ret, t.hdrs, HdrSpans(hs[1..], b));
      HdrSpansCons(s.hdrs, hs, a);
    }
  }

  lemma {:induction false} AtKeyCompose(p: seq<byte>, a: nat, b: nat, e: nat, s: Scan, line: Line, ret: nat,
                                        h1: seq<(Span, Span)>, h2: seq<(Span, Span)>)
    requires a <= b <= e <= |p|
    requires AtKey(RunFrom(p, a, b, s), b, line, ret, h1)
    requires AtKey(RunFrom(p, b, e, RunFrom(p, a, b, s)), e, line, ret, h1 + h2)
    ensures AtKey(RunFrom(p, a, e, s), e, line, ret, h1 + h2)
  {
    RunSplit(p, a, b, e, s);
  }

  lemma HdrSpansCons(x: seq<(Span, Span)>, hs: seq<Header>, a: nat)
    requires |hs| > 0
    ensures x + HdrSpans(hs, a) ==
      (x + [(Span(a, |hs[0].0|), Span(a + |hs[0].0| + 2, |hs[0].1|))]) + HdrSpans(hs[1..], a + |HeaderText(hs[0])|)
  {
  }

  /** The key and value spans of the header lines designate exactly the
      keys and values written there. */
  lemma {:induction false} HeaderCuts(p: seq<byte>, a: nat, hs: seq<Header>)
    requires At(p, a, HeadersText(hs))
    ensures Cuts(p, HdrSpans(hs, a)) == hs
    decreases |hs|
  {
    if |hs| != 0 {
      var h := hs[0];
      var b := a + |HeaderText(h)|;
      AtConcat(p, a, HeaderText(h), HeadersText(hs[1..]));
      assert HeaderText(h) == (h.0 + [COLON, SP]) + (h.1 + [CR, LF]);
      AtConcat(p, a, h.0 + [COLON, SP], h.1 + [CR, LF]);
      AtConcat(p, a, h.0, [COLON, SP]);
      AtConcat(p, a + |h.0| + 2, h.1, [CR, LF]);
      AtCut(p, a, h.0);
      AtCut(p, a + |h.0| + 2, h.1);
      HeaderCuts(p, b, hs[1..]);
      assert Cuts(p, HdrSpans(hs, a)) == [h] + Cuts(p, HdrSpans(hs[1..], b));
    }
  }

  /** The empty line ends the head: the return value is the offset after it. */
  lemma {:induction false} EndLine(p: seq<byte>, b: nat, t: Scan)
    requires t.phase == Key && !t.stop && b + 2 <= |p| && p[b] == CR && p[b + 1] == LF
    ensures RunFrom(p, b, b + 2, t) == t.(k := t.k.(len := t.k.len + 1), ret := b + 2, stop := true)
  {
    KeyChars(p, b, b + 1, t);
    var t1 := t.(k := t.k.(len := t.k.len + 1));
    KeyEnds(p, b + 1, t1);
    RunOne(p, b + 1, t1);
    RunSplit(p, b, b + 1, b + 2, t);
  }

  /** The first line: its three fields, then the scan waits for a key. */
  lemma {:induction false} FirstLine(p: seq<byte>, a: seq<byte>, b: seq<byte>, c: seq<byte>)
    requires Token(a) && Token(b) && LastField(c) && At(p, 0, (a + [SP]) + (b + [SP]) + (c + [CR, LF]))
    ensures var n1, n2 := |a| + 1, |a| + |b| + 2; var n3 := n2 + |c| + 2;
      AtKey(RunFrom(p, 0, n3, Init), n3, Line(Span(0, |a|), Span(n1, |b|), Span(n2, |c|)), n3, [])
  {
    var n1 := |a| + 1;
    var n2 := n1 + |b| + 1;
    var n3 := n2 + |c| + 2;
    AtConcat(p, 0, (a + [SP]) + (b + [SP]), c + [CR, LF]);
    AtConcat(p, 0, a + [SP], b + [SP]);
    TokenField(p, 0, a, Init);
    var s1 := RunFrom(p, 0, n1, Init);
    TokenField(p, n1, b, s1);
    var s2 := RunFrom(p, n1, n2, s1);
    LastFieldLine(p, n2, c, s2);
    RunSplit(p, 0, n1, n2, Init);
    RunSplit(p, 0, n2, n3, Init);
  }

  /** The bytes each field of the first line designates. */
  lemma FirstLineCuts(p: seq<byte>, a: seq<byte>, b: seq<byte>, c: seq<byte>)
    requires At(p, 0, (a + [SP]) + (b + [SP]) + (c + [CR, LF]))
    ensures Cut(p, Span(0, |a|)) == a && Cut(p, Span(|a| + 1, |b|)) == b && Cut(p, Span(|a| + |b| + 2, |c|)) == c
  {
    AtConcat(p, 0, (a + [SP]) + (b + [SP]), c + [CR, LF]);
    AtConcat(p, 0, a + [SP], b + [SP]);
    AtConcat(p, 0, a, [SP]);
    AtConcat(p, |a| + 1, b, [SP]);
    AtConcat(p, |a| + |b| + 2, c, [CR, LF]);
    AtCut(p, 0, a);
    AtCut(p, |a| + 1, b);
    AtCut(p, |a| + |b| + 2, c);
  }

  /** The scan of a whole buffer that starts with a rendered head: the
      head ends at its empty line, with the fields and header spans laid
      out as written. */
  lemma {:induction false} HeadScan(p: seq<byte>, a: seq<byte>, b: seq<byte>, c: seq<byte>, hs: seq<Header>)
    requires Token(a) && Token(b) && LastField(c) && forall j :: 0 <= j < |hs| ==> GoodHeader(hs[j])
    requires At(p, 0, HeadText(a, b, c, hs))
    ensures var t := RunFrom(p, 0, |p|, Init); var n3 := |a| + |b| + |c| + 4;
      t.line == Line(Span(0, |a|), Span(|a| + 1, |b|), Span(|a| + |b| + 2, |c|))
      && t.ret == |HeadText(a, b, c, hs)| && t.hdrs == HdrSpans(hs, n3)
  {
    var first := (a + [SP]) + (b + [SP]) + (c + [CR, LF]);
    var n3 := |first|;
    var n4 := n3 + |HeadersText(hs)|;
    assert HeadText(a, b, c, hs) == first + HeadersText(hs) + [CR, LF];
    AtConcat(p, 0, first + HeadersText(hs), [CR, LF]);
    AtConcat(p, 0, first, HeadersText(hs));
    AtByte(p, n4, [CR, LF], 0);
    AtByte(p, n4, [CR, LF], 1);
    FirstLine(p, a, b, c);
    var s3 := RunFrom(p, 0, n3, Init);
    HeaderLines(p, n3, hs, s3);
    AtKeyCompose(p, 0, n3, n4, Init, s3.line, s3.ret, s3.hdrs, HdrSpans(hs, n3));
    var s4 := RunFrom(p, 0, n4, Init);
    EndLine(p, n4, s4);
    RunSplit(p, 0, n4, n4 + 2, Init);
    RunStopped(p, 0, n4 + 2, |p|, Init);
  }

  /** A head rendered from well-formed parts decodes back to those parts,
      whatever follows it in the buffer, and the return value is its
      length. */
  lemma {:induction false} RoundTrip(p: seq<byte>, a: seq<byte>, b: seq<byte>, c: seq<byte>, hs: seq<Header>)
    requires Token(a) && Token(b) && LastField(c) && forall j :: 0 <= j < |hs| ==> GoodHeader(hs[j])
    requires At(p, 0, HeadText(a, b, c, hs))
    ensures Decode(p) == Decoded(|HeadText(a, b, c, hs)|, true, a, b, c, hs)
  {
    var n3 := |a| + |b| + |c| + 4;
    HeadPieces(p, a, b, c, hs);
    HeadScan(p, a, b, c, hs);
    FirstLineCuts(p, a, b, c);
    HeaderCuts(p, n3, hs);
    DecodeIs(p, |HeadText(a, b, c, hs)|, a, b, c, hs,
             Line(Span(0, |a|), Span(|a| + 1, |b|), Span(|a| + |b| + 2, |c|)), HdrSpans(hs, n3));
  }

  /** A rendered head is its first line, then its header lines. */
  lemma HeadPieces(p: seq<byte>, a: seq<byte>, b: seq<byte>, c: seq<byte>, hs: seq<Header>)
    requires At(p, 0, HeadText(a, b, c, hs))
    ensures At(p, 0, (a + [SP]) + (b + [SP]) + (c + [CR, LF]))
    ensures At(p, |a| + |b| + |c| + 4, HeadersText(hs))
  {
    var first := (a + [SP]) + (b + [SP]) + (c + [CR, LF]);
    assert HeadText(a, b, c, hs) == first + HeadersText(hs) + [CR, LF];
    AtConcat(p, 0, first + HeadersText(hs), [CR, LF]);
    AtConcat(p, 0, first, HeadersText(hs));
  }

  lemma DecodeIs(p: seq<byte>, n: nat, a: seq<byte>, b: seq<byte>, c: seq<byte>, hs: seq<Header>,
                 line: Line, hdrs: seq<(Span, Span)>)
    requires RunFrom(p, 0, |p|, Init).line == line && RunFrom(p, 0, |p|, Init).ret == n
    requires RunFrom(p, 0, |p|, Init).hdrs == hdrs && line.first.len > 0 && line.second.len > 0
    requires Cut(p, line.first) == a && Cut(p, line.second) == b && Cut(p, line.third) == c && Cuts(p, hdrs) == hs
    ensures Decode(p) == Decoded(n, true, a, b, c, hs)
  {
  }

  lemma OutcomeOf(p: seq<byte>, t: Scan, line: Line, hdrs: seq<(Span, Span)>)
    requires t.line == line && t.hdrs == hdrs && line.first.len > 0 && line.second.len > 0
    ensures Outcome(p, t) == Decoded(t.ret, true, Cut(p, line.first), Cut(p, line.second), Cut(p, line.third), Cuts(p, hdrs))
  {
  }

  /** The length http_decode_buf reports never exceeds the bytes it was
      given, so a caller may advance its cursor by it. */
  lemma DecodeWithin(p: seq<byte>)
    ensures Decode(p).len <= |p|
    ensures p == [] ==> Decode(p).len == 0
  {
    RetAfterNewline(p, |p|);
  }
}
