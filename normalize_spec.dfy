/** Specification of the URL normaliser's passes (normalize.c), one
    recursive function per pass, written over the C string each pass sees.
    The in-place implementations in module Normalize are proved against
    these; the lemmas here say what the passes mean. */
module NormalizeSpec {
  import opened Bytes

  /** Error codes of the library (nads_errcode). */
  datatype Error = BadHex | Traversal | BadUtf8 | NulChar

  function ErrorCode(e: Error): nat
  {
    match e
    case BadHex => 2
    case Traversal => 3
    case BadUtf8 => 4
    case NulChar => 5
  }

  datatype Result<T> = Ok(value: T) | Err(error: Error)

  /** Put `p` in front of a successful result; errors pass through. */
  function PrependAll(p: seq<byte>, r: Result<seq<byte>>): Result<seq<byte>>
  {
    match r
    case Ok(v) => Ok(p + v)
    case Err(e) => Err(e)
  }

  /** The bytes of `s` before its first NUL: what C code sees of a buffer. */
  function CStr(s: seq<byte>): (r: seq<byte>)
    ensures |r| <= |s| && r == s[..|r|] && NoNul(r)
    ensures |r| < |s| ==> s[|r|] == NUL
  {
    if s == [] || s[0] == NUL then [] else [s[0]] + CStr(s[1..])
  }

  // ---------------------------------------------------------------------
  // Percent-decoding (n_hex)

  predicate IsHex(c: byte)
  {
    '0' as byte <= c <= '9' as byte || 'a' as byte <= c <= 'f' as byte || 'A' as byte <= c <= 'F' as byte
  }

  /** hexchar: the value of a hex digit; 0 for any other byte. */
  function HexChar(c: byte): (v: nat)
    ensures v < 16
    ensures !IsHex(c) ==> v == 0
  {
    if '0' as byte <= c <= '9' as byte then (c - '0' as byte) as nat
    else if 'a' as byte <= c <= 'f' as byte then (c - 'a' as byte) as nat + 10
    else if 'A' as byte <= c <= 'F' as byte then (c - 'A' as byte) as nat + 10
    else 0
  }

  /** Decoding of `s` from state st: 0 between escapes, 1 just after '%',
      2 after '%' and one hex digit h. */
  function HexRun(s: seq<byte>, st: nat, h: byte): Result<seq<byte>>
    decreases |s|
  {
    if s == [] then (if st == 0 then Ok([]) else Err(BadHex))
    else if st == 0 then
      if s[0] == PERCENT then HexRun(s[1..], 1, 0)
      else PrependAll([s[0]], HexRun(s[1..], 0, 0))
    else if !IsHex(s[0]) then Err(BadHex)
    else if st == 1 then HexRun(s[1..], 2, s[0])
    else
      var v := HexChar(h) * 16 + HexChar(s[0]);
      if v == 0 then Err(NulChar) else PrependAll([v as byte], HexRun(s[1..], 0, 0))
  }

  /** n_hex with only the case-sensitive server flag: each %HH becomes one
      byte, other bytes are kept. */
  function HexDecode(s: seq<byte>): Result<seq<byte>>
  {
    HexRun(s, 0, 0)
  }

  /** The upper-case hex digit for a value below 16. */
  function HexDigit(v: nat): byte
    requires v < 16
  {
    if v < 10 then '0' as byte + v as byte else 'A' as byte + (v - 10) as byte
  }

  /** Every byte written as %HH. */
  function PercentEncode(x: seq<byte>): (r: seq<byte>)
    ensures |r| == 3 * |x|
  {
    if x == [] then []
    else [PERCENT, HexDigit(x[0] as nat / 16), HexDigit(x[0] as nat % 16)] + PercentEncode(x[1..])
  }

  lemma HexDigitValue(v: nat)
    requires v < 16
    ensures IsHex(HexDigit(v)) && HexChar(HexDigit(v)) == v
  {
  }

  /** Decoding undoes percent-encoding of any NUL-free byte string. */
  lemma {:induction false} HexDecodeEncode(x: seq<byte>)
    requires NoNul(x)
    ensures HexDecode(PercentEncode(x)) == Ok(x)
  {
    if x != [] {
      var b := x[0];
      var e := PercentEncode(x);
      HexDigitValue(b as nat / 16);
      HexDigitValue(b as nat % 16);
      var d1, d2 := HexDigit(b as nat / 16), HexDigit(b as nat % 16);
      assert e[0] == PERCENT && e[1] == d1 && e[2] == d2;
      assert e[1..][0] == d1 && e[1..][1..][0] == d2;
      assert e[1..][1..][1..] == PercentEncode(x[1..]);
      assert HexChar(d1) * 16 + HexChar(d2) == b as nat;
      assert HexRun(e[1..][1..], 2, d1) == PrependAll([b], HexRun(e[1..][1..][1..], 0, 0));
      assert HexRun(e[1..], 1, 0) == HexRun(e[1..][1..], 2, d1);
      assert HexRun(e, 0, 0) == HexRun(e[1..], 1, 0);
      HexDecodeEncode(x[1..]);
      assert [b] + x[1..] == x;
    }
  }

  /** A string without '%' decodes to itself. */
  lemma {:induction false} HexDecodePlain(s: seq<byte>)
    requires forall i :: 0 <= i < |s| ==> s[i] != PERCENT
    ensures HexDecode(s) == Ok(s)
  {
    if s != [] {
      HexDecodePlain(s[1..]);
      assert [s[0]] + s[1..] == s;
    }
  }

  /** Decoding never lengthens the string and never produces a NUL
      from a NUL-free input. */
  lemma {:induction false} HexRunShrinks(s: seq<byte>, st: nat, h: byte)
    requires NoNul(s)
    ensures HexRun(s, st, h).Ok? ==> |HexRun(s, st, h).value| <= |s| && NoNul(HexRun(s, st, h).value)
  {
    if s != [] {
      HexRunShrinks(s[1..], if st == 0 && s[0] == PERCENT then 1 else if st == 1 then 2 else 0,
                    if st == 1 then s[0] else 0);
    }
  }

  // ---------------------------------------------------------------------
  // Slash collapsing (n_pcount)

  function SlashFold(c: byte): byte
  {
    if c == BACKSLASH then SLASH else c
  }

  /** n_pcount's output: backslashes become slashes and a slash whose
      input predecessor was a slash is dropped. `prev` says whether the
      byte before `s` was a slash. */
  function Collapse(s: seq<byte>, prev: bool): seq<byte>
  {
    if s == [] then []
    else
      var c := SlashFold(s[0]);
      if c == SLASH && prev then Collapse(s[1..], true)
      else [c] + Collapse(s[1..], c == SLASH)
  }

  /** The number of slashes in s. */
  function SlashCount(s: seq<byte>): nat
  {
    if s == [] then 0 else SlashCount(s[..|s| - 1]) + (if s[|s| - 1] == SLASH then 1 else 0)
  }

  /** No backslash, and no slash directly after a slash. */
  predicate Collapsed(s: seq<byte>)
  {
    (forall i :: 0 <= i < |s| ==> s[i] != BACKSLASH) &&
    (forall i :: 0 < i < |s| && s[i] == SLASH ==> s[i - 1] != SLASH)
  }

  lemma {:induction false} CollapseProperties(s: seq<byte>, prev: bool)
    ensures |Collapse(s, prev)| <= |s|
    ensures Collapsed(Collapse(s, prev))
    ensures prev && Collapse(s, prev) != [] ==> Collapse(s, prev)[0] != SLASH
    ensures NoNul(s) ==> NoNul(Collapse(s, prev))
    ensures !prev && s != [] ==> Collapse(s, prev) != []
  {
    if s != [] {
      var c := SlashFold(s[0]);
      CollapseProperties(s[1..], c == SLASH || prev);
      if !(c == SLASH && prev) {
        var r := Collapse(s[1..], c == SLASH);
        CollapseProperties(s[1..], c == SLASH);
        assert Collapse(s, prev) == [c] + r;
        forall i | 0 < i < |[c] + r| && ([c] + r)[i] == SLASH ensures ([c] + r)[i - 1] != SLASH {
          if i > 1 {
            assert ([c] + r)[i] == r[i - 1] && ([c] + r)[i - 1] == r[i - 2];
          }
        }
      }
    }
  }

  /** Collapsing an already collapsed string changes nothing. */
  lemma {:induction false} CollapseIdempotent(s: seq<byte>, prev: bool)
    requires Collapsed(s)
    requires prev && s != [] ==> s[0] != SLASH
    ensures Collapse(s, prev) == s
  {
    if s != [] {
      assert SlashFold(s[0]) == s[0];
      if |s| > 1 {
        assert s[1] == SLASH ==> s[0] != SLASH;
      }
      CollapseIdempotent(s[1..], s[0] == SLASH);
      assert [s[0]] + s[1..] == s;
    }
  }

  // ---------------------------------------------------------------------
  // Dot-segment removal (n_path)

  predicate NoSlash(s: seq<byte>)
  {
    forall i :: 0 <= i < |s| ==> s[i] != SLASH
  }

  /** The components n_path collects, read left to right: each slash
      starts a new, empty component and any other byte extends the current
      one; bytes before the first slash belong to no component. */
  function Components(t: seq<byte>): seq<seq<byte>>
  {
    if t == [] then []
    else
      var cs := Components(t[..|t| - 1]);
      var c := t[|t| - 1];
      if c == SLASH then cs + [[]]
      else if cs == [] then []
      else cs[..|cs| - 1] + [cs[|cs| - 1] + [c]]
  }

  const DOT1: seq<byte> := [DOT]
  const DOT2: seq<byte> := [DOT, DOT]

  /** No component contains a slash or is "." or "..". */
  predicate Clean(ks: seq<seq<byte>>)
  {
    forall j :: 0 <= j < |ks| ==> NoSlash(ks[j]) && ks[j] != DOT1 && ks[j] != DOT2
  }

  /** Strip "." and let ".." drop the last kept component; climbing above
      the root is an error. `kept` is what survived so far. */
  function Resolve(cs: seq<seq<byte>>, kept: seq<seq<byte>>): Result<seq<seq<byte>>>
  {
    if cs == [] then Ok(kept)
    else if cs[0] == DOT1 then Resolve(cs[1..], kept)
    else if cs[0] == DOT2 then
      (if kept == [] then Err(Traversal) else Resolve(cs[1..], kept[..|kept| - 1]))
    else Resolve(cs[1..], kept + [cs[0]])
  }

  /** The components joined with single slashes. */
  function Join(ks: seq<seq<byte>>): seq<byte>
  {
    if ks == [] then []
    else if |ks| == 1 then ks[0]
    else Join(ks[..|ks| - 1]) + [SLASH] + ks[|ks| - 1]
  }

  /** n_path on the C string t (n_pcount runs first). */
  function Path(t: seq<byte>): Result<seq<byte>>
  {
    match Resolve(Components(Collapse(t, false)), [])
    case Ok(ks) => Ok([SLASH] + Join(ks))
    case Err(e) => Err(e)
  }

  /** There is one component per slash, none contains a slash, and none
      contains a NUL when t does not. */
  lemma {:induction false} ComponentsCount(t: seq<byte>)
    ensures |Components(t)| == SlashCount(t)
    ensures forall j :: 0 <= j < |Components(t)| ==> NoSlash(Components(t)[j])
    ensures NoNul(t) ==> forall j :: 0 <= j < |Components(t)| ==> NoNul(Components(t)[j])
  {
    if t != [] {
      ComponentsCount(t[..|t| - 1]);
    }
  }

  /** Bytes without a slash extend the last component. */
  lemma {:induction false} ComponentsExtend(p: seq<byte>, w: seq<byte>)
    requires NoSlash(w) && Components(p) != []
    ensures Components(p + w) == Components(p)[..|Components(p)| - 1] + [Components(p)[|Components(p)| - 1] + w]
  {
    var cs := Components(p);
    if w == [] {
      assert p + w == p;
      assert cs[|cs| - 1] + w == cs[|cs| - 1];
      assert cs[..|cs| - 1] + [cs[|cs| - 1]] == cs;
    } else {
      var w' := w[..|w| - 1];
      assert (p + w)[..|p + w| - 1] == p + w';
      ComponentsExtend(p, w');
      var cs' := Components(p + w');
      assert cs' != [] && cs'[..|cs'| - 1] == cs[..|cs| - 1] && cs'[|cs'| - 1] == cs[|cs| - 1] + w';
      assert (p + w)[|p + w| - 1] == w[|w| - 1] != SLASH;
      assert w' + [w[|w| - 1]] == w;
      assert (cs[|cs| - 1] + w') + [w[|w| - 1]] == cs[|cs| - 1] + w;
    }
  }

  /** A slash starts a new, empty component. */
  lemma ComponentsSlash(p: seq<byte>)
    ensures Components(p + [SLASH]) == Components(p) + [[]]
  {
    assert (p + [SLASH])[..|p|] == p;
  }

  lemma SeqAssoc(a: seq<byte>, b: seq<byte>, c: seq<byte>)
    ensures a + (b + c) == a + b + c
  {
  }

  /** A rooted join is the rooted join of all but the last component
      (nothing when there is only one), a slash, and the last component. */
  lemma RootedJoinSnoc(ks: seq<seq<byte>>)
    requires |ks| >= 1
    ensures [SLASH] + Join(ks) ==
      (if |ks| == 1 then [] else [SLASH] + Join(ks[..|ks| - 1])) + [SLASH] + ks[|ks| - 1]
  {
    var l := ks[|ks| - 1];
    if |ks| > 1 {
      var j := Join(ks[..|ks| - 1]);
      assert Join(ks) == j + [SLASH] + l;
      SeqAssoc([SLASH], j + [SLASH], l);
      SeqAssoc([SLASH], j, [SLASH]);
    } else {
      assert Join(ks) == l;
    }
  }

  /** A slash followed by slash-free bytes adds one component. */
  lemma ComponentsAddOne(p: seq<byte>, last: seq<byte>)
    requires NoSlash(last)
    ensures Components(p + [SLASH] + last) == Components(p) + [last]
  {
    var q := p + [SLASH];
    ComponentsSlash(p);
    var cq := Components(q);
    ComponentsExtend(q, last);
    assert cq[..|cq| - 1] == Components(p) && cq[|cq| - 1] + last == last;
  }

  /** Splitting a joined, rooted path gives its components back. */
  lemma {:induction false} ComponentsJoin(ks: seq<seq<byte>>)
    requires |ks| >= 1 && forall j :: 0 <= j < |ks| ==> NoSlash(ks[j])
    ensures Components([SLASH] + Join(ks)) == ks
  {
    var last := ks[|ks| - 1];
    var init := ks[..|ks| - 1];
    var full := [SLASH] + Join(ks);
    RootedJoinSnoc(ks);
    assert init + [last] == ks;
    if |ks| == 1 {
      assert full == [] + [SLASH] + last;
      ComponentsAddOne([], last);
    } else {
      var p := [SLASH] + Join(init);
      assert full == p + [SLASH] + last;
      ComponentsJoin(init);
      ComponentsAddOne(p, last);
    }
  }

  /** The room components take when written out: each with one separator. */
  function Measure(ks: seq<seq<byte>>): nat
  {
    if ks == [] then 0 else Measure(ks[..|ks| - 1]) + |ks[|ks| - 1]| + 1
  }

  lemma {:induction false} MeasureAppend(a: seq<seq<byte>>, b: seq<seq<byte>>)
    ensures Measure(a + b) == Measure(a) + Measure(b)
  {
    if b != [] {
      assert (a + b)[..|a + b| - 1] == a + b[..|b| - 1];
      MeasureAppend(a, b[..|b| - 1]);
    } else {
      assert a + b == a;
    }
  }

  lemma {:induction false} ComponentsMeasure(t: seq<byte>)
    ensures Measure(Components(t)) <= |t|
  {
    if t != [] {
      var cs := Components(t[..|t| - 1]);
      ComponentsMeasure(t[..|t| - 1]);
      var c := t[|t| - 1];
      if c == SLASH {
        MeasureAppend(cs, [[]]);
      } else if cs != [] {
        var init := cs[..|cs| - 1];
        assert cs == init + [cs[|cs| - 1]];
        MeasureAppend(init, [cs[|cs| - 1]]);
        MeasureAppend(init, [cs[|cs| - 1] + [c]]);
      }
    }
  }

  lemma {:induction false} ResolveMeasure(cs: seq<seq<byte>>, kept: seq<seq<byte>>)
    ensures Resolve(cs, kept).Ok? ==> Measure(Resolve(cs, kept).value) <= Measure(kept) + Measure(cs)
  {
    if cs != [] {
      MeasureAppend([cs[0]], cs[1..]);
      assert [cs[0]] + cs[1..] == cs;
      assert Measure([cs[0]]) == |cs[0]| + 1;
      if cs[0] == DOT1 {
        ResolveMeasure(cs[1..], kept);
      } else if cs[0] == DOT2 {
        if kept != [] {
          ResolveMeasure(cs[1..], kept[..|kept| - 1]);
        }
      } else {
        ResolveMeasure(cs[1..], kept + [cs[0]]);
        MeasureAppend(kept, [cs[0]]);
      }
    }
  }

  lemma {:induction false} JoinLength(ks: seq<seq<byte>>)
    requires |ks| >= 1
    ensures |Join(ks)| + 1 == Measure(ks)
  {
    if |ks| > 1 {
      JoinLength(ks[..|ks| - 1]);
    }
  }

  /** Every component Resolve keeps comes from its input or from `kept`. */
  lemma {:induction false} ResolveKeeps(cs: seq<seq<byte>>, kept: seq<seq<byte>>)
    requires forall j :: 0 <= j < |cs| ==> NoSlash(cs[j])
    requires Clean(kept)
    ensures Resolve(cs, kept).Ok? ==> Clean(Resolve(cs, kept).value)
    ensures ((forall j :: 0 <= j < |cs| ==> NoNul(cs[j])) && (forall j :: 0 <= j < |kept| ==> NoNul(kept[j])) &&
      Resolve(cs, kept).Ok?) ==> forall j :: 0 <= j < |Resolve(cs, kept).value| ==> NoNul(Resolve(cs, kept).value[j])
  {
    if cs != [] {
      if cs[0] == DOT1 {
        ResolveKeeps(cs[1..], kept);
      } else if cs[0] == DOT2 {
        if kept != [] {
          ResolveKeeps(cs[1..], kept[..|kept| - 1]);
        }
      } else {
        ResolveKeeps(cs[1..], kept + [cs[0]]);
      }
    }
  }

  lemma {:induction false} JoinNoNul(ks: seq<seq<byte>>)
    requires forall j :: 0 <= j < |ks| ==> NoNul(ks[j])
    ensures NoNul(Join(ks))
  {
    if |ks| > 1 {
      JoinNoNul(ks[..|ks| - 1]);
    }
  }

  /** A normalised path starts with '/', is no longer than its input (or
      one byte for an empty input), its components are exactly those
      Resolve kept, and none of them is "." or "..". */
  lemma PathShape(t: seq<byte>)
    ensures Path(t).Ok? ==> 1 <= |Path(t).value| <= (if |t| == 0 then 1 else |t|) && Path(t).value[0] == SLASH
    ensures Path(t).Ok? ==>
      var ks := Resolve(Components(Collapse(t, false)), []).value;
      Clean(ks) && (|ks| >= 1 ==> Components(Path(t).value) == ks)
    ensures Path(t).Ok? ==> Clean(Components(Path(t).value))
    ensures Path(t).Ok? && NoNul(t) ==> NoNul(Path(t).value)
  {
    var c := Collapse(t, false);
    CollapseProperties(t, false);
    ComponentsCount(c);
    ComponentsMeasure(c);
    ResolveKeeps(Components(c), []);
    ResolveMeasure(Components(c), []);
    match Resolve(Components(c), [])
    case Ok(ks) =>
      if |ks| >= 1 {
        JoinLength(ks);
        ComponentsJoin(ks);
      } else {
        assert [SLASH][..0] == [];
        assert Components([SLASH]) == [[]];
      }
      if NoNul(t) {
        JoinNoNul(ks);
      }
    case Err(_) =>
  }

  /** ".." directly after a component cancels it. */
  lemma ResolveDotDot(cs: seq<seq<byte>>, kept: seq<seq<byte>>, name: seq<byte>)
    requires name != DOT1 && name != DOT2
    ensures Resolve([name, DOT2] + cs, kept) == Resolve(cs, kept)
  {
    assert ([name, DOT2] + cs)[1..] == [DOT2] + cs;
    assert ([DOT2] + cs)[1..] == cs;
    assert (kept + [name])[..|kept|] == kept;
  }

  // ---------------------------------------------------------------------
  // UTF-8 overlong collapsing (n_utf8)

  /** The sequence length n_utf8 derives from a lead byte (high bit set):
      the number of leading one bits, except that a byte 10xxxxxx gives 1
      and the count stops at 7 for 0xFE and 0xFF. */
  function LeadLen(c: byte): (len: nat)
    requires c >= 0x80
    ensures 1 <= len <= 7
    ensures len == 1 <==> c < 0xC0
    ensures len == 7 <==> c >= 0xFE
  {
    if c < 0xC0 then 1
    else if c < 0xE0 then 2
    else if c < 0xF0 then 3
    else if c < 0xF8 then 4
    else if c < 0xFC then 5
    else if c < 0xFE then 6
    else 7
  }

  function Pow2(k: nat): (r: nat)
    ensures r >= 1
  {
    if k == 0 then 1 else 2 * Pow2(k - 1)
  }

  /** The low six bits of each byte, most significant first. */
  function Low6(s: seq<byte>): nat
  {
    if s == [] then 0 else Low6(s[..|s| - 1]) * 64 + s[|s| - 1] as int % 64
  }

  /** n_ucs4 for 2 <= len <= 6: the lead keeps 7 - len bits (fmask), each
      following byte its low six bits. */
  function Ucs4(chr: seq<byte>): nat
    requires 2 <= |chr| <= 6
  {
    (chr[0] as int % Pow2(7 - |chr|)) * Pow2(6 * (|chr| - 1)) + Low6(chr[1..])
  }

  /** What a complete sequence becomes: one byte when its value is below
      0x100, otherwise the sequence itself. */
  function Emit(chr: seq<byte>): (r: seq<byte>)
    requires 2 <= |chr| <= 6
    ensures |r| == 1 || r == chr
  {
    var v := Ucs4(chr);
    if v < 0x100 then [v as byte] else chr
  }

  /** n_utf8 outside a sequence, with its guard as intended: 0xFE and 0xFF
      are rejected anywhere, and so is a continuation byte (0x80-0xBF) in
      lead position (see LeadLenAsWritten for what the code does instead). */
  function Utf8(s: seq<byte>): Result<seq<byte>>
    decreases |s|, 1
  {
    if s == [] then Ok([])
    else if s[0] >= 0xFE then Err(BadUtf8)
    else if s[0] < 0x80 then PrependAll([s[0]], Utf8(s[1..]))
    else if LeadLen(s[0]) == 1 then Err(BadUtf8)
    else Utf8Pending([s[0]], LeadLen(s[0]), s[1..])
  }

  /** n_utf8 inside a sequence of `len` bytes of which `pend` are seen.
      Continuation markers are not checked. */
  function Utf8Pending(pend: seq<byte>, len: nat, rest: seq<byte>): Result<seq<byte>>
    requires 2 <= len <= 6 && 1 <= |pend| < len
    decreases |rest|, 0
  {
    if rest == [] then Err(BadUtf8)
    else if rest[0] >= 0xFE then Err(BadUtf8)
    else
      var p := pend + [rest[0]];
      if |p| >= len then PrependAll(Emit(p), Utf8(rest[1..]))
      else Utf8Pending(p, len, rest[1..])
  }

  /** The two-byte overlong form of a byte below 0x80. */
  function Overlong2(b: byte): seq<byte>
    requires b < 0x80
  {
    [0xC0 + b / 64, 0x80 + b % 64]
  }

  /** An overlong two-byte encoding of an ASCII byte collapses to that byte. */
  lemma Utf8CollapsesOverlong(b: byte, rest: seq<byte>)
    requires b < 0x80
    ensures Utf8(Overlong2(b) + rest) == PrependAll([b], Utf8(rest))
  {
    var s := Overlong2(b) + rest;
    assert s[0] == 0xC0 + b / 64 && s[1..] == [0x80 + b % 64] + rest;
    assert LeadLen(s[0]) == 2;
    var p := [s[0]] + [0x80 + b % 64];
    assert Pow2(5) == 32 && Pow2(6) == 64;
    assert (s[0] as int) % 32 == (b / 64) as int;
    assert p[1..] == [0x80 + b % 64] && [0x80 + b % 64][..0] == [];
    assert Low6(p[1..]) == (b % 64) as int;
    assert Ucs4(p) == (b / 64) as int * 64 + (b % 64) as int;
    assert Emit(p) == [b];
    assert s[1..][1..] == rest;
  }

  /** Bytes below 0x80 pass through unchanged. */
  lemma {:induction false} Utf8Ascii(s: seq<byte>)
    requires forall i :: 0 <= i < |s| ==> s[i] < 0x80
    ensures Utf8(s) == Ok(s)
  {
    if s != [] {
      Utf8Ascii(s[1..]);
      assert [s[0]] + s[1..] == s;
    }
  }

  /** A three-byte sequence whose value is 0x100 or more is kept verbatim. */
  lemma Utf8KeepsWide(c0: byte, c1: byte, c2: byte, rest: seq<byte>)
    requires 0xE0 <= c0 < 0xF0 && c1 < 0xFE && c2 < 0xFE
    requires (c0 as int % 16) * 4096 + (c1 as int % 64) * 64 + (c2 as int % 64) >= 0x100
    ensures Utf8([c0, c1, c2] + rest) == PrependAll([c0, c1, c2], Utf8(rest))
  {
    var s := [c0, c1, c2] + rest;
    assert LeadLen(c0) == 3;
    assert s[1..] == [c1, c2] + rest && s[1..][1..] == [c2] + rest && s[1..][1..][1..] == rest;
    assert [c0] + [c1] + [c2] == [c0, c1, c2];
    assert Pow2(4) == 16 && Pow2(12) == 4096;
    assert [c0, c1, c2][1..] == [c1, c2] && [c1, c2][..1] == [c1] && [c1][..0] == [];
    assert Low6([c1]) == c1 as int % 64;
    assert Low6([c1, c2]) == (c1 as int % 64) * 64 + c2 as int % 64;
    assert Ucs4([c0, c1, c2]) == (c0 as int % 16) * 4096 + (c1 as int % 64) * 64 + (c2 as int % 64);
    assert Emit([c0, c1, c2]) == [c0, c1, c2];
    assert ([c2] + rest)[0] == c2 && ([c2] + rest)[1..] == rest;
    assert [c0, c1] + [c2] == [c0, c1, c2];
    assert Utf8Pending([c0, c1], 3, [c2] + rest) == PrependAll([c0, c1, c2], Utf8(rest));
    assert Utf8Pending([c0], 3, s[1..]) == Utf8Pending([c0, c1], 3, [c2] + rest);
    assert Utf8(s) == Utf8Pending([c0], 3, s[1..]);
  }

  /** A sequence cut off by the end of the string is an error. */
  lemma Utf8Truncated(c0: byte)
    requires 0xC0 <= c0 < 0xFE
    ensures Utf8([c0]) == Err(BadUtf8)
  {
  }

  // ---------------------------------------------------------------------
  // The bytes n_utf8 tests as written

  /** `*in` is a plain char, signed on the target: the value a byte has
      when compared with an int constant. */
  function SignedChar(b: byte): int
  {
    if b < 0x80 then b as int else b as int - 256
  }

  /** The test at the top of n_utf8's loop as written. */
  predicate RejectedAsWritten(b: byte)
  {
    SignedChar(b) == 0xff || SignedChar(b) == 0xfe
  }

  /** n_utf8's lead-length loop as written, for a byte with its high bit
      set: it yields 7 for 0xFE/0xFF, past the end of the six-byte chr
      buffer, and 1 for a continuation byte, which makes n_ucs4 read
      fmask[-1]. */
  function LeadLenAsWritten(b: byte): nat
    requires b >= 0x80
  {
    LeadLen(b)
  }

  /** The 0xff/0xfe guard never fires, so 0xFE reaches a sequence length
      of 7 and 0x80 one of 1, both outside n_ucs4's table; the corrected
      pass rejects both. */
  lemma Utf8GuardNeverFires()
    ensures forall b: byte :: !RejectedAsWritten(b)
    ensures LeadLenAsWritten(0xFE) == 7 && LeadLenAsWritten(0x80) == 1
    ensures Utf8([0xFE]) == Err(BadUtf8) && Utf8([0x80, 0x41]) == Err(BadUtf8)
  {
  }

  // ---------------------------------------------------------------------
  // Splitting off the query (n_split) and the whole pass (nads_normalize)

  /** The position of the first '?' in buf, or -1. */
  function QueryMark(buf: seq<byte>): (k: int)
    ensures -1 <= k < |buf|
    ensures k >= 0 ==> buf[k] == QMARK
    ensures forall i :: 0 <= i < |buf| && (k < 0 || i < k) ==> buf[i] != QMARK
  {
    if buf == [] then -1
    else if buf[0] == QMARK then 0
    else var k := QueryMark(buf[1..]); if k < 0 then -1 else k + 1
  }

  /** The request target before the first '?'. */
  function SplitUri(buf: seq<byte>): seq<byte>
  {
    var k := QueryMark(buf);
    if k < 0 then buf else buf[..k]
  }

  /** The bytes after the first '?', if there is one. */
  function SplitQuery(buf: seq<byte>): Option<seq<byte>>
  {
    var k := QueryMark(buf);
    if k < 0 then None else Some(buf[k + 1..])
  }

  /** The two halves put back together, with the '?' between them, give
      the whole buffer, and the first half holds no '?'. */
  lemma SplitRejoins(buf: seq<byte>)
    ensures forall i :: 0 <= i < |SplitUri(buf)| ==> SplitUri(buf)[i] != QMARK
    ensures SplitQuery(buf).None? ==> SplitUri(buf) == buf
    ensures SplitQuery(buf).Some? ==> buf == SplitUri(buf) + [QMARK] + SplitQuery(buf).value
  {
    var k := QueryMark(buf);
    if k >= 0 {
      assert buf == buf[..k] + [QMARK] + buf[k + 1..];
    }
  }

  /** The first '?' of u + "?" + q is the one after u. */
  lemma SplitOf(u: seq<byte>, q: seq<byte>)
    requires forall i :: 0 <= i < |u| ==> u[i] != QMARK
    ensures SplitUri(u + [QMARK] + q) == u && SplitQuery(u + [QMARK] + q) == Some(q)
    ensures SplitUri(u) == u && SplitQuery(u) == None
  {
    var b := u + [QMARK] + q;
    var k := QueryMark(b);
    assert b[|u|] == QMARK;
    assert forall i :: 0 <= i < |u| ==> b[i] == u[i];
    assert k == |u|;
    assert b[..|u|] == u && b[|u| + 1..] == q;
  }

  /** A normalised request: its path and its decoded query string. */
  datatype Normalised = Normalised(uri: seq<byte>, query: Option<seq<byte>>)

  /** The passes over the request target: percent-decoding, UTF-8
      collapsing and path normalisation, each seeing the C string the
      previous one left. */
  function NormalizeUri(u: seq<byte>): Result<seq<byte>>
  {
    match HexDecode(CStr(u))
    case Err(e) => Err(e)
    case Ok(h) => Recode(h)
  }

  /** The passes after percent-decoding: UTF-8 collapsing, then path
      normalisation of the C string it leaves. */
  function Recode(h: seq<byte>): Result<seq<byte>>
  {
    match Utf8(h)
    case Err(e) => Err(e)
    case Ok(w) => Path(CStr(w))
  }

  /** The normalised target together with the percent-decoded query. */
  function Assemble(uri: Result<seq<byte>>, query: Option<seq<byte>>): Result<Normalised>
  {
    match uri
    case Err(e) => Err(e)
    case Ok(p) =>
      match query
      case None => Ok(Normalised(p, None))
      case Some(q) =>
        match HexDecode(CStr(q))
        case Err(e) => Err(e)
        case Ok(d) => Ok(Normalised(p, Some(d)))
  }

  /** nads_normalize as intended: the query is decoded from its own bytes. */
  function Normalize(buf: seq<byte>): Result<Normalised>
  {
    Assemble(NormalizeUri(SplitUri(buf)), SplitQuery(buf))
  }

  /** nads_normalize as written: with an empty target n_path writes its
      terminator one byte past the target's, over the first byte of the
      query, so the query is seen as empty. */
  function NormalizeAsWritten(buf: seq<byte>): Result<Normalised>
  {
    Assemble(NormalizeUri(SplitUri(buf)), QuerySeen(buf))
  }

  /** The query n_hex sees in the code as written: empty when the target
      is empty. */
  function QuerySeen(buf: seq<byte>): Option<seq<byte>>
  {
    var q := SplitQuery(buf);
    if SplitUri(buf) == [] && q.Some? then Some([]) else q
  }

  /** The target's normalisation does not depend on the query, nor the
      query's decoding on the target. */
  lemma NormalizeSeparates(u: seq<byte>, q: seq<byte>)
    requires forall i :: 0 <= i < |u| ==> u[i] != QMARK
    ensures Normalize(u + [QMARK] + q) == Assemble(NormalizeUri(u), Some(q))
    ensures Normalize(u) == Assemble(NormalizeUri(u), None)
  {
    SplitOf(u, q);
  }

  /** A normalised target starts with '/' and has no "." or ".."
      component and no slash inside a component. */
  lemma NormalizedUriClean(buf: seq<byte>)
    ensures Normalize(buf).Ok? ==>
      |Normalize(buf).value.uri| >= 1 && Normalize(buf).value.uri[0] == SLASH &&
      Clean(Components(Normalize(buf).value.uri))
  {
    match HexDecode(CStr(SplitUri(buf)))
    case Err(_) =>
    case Ok(h) =>
      match Utf8(h)
      case Err(_) =>
      case Ok(w) => PathShape(CStr(w));
  }

  /** The code as written agrees with the intended pass unless the target
      is empty and a query is present. */
  lemma AsWrittenAgrees(buf: seq<byte>)
    requires SplitUri(buf) != [] || SplitQuery(buf).None?
    ensures NormalizeAsWritten(buf) == Normalize(buf)
  {
  }

  /** "?a": the query "a" is lost by the code as written. */
  lemma QueryLostAsWritten()
    ensures NormalizeAsWritten([QMARK, 'a' as byte]) == Ok(Normalised([SLASH], Some([])))
    ensures Normalize([QMARK, 'a' as byte]) == Ok(Normalised([SLASH], Some(['a' as byte])))
  {
    var buf: seq<byte> := [QMARK, 'a' as byte];
    assert QueryMark(buf) == 0;
    assert SplitUri(buf) == [] && SplitQuery(buf) == Some(['a' as byte]);
    assert Components([]) == [];
    assert Collapse([], false) == [] && Resolve([], []) == Ok([]);
    assert [SLASH] + Join([]) == [SLASH];
    assert Path([]) == Ok([SLASH]);
    assert NormalizeUri([]) == Ok([SLASH]);
    var a: seq<byte> := ['a' as byte];
    assert CStr(a) == a by {
      assert a[1..] == [];
    }
    assert HexDecode(a) == Ok(a) by {
      assert a[1..] == [];
      assert HexRun(a, 0, 0) == PrependAll(a, HexRun([], 0, 0));
    }
  }

  // ---------------------------------------------------------------------
  // Facts the in-place passes rely on

  lemma PrependAllAppend(p: seq<byte>, q: seq<byte>, r: Result<seq<byte>>)
    ensures PrependAll(p, PrependAll(q, r)) == PrependAll(p + q, r)
  {
    if r.Ok? {
      assert p + (q + r.value) == (p + q) + r.value;
    }
  }

  /** A C string ends at its first NUL, whatever follows. */
  lemma {:induction false} CStrUpTo(s: seq<byte>, k: nat)
    requires k < |s| && s[k] == NUL
    ensures CStr(s) == CStr(s[..k])
  {
    if k > 0 && s[0] != NUL {
      CStrUpTo(s[1..], k - 1);
      assert s[1..][..k - 1] == s[..k][1..];
    }
  }

  lemma {:induction false} CStrNoNul(u: seq<byte>)
    requires NoNul(u)
    ensures CStr(u) == u
  {
    if u != [] {
      CStrNoNul(u[1..]);
      assert [u[0]] + u[1..] == u;
    }
  }

  lemma {:induction false} SlashCountPrefix(t: seq<byte>, j: nat)
    requires j <= |t|
    ensures SlashCount(t[..j]) <= SlashCount(t)
  {
    if j < |t| {
      assert t[..j] == t[..|t| - 1][..j];
      SlashCountPrefix(t[..|t| - 1], j);
    } else {
      assert t[..j] == t;
    }
  }

  lemma {:induction false} Pow2Add(a: nat, b: nat)
    ensures Pow2(a + b) == Pow2(a) * Pow2(b)
  {
    if a > 0 {
      Pow2Add(a - 1, b);
    }
  }

  lemma {:induction false} Low6Cons(x: byte, s: seq<byte>)
    ensures Low6([x] + s) == (x as int % 64) * Pow2(6 * |s|) + Low6(s)
  {
    if s == [] {
      assert [x] + s == [x] && [x][..0] == [];
    } else {
      var init, last := s[..|s| - 1], s[|s| - 1] as int % 64;
      assert ([x] + s)[..|s|] == [x] + init && ([x] + s)[|s|] == s[|s| - 1];
      assert Low6([x] + s) == Low6([x] + init) * 64 + last;
      Low6Cons(x, init);
      Pow2Add(6 * |init|, 6);
      assert Pow2(6) == 64;
      ShiftSum(x as int % 64, Pow2(6 * |init|), Low6(init));
    }
  }

  /** Shifting h * p + l left by six bits. */
  lemma ShiftSum(h: int, p: int, l: int)
    ensures (h * p + l) * 64 == h * (p * 64) + l * 64
  {
  }

  predicate IsPrefix(p: seq<byte>, s: seq<byte>)
  {
    |p| <= |s| && s[..|p|] == p
  }

  /** The first i components joined, and then the separator when more
      follow, are a prefix of the whole join. */
  lemma {:induction false} JoinPrefixes(ks: seq<seq<byte>>, i: nat)
    requires 1 <= i <= |ks|
    ensures IsPrefix(Join(ks[..i]), Join(ks))
    ensures i < |ks| ==> IsPrefix(Join(ks[..i]) + [SLASH], Join(ks))
  {
    if i == |ks| {
      assert ks[..i] == ks;
    } else {
      var init := ks[..|ks| - 1];
      var j, l := Join(init), ks[|ks| - 1];
      assert Join(ks) == j + [SLASH] + l;
      assert init[..i] == ks[..i];
      JoinPrefixes(init, i);
      assert (j + [SLASH] + l)[..|j| + 1] == j + [SLASH];
      if i < |init| {
        assert IsPrefix(Join(ks[..i]) + [SLASH], j);
      } else {
        assert init == ks[..i];
      }
    }
  }

  /** One step of n_pcount's loop: the byte read is dropped or kept. */
  lemma CollapseAdvance(whole: seq<byte>, done: seq<byte>, r: seq<byte>, prev: bool)
    requires r != [] && whole == done + Collapse(r, prev)
    ensures SlashFold(r[0]) == SLASH && prev ==> whole == done + Collapse(r[1..], true)
    ensures !(SlashFold(r[0]) == SLASH && prev) ==>
      whole == (done + [SlashFold(r[0])]) + Collapse(r[1..], SlashFold(r[0]) == SLASH)
  {
    var c := SlashFold(r[0]);
    if !(c == SLASH && prev) {
      assert done + ([c] + Collapse(r[1..], c == SLASH)) == (done + [c]) + Collapse(r[1..], c == SLASH);
    }
  }

  lemma SlashCountSnoc(s: seq<byte>, c: byte)
    ensures SlashCount(s + [c]) == SlashCount(s) + (if c == SLASH then 1 else 0)
  {
    assert (s + [c])[..|s|] == s;
  }
}
