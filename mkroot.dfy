/** The index builder of mkroot.c: the URIs, objects and MIME types a scan
    of the document root collects, and how they are sorted, numbered and
    laid out in the webroot file (include/webroot-format.h) that the server
    maps. The four lists of struct webroot are sequence fields of a Webroot
    object. An object is named by its list and its position there: both
    object lists only ever grow at the tail, so a position names one
    object for good. */
module Mkroot {
  import opened Bytes
  import opened Vec
  import opened Sorting
  import Trie

  /** sizeof(struct webroot_hdr): eight 32-bit words. */
  const HDR_SIZE: nat := 32
  /** sizeof(struct webroot_redirect): a 32-bit offset and a 32-bit length. */
  const REDIRECT_REC_SIZE: nat := 8
  /** sizeof(struct webroot_file), packed: two 64-bit words, three 32-bit
      words and a 20-byte digest. */
  const FILE_REC_SIZE: nat := 48
  /** ((0x37 << 24) | (0x13 << 16) | 'W' << 8 | 'w') */
  const WEBROOT_MAGIC: nat := 0x3713_5777
  const WEBROOT_CURRENT_VER: nat := 3
  /** r_off of a redirect record that carries a status code instead of a URI. */
  const WEBROOT_INVALID_REDIRECT: nat := 0xffff_ffff

  lemma AddMod(a: int, b: int)
    ensures (a % TWO32 + b) % TWO32 == (a + b) % TWO32
  {
    var q := a / TWO32;
    assert a == q * TWO32 + a % TWO32;
    assert a + b == (a % TWO32 + b) + q * TWO32;
  }

  // ---------------------------------------------------------------------
  // Path strings

  predicate EndsInSlash(s: seq<byte>) { s != [] && s[|s| - 1] == SLASH }

  predicate StartsWithSlash(s: seq<byte>) { s != [] && s[0] == SLASH }

  /** path_splice: dir, then path, with a '/' between them unless dir
      already ends in one or path already starts with one; None when the
      allocation fails. An empty path has no first '/' (path[0] is the
      terminator). */
  function PathSplice(dir: seq<byte>, path: seq<byte>, allocOk: bool): (r: Option<seq<byte>>)
    ensures r.Some? <==> allocOk
    ensures r.Some? ==> |dir| + |path| <= |r.value| <= |dir| + |path| + 1
    ensures r.Some? ==> r.value[..|dir|] == dir && r.value[|r.value| - |path|..] == path
    ensures r.Some? && |r.value| > |dir| + |path| ==>
              r.value[|dir|] == SLASH && !EndsInSlash(dir) && !StartsWithSlash(path)
    ensures r.Some? && !EndsInSlash(dir) && !StartsWithSlash(path) ==> |r.value| > |dir| + |path|
  {
    if !allocOk then None
    else if EndsInSlash(dir) || StartsWithSlash(path) then Some(dir + path)
    else Some(dir + [SLASH] + path)
  }

  /** s with every trailing '/' removed: a prefix of s, not ending in '/',
      followed in s by nothing but '/'. */
  function Stripped(s: seq<byte>): (r: seq<byte>)
    ensures |r| <= |s| && r == s[..|r|]
    ensures !EndsInSlash(r)
    ensures forall i :: |r| <= i < |s| ==> s[i] == SLASH
  {
    if EndsInSlash(s) then Stripped(s[..|s| - 1]) else s
  }

  /** Only one prefix of s ends where Stripped says. */
  lemma StrippedUnique(s: seq<byte>, k: nat)
    requires k <= |s| && (k == 0 || s[k - 1] != SLASH)
    requires forall i :: k <= i < |s| ==> s[i] == SLASH
    ensures Stripped(s) == s[..k]
  {
    var r := Stripped(s);
    assert |r| > 0 ==> r[|r| - 1] == s[|r| - 1];
  }

  /** Stripping twice strips nothing more, and trailing slashes added to
      a string are stripped with its own. */
  lemma StrippedIdempotent(s: seq<byte>, n: nat)
    ensures Stripped(Stripped(s)) == Stripped(s)
    ensures Stripped(s + seq(n, _ => SLASH)) == Stripped(s)
  {
    var r := Stripped(s);
    StrippedUnique(r, |r|);
    var t := s + seq(n, _ => SLASH);
    assert t[..|r|] == r;
    StrippedUnique(t, |r|);
  }

  /** The base directory main strips, spliced with a relative path, has
      exactly one '/' between the two, however many the directory was
      given with. */
  lemma SpliceStripped(dir: seq<byte>, path: seq<byte>)
    requires !StartsWithSlash(path)
    ensures PathSplice(Stripped(dir), path, true) == Some(Stripped(dir) + [SLASH] + path)
  {
  }

  /** rstrip_slashes on the C string held in a[..len] (a[len] is its
      terminator): every trailing '/' is overwritten with a terminator,
      from the end backwards, so the string becomes Stripped of the old
      one. Nothing past the old terminator changes. */
  method RstripSlashes(a: array<byte>, len: nat)
    requires len < a.Length && a[len] == NUL && NoNul(a[..len])
    modifies a
    ensures a[..|Stripped(old(a[..len]))|] == Stripped(old(a[..len]))
    ensures forall i :: |Stripped(old(a[..len]))| <= i <= len ==> a[i] == NUL
    ensures a[len + 1..] == old(a[len + 1..])
  {
    ghost var s := a[..len];
    var i: int := len - 1;
    while i >= 0
      invariant -1 <= i < len
      invariant a[..i + 1] == s[..i + 1]
      invariant forall k :: i < k < len ==> s[k] == SLASH && a[k] == NUL
      invariant a[len..] == old(a[len..])
    {
      if a[i] != SLASH {
        StrippedUnique(s, i + 1);
        return;
      }
      a[i] := NUL;
      i := i - 1;
    }
    StrippedUnique(s, 0);
  }

  // ---------------------------------------------------------------------
  // strcmp

  /** strcmp on the C strings a and b: the difference of the first pair
      of bytes (as unsigned char) that differ, the terminator counting as
      the byte 0. */
  function StrCmp(a: seq<byte>, b: seq<byte>): int
    decreases |a|
  {
    var c1 := if a == [] then 0 else a[0] as int;
    var c2 := if b == [] then 0 else b[0] as int;
    if c1 != c2 then c1 - c2
    else if c1 == 0 then 0
    else StrCmp(a[1..], b[1..])
  }

  /** On strings without NUL, strcmp orders as vcmp does: lexicographic
      by unsigned byte, a proper prefix first. */
  lemma {:induction false} StrCmpIsCompare(a: seq<byte>, b: seq<byte>)
    requires NoNul(a) && NoNul(b)
    ensures StrCmp(a, b) < 0 <==> Compare(a, b) < 0
    ensures StrCmp(a, b) == 0 <==> a == b
  {
    if a != [] && b != [] && a[0] == b[0] {
      assert NoNul(a[1..]) && NoNul(b[1..]);
      StrCmpIsCompare(a[1..], b[1..]);
      CompareTail(a, b);
      assert a == [a[0]] + a[1..] && b == [b[0]] + b[1..];
    } else if a != [] && b == [] {
      assert a[0] != NUL;
    } else if a == [] && b != [] {
      assert b[0] != NUL;
    }
  }

  // ---------------------------------------------------------------------
  // The lists of struct webroot

  /** Which object a URI names: a redirect or a file, by position. */
  datatype ObjRef = RedirectObj(i: nat) | FileObj(i: nat)

  /** struct uri. */
  datatype Uri = Uri(name: seq<byte>, obj: ObjRef)

  /** A redirect object: a target URI, or none and a status code (obj_code);
      its OID and, once laid out, the offset of its URI in the string table. */
  datatype Redirect = Redirect(uri: Option<seq<byte>>, code: int, oid: nat, strtabOff: nat)

  /** A file object: its inode, modification time and size, its OID and,
      once laid out, the offset of its body in the output. */
  datatype FileObject = FileObject(dev: nat, ino: nat, mtime: int, size: nat, oid: nat, off: nat)

  /** struct mime_type. */
  datatype Mime = Mime(name: seq<byte>, strtabOff: nat)

  /** The fields of struct webroot_hdr that write_header fills. */
  datatype Hdr = Hdr(numEdges: nat, numRedirect: nat, numFile: nat, strtabSz: nat,
                     magic: nat, vers: nat, filesBegin: nat)

  /** struct webroot_redirect. */
  datatype DRedirect = DRedirect(off: nat, len: nat)

  function Names(ms: seq<Mime>): (r: seq<seq<byte>>)
    ensures |r| == |ms| && forall k :: 0 <= k < |ms| ==> r[k] == ms[k].name
  {
    seq(|ms|, k requires 0 <= k < |ms| => ms[k].name)
  }

  function FileKeys(fs: seq<FileObject>): (r: seq<(nat, nat)>)
    ensures |r| == |fs| && forall k :: 0 <= k < |fs| ==> r[k] == (fs[k].dev, fs[k].ino)
  {
    seq(|fs|, k requires 0 <= k < |fs| => (fs[k].dev, fs[k].ino))
  }

  /** The same object, but perhaps for its layout offset. */
  predicate SameMime(a: Mime, b: Mime) { a.name == b.name }

  predicate SameRedirect(a: Redirect, b: Redirect) { a == b.(strtabOff := a.strtabOff) }

  predicate SameFile(a: FileObject, b: FileObject) { a == b.(off := a.off) }

  /** The bytes a redirect's URI takes in the string table: none for a
      redirect that carries a status code. */
  function UriLen(o: Redirect): nat
  {
    if o.uri.Some? then |o.uri.value| else 0
  }

  /** The total length of the MIME strings, of the redirect URIs, and of
      the file bodies. */
  function MimesSize(ms: seq<Mime>): nat
  {
    if ms == [] then 0 else |ms[0].name| + MimesSize(ms[1..])
  }

  function UrisSize(rs: seq<Redirect>): nat
  {
    if rs == [] then 0 else UriLen(rs[0]) + UrisSize(rs[1..])
  }

  function BodiesSize(fs: seq<FileObject>): nat
  {
    if fs == [] then 0 else fs[0].size + BodiesSize(fs[1..])
  }

  /** The MIME list laid out from base: each string at the running offset,
      cut to its unsigned int field; the offset then moves past it. */
  function MimesAt(ms: seq<Mime>, base: nat): (r: seq<Mime>)
    ensures |r| == |ms|
  {
    if ms == [] then [] else [Mime(ms[0].name, base % TWO32)] + MimesAt(ms[1..], base + |ms[0].name|)
  }

  /** The redirect list laid out from base: every redirect at the running
      offset (unsigned int); only a URI moves it. */
  function RedirectsAt(rs: seq<Redirect>, base: nat): (r: seq<Redirect>)
    ensures |r| == |rs|
  {
    if rs == [] then [] else [rs[0].(strtabOff := base % TWO32)] + RedirectsAt(rs[1..], base + UriLen(rs[0]))
  }

  /** The file list laid out from base: bodies back to back at 64-bit offsets. */
  function FilesAt(fs: seq<FileObject>, base: nat): (r: seq<FileObject>)
    ensures |r| == |fs|
  {
    if fs == [] then [] else [fs[0].(off := base)] + FilesAt(fs[1..], base + fs[0].size)
  }

  /** Laying out changes only the offsets: a list keeps its names and
      total size, and laying out again from the same base changes nothing. */
  lemma {:induction false} MimesAtOnlyOffsets(ms: seq<Mime>, base: nat)
    ensures forall k :: 0 <= k < |ms| ==> SameMime(MimesAt(ms, base)[k], ms[k])
    ensures MimesSize(MimesAt(ms, base)) == MimesSize(ms)
  {
    if ms != [] {
      var r := MimesAt(ms, base);
      MimesAtOnlyOffsets(ms[1..], base + |ms[0].name|);
      assert r[1..] == MimesAt(ms[1..], base + |ms[0].name|);
      forall k | 1 <= k < |ms|
        ensures SameMime(r[k], ms[k])
      {
        assert r[k] == r[1..][k - 1] && ms[k] == ms[1..][k - 1];
      }
    }
  }


  lemma {:induction false} RedirectsAtOnlyOffsets(rs: seq<Redirect>, base: nat)
    ensures forall k :: 0 <= k < |rs| ==> SameRedirect(RedirectsAt(rs, base)[k], rs[k])
    ensures UrisSize(RedirectsAt(rs, base)) == UrisSize(rs)
  {
    if rs != [] {
      var r := RedirectsAt(rs, base);
      RedirectsAtOnlyOffsets(rs[1..], base + UriLen(rs[0]));
      assert r[1..] == RedirectsAt(rs[1..], base + UriLen(rs[0]));
      forall k | 1 <= k < |rs|
        ensures SameRedirect(r[k], rs[k])
      {
        assert r[k] == r[1..][k - 1] && rs[k] == rs[1..][k - 1];
      }
    }
  }


  lemma {:induction false} FilesAtOnlyOffsets(fs: seq<FileObject>, base: nat)
    ensures forall k :: 0 <= k < |fs| ==> SameFile(FilesAt(fs, base)[k], fs[k])
    ensures BodiesSize(FilesAt(fs, base)) == BodiesSize(fs)
  {
    if fs != [] {
      var r := FilesAt(fs, base);
      FilesAtOnlyOffsets(fs[1..], base + fs[0].size);
      assert r[1..] == FilesAt(fs[1..], base + fs[0].size);
      forall k | 1 <= k < |fs|
        ensures SameFile(r[k], fs[k])
      {
        assert r[k] == r[1..][k - 1] && fs[k] == fs[1..][k - 1];
      }
    }
  }


  /** Each MIME string at the running 32-bit offset from base. */
  ghost predicate MimesLaidFrom(ms: seq<Mime>, base: nat)
  {
    ms == [] || (ms[0].strtabOff == base % TWO32 && MimesLaidFrom(ms[1..], base + |ms[0].name|))
  }

  /** Each redirect at the running 32-bit offset from base; only a URI
      moves it. */
  ghost predicate RedirectsLaidFrom(rs: seq<Redirect>, base: nat)
  {
    rs == [] || (rs[0].strtabOff == base % TWO32 && RedirectsLaidFrom(rs[1..], base + UriLen(rs[0])))
  }

  /** Each file body at the running 64-bit offset from base. */
  ghost predicate FilesLaidFrom(fs: seq<FileObject>, base: nat)
  {
    fs == [] || (fs[0].off == base && FilesLaidFrom(fs[1..], base + fs[0].size))
  }

  /** A list laid out from base is laid out from base; laid out, laying
      out again changes nothing. */
  lemma {:induction false} MimesAtLaid(ms: seq<Mime>, base: nat)
    ensures MimesLaidFrom(MimesAt(ms, base), base)
    ensures MimesLaidFrom(ms, base) ==> MimesAt(ms, base) == ms
  {
    if ms != [] {
      var r := MimesAt(ms, base);
      MimesAtLaid(ms[1..], base + |ms[0].name|);
      assert r[1..] == MimesAt(ms[1..], base + |ms[0].name|);
      if MimesLaidFrom(ms, base) {
        assert ms == [ms[0]] + ms[1..];
      }
    }
  }

  lemma {:induction false} RedirectsAtLaid(rs: seq<Redirect>, base: nat)
    ensures RedirectsLaidFrom(RedirectsAt(rs, base), base)
    ensures RedirectsLaidFrom(rs, base) ==> RedirectsAt(rs, base) == rs
  {
    if rs != [] {
      var r := RedirectsAt(rs, base);
      RedirectsAtLaid(rs[1..], base + UriLen(rs[0]));
      assert r[1..] == RedirectsAt(rs[1..], base + UriLen(rs[0]));
      if RedirectsLaidFrom(rs, base) {
        assert rs == [rs[0]] + rs[1..];
      }
    }
  }

  lemma {:induction false} FilesAtLaid(fs: seq<FileObject>, base: nat)
    ensures FilesLaidFrom(FilesAt(fs, base), base)
    ensures FilesLaidFrom(fs, base) ==> FilesAt(fs, base) == fs
  {
    if fs != [] {
      var r := FilesAt(fs, base);
      FilesAtLaid(fs[1..], base + fs[0].size);
      assert r[1..] == FilesAt(fs[1..], base + fs[0].size);
      if FilesLaidFrom(fs, base) {
        assert fs == [fs[0]] + fs[1..];
      }
    }
  }

  /** Laid out from base, the first body starts at base, each body starts
      where the one before it ends, and the last ends at base plus the
      total size. */
  lemma {:induction false} FilesAtContiguous(fs: seq<FileObject>, base: nat)
    ensures |fs| > 0 ==> FilesAt(fs, base)[0].off == base
    ensures forall k :: 0 <= k < |fs| - 1 ==>
      FilesAt(fs, base)[k].off + FilesAt(fs, base)[k].size == FilesAt(fs, base)[k + 1].off
    ensures |fs| > 0 ==> FilesAt(fs, base)[|fs| - 1].off + FilesAt(fs, base)[|fs| - 1].size == base + BodiesSize(fs)
  {
    if fs != [] {
      var r := FilesAt(fs, base);
      var b' := base + fs[0].size;
      FilesAtContiguous(fs[1..], b');
      assert r[1..] == FilesAt(fs[1..], b');
      forall k | 0 <= k < |fs| - 1
        ensures r[k].off + r[k].size == r[k + 1].off
      {
        assert r[k + 1] == r[1..][k];
        if k > 0 {
          assert r[k] == r[1..][k - 1];
        }
      }
      if |fs| > 1 {
        assert r[|fs| - 1] == r[1..][|fs| - 2];
      }
    }
  }

  /** Laid out from a base that leaves the whole URI table below
      WEBROOT_INVALID_REDIRECT, every redirect's offset lies below it too. */
  lemma {:induction false} RedirectsAtBelow(rs: seq<Redirect>, base: nat)
    requires base + UrisSize(rs) < WEBROOT_INVALID_REDIRECT
    ensures forall k :: 0 <= k < |rs| ==> RedirectsAt(rs, base)[k].strtabOff < WEBROOT_INVALID_REDIRECT
  {
    if rs != [] {
      var r := RedirectsAt(rs, base);
      RedirectsAtBelow(rs[1..], base + UriLen(rs[0]));
      assert r[1..] == RedirectsAt(rs[1..], base + UriLen(rs[0]));
      forall k | 1 <= k < |rs|
        ensures r[k].strtabOff < WEBROOT_INVALID_REDIRECT
      {
        assert r[k] == r[1..][k - 1];
      }
    }
  }

  /** The MIME-string loop of webroot_prep over the list ms: each string
      gets the running offset, which then grows by the string's length, as
      does r_mimetab_sz (sz0 on entry). The strings end at off. */
  method MimesLayout(ms: seq<Mime>, base: nat, sz0: nat) returns (r: seq<Mime>, off: nat, sz: nat)
    ensures r == MimesAt(ms, base)
    ensures off == base + MimesSize(ms)
    ensures sz == (sz0 + MimesSize(ms)) % TWO32
  {
    var total: nat := 0;
    var i := 0;
    r, off := [], base;
    while i < |ms|
      invariant i <= |ms|
      invariant r + MimesAt(ms[i..], off) == MimesAt(ms, base)
      invariant base + MimesSize(ms) == off + MimesSize(ms[i..]) && total == off - base
    {
      assert ms[i..][1..] == ms[i + 1..];
      assert r + MimesAt(ms[i..], off) == (r + [Mime(ms[i].name, off % TWO32)]) + MimesAt(ms[i + 1..], off + |ms[i].name|);
      r := r + [Mime(ms[i].name, off % TWO32)];
      off := off + |ms[i].name|;
      total := total + |ms[i].name|;
      i := i + 1;
    }
    assert r + MimesAt(ms[i..], off) == r;
    sz := (sz0 + total) % TWO32;
  }

  /** The redirect loop of webroot_prep over the list rs: every redirect
      gets the running offset; only one with a URI moves it, and
      r_redirtab_sz (0 on entry), on by the URI's length. */
  method RedirectsLayout(rs: seq<Redirect>, base: nat) returns (r: seq<Redirect>, off: nat, sz: nat)
    ensures r == RedirectsAt(rs, base)
    ensures off == base + UrisSize(rs)
    ensures sz == UrisSize(rs) % TWO32
  {
    var total: nat := 0;
    var i := 0;
    r, off := [], base;
    while i < |rs|
      invariant i <= |rs|
      invariant r + RedirectsAt(rs[i..], off) == RedirectsAt(rs, base)
      invariant base + UrisSize(rs) == off + UrisSize(rs[i..]) && total == off - base
    {
      assert rs[i..][1..] == rs[i + 1..];
      assert r + RedirectsAt(rs[i..], off) == (r + [rs[i].(strtabOff := off % TWO32)]) + RedirectsAt(rs[i + 1..], off + UriLen(rs[i]));
      r := r + [rs[i].(strtabOff := off % TWO32)];
      if rs[i].uri.Some? {
        off := off + |rs[i].uri.value|;
        total := total + |rs[i].uri.value|;
      }
      i := i + 1;
    }
    assert r + RedirectsAt(rs[i..], off) == r;
    sz := total % TWO32;
  }

  /** The file loop of webroot_prep over the list fs: bodies back to back
      from base (64-bit offsets), r_files_sz (0 on entry) their total. */
  method FilesLayout(fs: seq<FileObject>, base: nat) returns (r: seq<FileObject>, sz: nat)
    ensures r == FilesAt(fs, base)
    ensures sz == BodiesSize(fs)
  {
    var off: nat := base;
    var i := 0;
    r, sz := [], 0;
    while i < |fs|
      invariant i <= |fs|
      invariant r + FilesAt(fs[i..], off) == FilesAt(fs, base)
      invariant base + BodiesSize(fs) == off + BodiesSize(fs[i..]) && sz == off - base
    {
      assert fs[i..][1..] == fs[i + 1..];
      assert r + FilesAt(fs[i..], off) == (r + [fs[i].(off := off)]) + FilesAt(fs[i + 1..], off + fs[i].size);
      r := r + [fs[i].(off := off)];
      off := off + fs[i].size;
      sz := sz + fs[i].size;
      i := i + 1;
    }
    assert r + FilesAt(fs[i..], off) == r;
  }

  /** The lists as webroot_prep leaves them, the string tables starting at
      tablesEnd: the MIME strings, then the redirect URIs, then the file
      bodies, each list laid out where it lies. */
  ghost predicate LaidOutFrom(ms: seq<Mime>, rs: seq<Redirect>, fs: seq<FileObject>, tablesEnd: nat)
  {
    MimesLaidFrom(ms, tablesEnd) &&
    RedirectsLaidFrom(rs, tablesEnd + MimesSize(ms)) &&
    FilesLaidFrom(fs, tablesEnd + MimesSize(ms) + UrisSize(rs))
  }

  /** OIDs 0, 1, ... given to the redirects in list order and then to the
      files. */
  ghost predicate NumberedLists(rs: seq<Redirect>, fs: seq<FileObject>)
  {
    (forall k :: 0 <= k < |rs| ==> rs[k].oid == k) &&
    (forall k :: 0 <= k < |fs| ==> fs[k].oid == |rs| + k)
  }

  /** The OID sort_objects gives an object: a redirect its position, a
      file the number of redirects plus its position. */
  function OidOf(o: ObjRef, numRedirect: nat): nat
  {
    match o
    case RedirectObj(i) => i
    case FileObj(i) => numRedirect + i
  }

  /** The layout loops of webroot_prep in turn, each starting where the
      previous one ended, the first at base; r_mimetab_sz is sz0 on entry.
      Only offsets change. */
  method LayoutLists(ms: seq<Mime>, rs: seq<Redirect>, fs: seq<FileObject>, base: nat, sz0: nat)
    returns (ms': seq<Mime>, rs': seq<Redirect>, fs': seq<FileObject>, msz: nat, rsz: nat, fsz: nat)
    ensures ms' == MimesAt(ms, base)
    ensures rs' == RedirectsAt(rs, base + MimesSize(ms))
    ensures fs' == FilesAt(fs, base + MimesSize(ms) + UrisSize(rs))
    ensures MimesSize(ms') == MimesSize(ms) && UrisSize(rs') == UrisSize(rs)
    ensures LaidOutFrom(ms', rs', fs', base)
    ensures Names(ms') == Names(ms) && FileKeys(fs') == FileKeys(fs)
    ensures NumberedLists(rs, fs) ==> NumberedLists(rs', fs')
    ensures msz == (sz0 + MimesSize(ms')) % TWO32 && rsz == UrisSize(rs') % TWO32 && fsz == BodiesSize(fs')
  {
    var mEnd, rEnd;
    ms', mEnd, msz := MimesLayout(ms, base, sz0);
    rs', rEnd, rsz := RedirectsLayout(rs, mEnd);
    fs', fsz := FilesLayout(fs, rEnd);
    MimesAtOnlyOffsets(ms, base);
    MimesAtLaid(ms, base);
    RedirectsAtOnlyOffsets(rs, mEnd);
    RedirectsAtLaid(rs, mEnd);
    FilesAtOnlyOffsets(fs, rEnd);
    FilesAtLaid(fs, rEnd);
    assert Names(ms') == Names(ms) && FileKeys(fs') == FileKeys(fs);
  }

  /** The record write_redirect_objs writes for a redirect: its string's
      offset and length, or WEBROOT_INVALID_REDIRECT and the status code
      (as an unsigned 32-bit word) when it has no URI. */
  function RedirectRecord(o: Redirect): (r: DRedirect)
    ensures o.uri.None? ==> r.off == WEBROOT_INVALID_REDIRECT && r.len == o.code % TWO32
    ensures o.uri.Some? ==> r.off == o.strtabOff % TWO32 && r.len == |o.uri.value| % TWO32
  {
    if o.uri.Some? then DRedirect(o.strtabOff % TWO32, |o.uri.value| % TWO32)
    else DRedirect(WEBROOT_INVALID_REDIRECT, o.code % TWO32)
  }
  /** ucmp's order, as a total preorder on URIs. */
  predicate UriLe(a: Uri, b: Uri)
  {
    Compare(a.name, b.name) <= 0
  }

  lemma UriLeOrder()
    ensures Total(UriLe) && Transitive(UriLe)
  {
    forall a: Uri, b: Uri
      ensures UriLe(a, b) || UriLe(b, a)
    {
      CompareAntisymmetric(a.name, b.name);
    }
    forall a: Uri, b: Uri, c: Uri | UriLe(a, b) && UriLe(b, c)
      ensures UriLe(a, c)
    {
      CompareZeroIffEqual(a.name, b.name);
      CompareZeroIffEqual(b.name, c.name);
      if Compare(a.name, b.name) < 0 && Compare(b.name, c.name) < 0 {
        CompareTransitive(a.name, b.name, c.name);
      }
    }
  }

  /** The URIs are ascending under ucmp (strcmp). */
  ghost predicate UrisAscending(us: seq<Uri>)
  {
    forall i, j :: 0 <= i < j < |us| ==> StrCmp(us[i].name, us[j].name) <= 0
  }

  /** Sorted by ucmp's preorder means ascending under strcmp, for C strings. */
  lemma AscendingByStrCmp(us: seq<Uri>)
    requires SortedBy(us, UriLe)
    requires forall u :: u in us ==> NoNul(u.name)
    ensures UrisAscending(us)
  {
    forall i, j | 0 <= i < j < |us|
      ensures StrCmp(us[i].name, us[j].name) <= 0
    {
      assert UriLe(us[i], us[j]);
      assert us[i] in us && us[j] in us;
      StrCmpIsCompare(us[i].name, us[j].name);
      CompareZeroIffEqual(us[i].name, us[j].name);
    }
  }

  /** struct webroot, without its allocators, temporary-chunk file and
      magic handle. numEdges stands for r_trie: the edge count of the trie
      trie_new built over trieEnt. */
  class Webroot {
    var uris: seq<Uri>
    var redirects: seq<Redirect>
    var files: seq<FileObject>
    var mimes: seq<Mime>
    var trieEnt: seq<Trie.Entry>
    var numEdges: nat
    var filesSz: nat
    var numUri: nat
    var numRedirect: nat
    var numFile: nat
    var mimetabSz: nat
    var redirtabSz: nat

    ghost predicate RefOk(o: ObjRef)
      reads this`redirects, this`files
    {
      match o
      case RedirectObj(i) => i < |redirects|
      case FileObj(i) => i < |files|
    }

    /** The counters count the lists; every URI is a C string naming an
        existing object; MIME strings and (dev, ino) pairs occur once
        each; the 32-bit string-table sizes hold 32-bit values. */
    ghost predicate Valid()
      reads this
    {
      numUri == |uris| && numRedirect == |redirects| && numFile == |files| &&
      (forall u :: u in uris ==> NoNul(u.name) && RefOk(u.obj)) &&
      Distinct(Names(mimes)) && Distinct(FileKeys(files)) &&
      mimetabSz < TWO32 && redirtabSz < TWO32
    }

    /** webroot_new: every list empty and every counter 0 (calloc). */
    constructor()
      ensures Valid()
      ensures uris == [] && redirects == [] && files == [] && mimes == [] && trieEnt == []
      ensures numEdges == 0 && filesSz == 0 && mimetabSz == 0 && redirtabSz == 0
    {
      uris, redirects, files, mimes, trieEnt := [], [], [], [], [];
      numEdges, filesSz, numUri, numRedirect, numFile, mimetabSz, redirtabSz := 0, 0, 0, 0, 0, 0, 0;
    }

    // -------------------------------------------------------------------
    // Collecting

    /** webroot_link: a URI for target at the tail of r_uri, an empty link
        standing for "/". None, with nothing linked, when the URI record
        (allocOk) or its string (strOk) cannot be allocated. */
    method Link(link: seq<byte>, target: ObjRef, allocOk: bool, strOk: bool) returns (u: Option<Uri>)
      requires Valid() && NoNul(link) && RefOk(target)
      modifies this`uris, this`numUri
      ensures Valid()
      ensures u.Some? <==> allocOk && strOk
      ensures u.Some? ==> u.value == Uri(if link == [] then [SLASH] else link, target) &&
                          uris == old(uris) + [u.value] && numUri == old(numUri) + 1
      ensures u.None? ==> uris == old(uris) && numUri == old(numUri)
    {
      var name := if link == [] then [SLASH] else link;
      if !allocOk {
        return None;
      }
      if !strOk {
        return None;
      }
      u := Some(Uri(name, target));
      uris := uris + [u.value];
      numUri := numUri + 1;
    }

    /** mime_add: the entry already holding mime, if any, with nothing
        changed; otherwise a new entry pushed at the head of r_mime_type
        (list_add). None, with nothing added, when the entry (allocOk) or
        its string (strOk) cannot be allocated. */
    method MimeAdd(mime: seq<byte>, allocOk: bool, strOk: bool) returns (m: Option<nat>)
      requires Valid()
      modifies this`mimes
      ensures Valid()
      ensures mime in Names(old(mimes)) ==>
                mimes == old(mimes) && m.Some? && m.value < |mimes| && mimes[m.value].name == mime
      ensures mime !in Names(old(mimes)) && allocOk && strOk ==>
                mimes == [Mime(mime, 0)] + old(mimes) && m == Some(0)
      ensures mime !in Names(old(mimes)) && !(allocOk && strOk) ==> mimes == old(mimes) && m.None?
    {
      var i := 0;
      while i < |mimes|
        invariant i <= |mimes|
        invariant forall k :: 0 <= k < i ==> mimes[k].name != mime
      {
        if mimes[i].name == mime {
          return Some(i);
        }
        i := i + 1;
      }
      if !allocOk || !strOk {
        return None;
      }
      var old_names := Names(mimes);
      mimes := [Mime(mime, 0)] + mimes;
      assert Names(mimes) == [mime] + old_names;
      m := Some(0);
    }

    /** obj_redirect: a redirect to path at the tail of r_redirect. */
    method ObjRedirect(path: seq<byte>, allocOk: bool, strOk: bool) returns (o: Option<ObjRef>)
      requires Valid()
      modifies this`redirects, this`numRedirect
      ensures Valid()
      ensures o.Some? <==> allocOk && strOk
      ensures o.Some? ==> o == Some(RedirectObj(|old(redirects)|)) &&
                          redirects == old(redirects) + [Redirect(Some(path), 0, 0, 0)] &&
                          numRedirect == old(numRedirect) + 1
      ensures o.None? ==> redirects == old(redirects) && numRedirect == old(numRedirect)
    {
      if !allocOk || !strOk {
        return None;
      }
      o := Some(RedirectObj(|redirects|));
      redirects := redirects + [Redirect(Some(path), 0, 0, 0)];
      numRedirect := numRedirect + 1;
    }

    /** obj_code: a redirect with no URI and the status code at the tail
        of r_redirect. */
    method ObjCode(code: int, allocOk: bool) returns (o: Option<ObjRef>)
      requires Valid()
      modifies this`redirects, this`numRedirect
      ensures Valid()
      ensures o.Some? <==> allocOk
      ensures o.Some? ==> o == Some(RedirectObj(|old(redirects)|)) &&
                          redirects == old(redirects) + [Redirect(None, code, 0, 0)] &&
                          numRedirect == old(numRedirect) + 1
      ensures o.None? ==> redirects == old(redirects) && numRedirect == old(numRedirect)
    {
      if !allocOk {
        return None;
      }
      o := Some(RedirectObj(|redirects|));
      redirects := redirects + [Redirect(None, code, 0, 0)];
      numRedirect := numRedirect + 1;
    }

    /** obj_file: the file object already on (dev, ino), if any, with
        nothing changed; otherwise a new one at the tail of r_file. None,
        with nothing added, when the object cannot be allocated. */
    method ObjFile(dev: nat, ino: nat, mtime: int, size: nat, allocOk: bool) returns (o: Option<ObjRef>)
      requires Valid()
      modifies this`files, this`numFile
      ensures Valid()
      ensures (dev, ino) in FileKeys(old(files)) ==>
                files == old(files) && numFile == old(numFile) &&
                o.Some? && o.value.FileObj? && o.value.i < |files| &&
                files[o.value.i].dev == dev && files[o.value.i].ino == ino
      ensures (dev, ino) !in FileKeys(old(files)) && allocOk ==>
                files == old(files) + [FileObject(dev, ino, mtime, size, 0, 0)] &&
                o == Some(FileObj(|old(files)|)) && numFile == old(numFile) + 1
      ensures (dev, ino) !in FileKeys(old(files)) && !allocOk ==>
                files == old(files) && numFile == old(numFile) && o.None?
    {
      var i := 0;
      while i < |files|
        invariant i <= |files|
        invariant forall k :: 0 <= k < i ==> (files[k].dev, files[k].ino) != (dev, ino)
      {
        if dev == files[i].dev && ino == files[i].ino {
          return Some(FileObj(i));
        }
        i := i + 1;
      }
      if !allocOk {
        return None;
      }
      var keys := FileKeys(files);
      o := Some(FileObj(|files|));
      files := files + [FileObject(dev, ino, mtime, size, 0, 0)];
      assert FileKeys(files) == keys + [(dev, ino)];
      numFile := numFile + 1;
    }

    // -------------------------------------------------------------------
    // Sorting and numbering

    /** sort_uris: r_uri rearranged into ascending strcmp order. 0, with
        the list as it was, when the pointer array cannot be allocated. */
    method SortUris(allocOk: bool) returns (ok: bool)
      requires Valid()
      modifies this`uris
      ensures Valid() && ok == allocOk
      ensures multiset(uris) == multiset(old(uris))
      ensures !ok ==> uris == old(uris)
      ensures ok ==> UrisAscending(uris)
    {
      if !allocOk {
        return false;
      }
      UriLeOrder();
      var s := Sort(uris, UriLe);
      forall u | u in s
        ensures NoNul(u.name) && RefOk(u.obj)
      {
        assert u in multiset(uris);
      }
      assert |s| == |multiset(s)| == |multiset(uris)| == |uris|;
      uris := s;
      AscendingByStrCmp(uris);
      ok := true;
    }

    /** OIDs 0, 1, ... given to the redirects in list order and then to the
        files. */
    ghost predicate Numbered()
      reads this`redirects, this`files
    {
      NumberedLists(redirects, files)
    }

    /** sort_objects: numbers the objects; always 1. */
    method SortObjects() returns (ok: bool)
      requires Valid()
      modifies this`redirects, this`files
      ensures Valid() && ok && Numbered()
      ensures |redirects| == |old(redirects)| &&
              forall k :: 0 <= k < |redirects| ==> redirects[k] == old(redirects[k]).(oid := k)
      ensures |files| == |old(files)| &&
              forall k :: 0 <= k < |files| ==> files[k] == old(files[k]).(oid := |redirects| + k)
    {
      var oid := 0;
      while oid < |redirects|
        invariant oid <= |redirects| == |old(redirects)|
        invariant forall k :: 0 <= k < oid ==> redirects[k] == old(redirects[k]).(oid := k)
        invariant forall k :: oid <= k < |redirects| ==> redirects[k] == old(redirects[k])
        invariant files == old(files)
      {
        redirects := redirects[oid := redirects[oid].(oid := oid)];
        oid := oid + 1;
      }
      var i := 0;
      ghost var keys := FileKeys(files);
      ghost var rs := redirects;
      while i < |files|
        invariant redirects == rs
        invariant i <= |files| == |old(files)| && oid == |redirects| + i
        invariant forall k :: 0 <= k < i ==> files[k] == old(files[k]).(oid := |redirects| + k)
        invariant forall k :: i <= k < |files| ==> files[k] == old(files[k])
      {
        files := files[i := files[i].(oid := oid)];
        oid := oid + 1;
        i := i + 1;
      }
      assert FileKeys(files) == keys;
      ok := true;
    }

    /** The OID of an object. */
    function Oid(o: ObjRef): nat
      reads this`redirects, this`files
      requires RefOk(o)
    {
      match o
      case RedirectObj(i) => redirects[i].oid
      case FileObj(i) => files[i].oid
    }

    /** The object given a number by sort_objects. */
    function RefOf(oid: nat): (o: ObjRef)
      reads this`redirects, this`files
      requires oid < |redirects| + |files|
      ensures RefOk(o)
    {
      if oid < |redirects| then RedirectObj(oid) else FileObj(oid - |redirects|)
    }

    /** Once numbered, the OIDs are 0 .. |redirects| + |files| - 1, each
        naming exactly one object. */
    lemma OidsNumberObjects()
      requires Numbered()
      ensures forall o :: RefOk(o) ==> Oid(o) < |redirects| + |files| && RefOf(Oid(o)) == o
      ensures forall n :: 0 <= n < |redirects| + |files| ==> Oid(RefOf(n)) == n
      ensures forall o :: RefOk(o) ==> Oid(o) == OidOf(o, |redirects|)
    {
    }

    /** The trie entries of webroot_prep: each URI, in list order, with its
        object's OID as sort_objects numbered it. */
    ghost predicate Indexed()
      reads this`uris, this`trieEnt, this`numRedirect
    {
      |trieEnt| == |uris| &&
      forall k :: 0 <= k < |uris| ==> trieEnt[k] == Trie.Entry(uris[k].name, OidOf(uris[k].obj, numRedirect))
    }

    // -------------------------------------------------------------------
    // Layout

    /** Where the string tables begin: after the header, the trie records,
        the redirect records and the file records. */
    function TablesEnd(): nat
      reads this`numEdges, this`numRedirect, this`numFile
    {
      HDR_SIZE + Trie.DEDGE_SIZE * numEdges + REDIRECT_REC_SIZE * numRedirect + FILE_REC_SIZE * numFile
    }

    /** Where the redirect URIs begin: after the MIME strings. */
    function RedirectsBegin(): nat
      reads this`numEdges, this`numRedirect, this`numFile, this`mimes
    {
      TablesEnd() + MimesSize(mimes)
    }

    /** Where the file bodies begin: after the redirect URIs. */
    function FilesBegin(): nat
      reads this`numEdges, this`numRedirect, this`numFile, this`mimes, this`redirects
    {
      RedirectsBegin() + UrisSize(redirects)
    }

    /** The layout webroot_prep leaves: the MIME strings from TablesEnd
        on, then the redirect URIs, then the file bodies, each back to back
        in list order (32-bit offsets for strings, 64-bit for bodies);
        r_redirtab_sz and r_files_sz are the sizes of the last two. */
    ghost predicate LaidOut()
      reads this
    {
      LaidOutFrom(mimes, redirects, files, TablesEnd()) &&
      redirtabSz == UrisSize(redirects) % TWO32 && filesSz == BodiesSize(files)
    }

    /** The trie entries of the sorted URIs: each URI with its object's OID. */
    method Entries() returns (ent: seq<Trie.Entry>)
      requires Valid()
      ensures |ent| == |uris|
      ensures forall k :: 0 <= k < |uris| ==> ent[k] == Trie.Entry(uris[k].name, Oid(uris[k].obj))
    {
      ent := [];
      var i := 0;
      while i < |uris|
        invariant i <= |uris| && |ent| == i
        invariant forall k :: 0 <= k < i ==> ent[k] == Trie.Entry(uris[k].name, Oid(uris[k].obj))
      {
        assert uris[i] in uris;
        ent := ent + [Trie.Entry(uris[i].name, Oid(uris[i].obj))];
        i := i + 1;
      }
    }

    /** The layout half of webroot_prep: the three loops in turn, each
        starting where the previous one ended. Only offsets and table sizes
        change. */
    method Layout(base: nat)
      modifies this`mimes, this`mimetabSz, this`redirects, this`redirtabSz, this`files, this`filesSz
      ensures LaidOutFrom(mimes, redirects, files, base)
      ensures redirtabSz == UrisSize(redirects) % TWO32 && filesSz == BodiesSize(files)
      ensures mimes == MimesAt(old(mimes), base)
      ensures redirects == RedirectsAt(old(redirects), base + MimesSize(old(mimes)))
      ensures files == FilesAt(old(files), base + MimesSize(old(mimes)) + UrisSize(old(redirects)))
      ensures mimetabSz == (old(mimetabSz) + MimesSize(mimes)) % TWO32
      ensures Names(mimes) == old(Names(mimes)) && FileKeys(files) == old(FileKeys(files))
      ensures old(NumberedLists(redirects, files)) ==> NumberedLists(redirects, files)
      ensures |redirects| == old(|redirects|) && |files| == old(|files|)
      ensures mimetabSz < TWO32 && redirtabSz < TWO32
    {
      var ms, rs, fs, msz, rsz, fsz := LayoutLists(mimes, redirects, files, base, mimetabSz);
      mimes, mimetabSz, redirects, redirtabSz, files, filesSz := ms, msz, rs, rsz, fs, fsz;
    }

    /** The index half of webroot_prep: sort the URIs and number the
        objects, then build the trie entries and the trie over them. trie
        is what trie_new returns: the built trie's edge count, or None for
        NULL. 0 when sorting (sortOk), the entry array (entOk) or the trie
        fails. */
    method Index(sortOk: bool, entOk: bool, trie: Option<nat>) returns (ok: bool)
      requires Valid()
      modifies this`uris, this`redirects, this`files, this`numEdges, this`trieEnt
      ensures Valid() && ok == (sortOk && entOk && trie.Some?)
      ensures !sortOk ==> unchanged(this)
      ensures sortOk ==> multiset(uris) == multiset(old(uris)) && UrisAscending(uris) && Numbered()
      ensures !ok ==> trieEnt == old(trieEnt) && numEdges == old(numEdges)
      ensures ok ==> numEdges == trie.value && Indexed()
    {
      ok := SortUris(sortOk);
      if !ok {
        return;
      }
      ok := SortObjects();
      if !entOk {
        return false;
      }
      var ent := Entries();
      if trie.None? {
        return false;
      }
      OidsNumberObjects();
      forall k | 0 <= k < |uris|
        ensures ent[k] == Trie.Entry(uris[k].name, OidOf(uris[k].obj, numRedirect))
      {
        assert uris[k] in uris;
      }
      numEdges := trie.value;
      trieEnt := ent;
      ok := true;
    }

    /** webroot_prep: Index, then, when it succeeds, Layout. */
    method Prep(sortOk: bool, entOk: bool, trie: Option<nat>) returns (ok: bool)
      requires Valid()
      modifies this`uris, this`redirects, this`files, this`numEdges, this`trieEnt, this`mimes, this`mimetabSz, this`redirtabSz, this`filesSz
      ensures Valid() && ok == (sortOk && entOk && trie.Some?)
      ensures !sortOk ==> unchanged(this)
      ensures sortOk ==> multiset(uris) == multiset(old(uris)) && UrisAscending(uris) && Numbered()
      ensures !ok ==> trieEnt == old(trieEnt) && numEdges == old(numEdges) && mimes == old(mimes) &&
                      mimetabSz == old(mimetabSz) && redirtabSz == old(redirtabSz) && filesSz == old(filesSz)
      ensures ok ==> numEdges == trie.value && Indexed() && LaidOut() &&
                     mimetabSz == (old(mimetabSz) + MimesSize(mimes)) % TWO32
    {
      ok := Index(sortOk, entOk, trie);
      if ok {
        Layout(TablesEnd());
      }
    }

    // Output

    /** write_header: the counts, the size of both string tables, the
        magic and version, and h_files_begin, where the unmapped file
        bodies begin; each a 32-bit field. */
    function Header(): (h: Hdr)
      reads this
      ensures h.magic == WEBROOT_MAGIC && h.vers == WEBROOT_CURRENT_VER
      ensures h.numEdges == numEdges % TWO32 && h.numRedirect == numRedirect % TWO32 && h.numFile == numFile % TWO32
      ensures h.strtabSz == (mimetabSz + redirtabSz) % TWO32
      ensures h.filesBegin == (TablesEnd() + mimetabSz + redirtabSz) % TWO32
    {
      Hdr(numEdges % TWO32, numRedirect % TWO32, numFile % TWO32, (mimetabSz + redirtabSz) % TWO32,
          WEBROOT_MAGIC, WEBROOT_CURRENT_VER, (TablesEnd() + mimetabSz + redirtabSz) % TWO32)
    }

    /** webroot_output_size: the whole file, the mapped index and the
        bodies after it. */
    function OutputSize(): nat
      reads this
    {
      TablesEnd() + mimetabSz + redirtabSz + filesSz
    }

    /** write_redirect_objs: one record per redirect, in list order.
        fobuf_write failing on the record at position failAt stops the walk
        with 0; recs are the records written before it. */
    method WriteRedirectObjs(failAt: Option<nat>) returns (ok: bool, recs: seq<DRedirect>)
      ensures ok <==> failAt.None? || failAt.value >= |redirects|
      ensures |recs| == (if ok then |redirects| else failAt.value)
      ensures forall k :: 0 <= k < |recs| ==> recs[k] == RedirectRecord(redirects[k])
    {
      recs := [];
      var i := 0;
      while i < |redirects|
        invariant i <= |redirects| && |recs| == i
        invariant failAt.Some? ==> i <= failAt.value
        invariant forall k :: 0 <= k < i ==> recs[k] == RedirectRecord(redirects[k])
      {
        var wr := if redirects[i].uri.Some?
                  then DRedirect(redirects[i].strtabOff % TWO32, |redirects[i].uri.value| % TWO32)
                  else DRedirect(WEBROOT_INVALID_REDIRECT, redirects[i].code % TWO32);
        if failAt == Some(i) {
          return false, recs;
        }
        recs := recs + [wr];
        i := i + 1;
      }
      ok := true;
    }

    /** Laid out, the file bodies start at FilesBegin, follow one another
        without gap or overlap, and end r_files_sz later. */
    lemma FilesContiguous()
      requires LaidOut()
      ensures |files| > 0 ==> files[0].off == FilesBegin()
      ensures forall k :: 0 <= k < |files| - 1 ==> files[k].off + files[k].size == files[k + 1].off
      ensures |files| > 0 ==> files[|files| - 1].off + files[|files| - 1].size == FilesBegin() + filesSz
    {
      FilesAtLaid(files, FilesBegin());
      FilesAtContiguous(files, FilesBegin());
    }

    /** Once laid out, with the string tables started from empty (as
        webroot_new leaves them) and the index under 4 GiB: h_files_begin
        is the offset of the first file body, the bodies follow one
        another without gap or overlap, and the output ends where the last
        one does, at h_files_begin + r_files_sz. */
    lemma FilesBeginHeader()
      requires LaidOut() && mimetabSz == MimesSize(mimes) && FilesBegin() < TWO32
      ensures Header().filesBegin == FilesBegin()
      ensures OutputSize() == Header().filesBegin + filesSz
      ensures |files| > 0 ==> files[0].off == Header().filesBegin
      ensures forall k :: 0 <= k < |files| - 1 ==> files[k].off + files[k].size == files[k + 1].off
      ensures |files| > 0 ==> files[|files| - 1].off + files[|files| - 1].size == OutputSize()
    {
      assert TablesEnd() + mimetabSz + redirtabSz == FilesBegin();
      FilesContiguous();
    }

    /** Once laid out with the index under 4 GiB, no redirect string sits
        at WEBROOT_INVALID_REDIRECT, so the server can tell the two kinds
        of record apart by r_off alone. */
    lemma RedirectsDistinguishable()
      requires LaidOut() && FilesBegin() < WEBROOT_INVALID_REDIRECT
      ensures forall k :: 0 <= k < |redirects| ==>
                (RedirectRecord(redirects[k]).off == WEBROOT_INVALID_REDIRECT <==> redirects[k].uri.None?)
    {
      RedirectsAtLaid(redirects, RedirectsBegin());
      RedirectsAtBelow(redirects, RedirectsBegin());
    }
  }

  /** webroot_link as written: the check after allocating the URI's string
      tests the webroot pointer, which is never NULL there, instead of the
      string; a failed string allocation still links the URI, with a NULL
      name. None only when the URI record itself cannot be allocated. */
  datatype LinkedUri = LinkedUri(name: Option<seq<byte>>, obj: ObjRef)

  function LinkAsWritten(link: seq<byte>, target: ObjRef, allocOk: bool, strOk: bool): (u: Option<LinkedUri>)
    ensures u.Some? <==> allocOk
    ensures u.Some? ==> u.value.obj == target && (u.value.name.Some? <==> strOk)
  {
    var name := if link == [] then [SLASH] else link;
    if !allocOk then None
    else Some(LinkedUri(if strOk then Some(name) else None, target))
  }

  /** The input that shows it: the string pool fails after the URI record
      was allocated. The URI is linked without a name, which sort_uris
      later hands to strcmp; Link gives None and links nothing. */
  lemma LinkAsWrittenLinksNull(link: seq<byte>, target: ObjRef)
    ensures LinkAsWritten(link, target, true, false) == Some(LinkedUri(None, target))
  {
  }
}

