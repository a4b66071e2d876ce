/** The pieces of http_parse.c that sit around the decoder: the
    HTTP-Version decoder, the value handlers a header table names, and
    dispatch_hdr, the binary search that picks a table entry for a
    header key. */
module HttpParse {
  import opened Bytes
  import opened Vec

  const HTTP_VER_UNKNOWN: int := 0xff
  const HTTP_VER_0_9: int := 0x09
  const HTTP_VER_1_0: int := 0x10
  const HTTP_VER_1_1: int := 0x11
  const INT_MAX: int := 0x7fff_ffff

  // ---------------------------------------------------------------------
  // HTTP-Version (section 3.1 of RFC 2616)

  /** "HTTP/X.Y" for the single digits X = maj and Y = min. */
  function VersionText(maj: nat, min: nat): (r: seq<byte>)
    requires maj < 10 && min < 10
    ensures |r| == 8 && r[..5] == Str("HTTP/") && r[6] == DOT
    ensures r[5] as int == '0' as int + maj && r[7] as int == '0' as int + min
  {
    Str("HTTP/") + [('0' as int + maj) as byte, DOT, ('0' as int + min) as byte]
  }

  /** The checks http_proto_version makes before it reads the digits: a
      non-NULL vector of exactly 8 bytes, "HTTP/", a digit, '.', a digit. */
  predicate IsVersion(s: Option<seq<byte>>)
  {
    s.Some? && |s.value| == 8 && s.value[..5] == Str("HTTP/") && s.value[6] == DOT
    && IsDigit(s.value[5]) && IsDigit(s.value[7])
  }

  /** http_proto_version as written: (minor << 4) | major. */
  function ProtoVersionAsWritten(s: Option<seq<byte>>): (r: int)
    ensures 0 <= r <= 0xff
    ensures r != HTTP_VER_UNKNOWN <==> IsVersion(s)
  {
    if s.None? then HTTP_VER_UNKNOWN
    else if |s.value| != 8 then HTTP_VER_UNKNOWN
    else if s.value[..5] != Str("HTTP/") then HTTP_VER_UNKNOWN
    else if s.value[6] != DOT then HTTP_VER_UNKNOWN
    else if !IsDigit(s.value[5]) || !IsDigit(s.value[7]) then HTTP_VER_UNKNOWN
    else 16 * (s.value[7] as int - '0' as int) + (s.value[5] as int - '0' as int)
  }

  /** http_proto_version with the nibbles in the order of the HTTP_VER_*
      constants: (major << 4) | minor. */
  function ProtoVersion(s: Option<seq<byte>>): (r: int)
    ensures 0 <= r <= 0xff
    ensures r != HTTP_VER_UNKNOWN <==> IsVersion(s)
  {
    if s.None? then HTTP_VER_UNKNOWN
    else if |s.value| != 8 then HTTP_VER_UNKNOWN
    else if s.value[..5] != Str("HTTP/") then HTTP_VER_UNKNOWN
    else if s.value[6] != DOT then HTTP_VER_UNKNOWN
    else if !IsDigit(s.value[5]) || !IsDigit(s.value[7]) then HTTP_VER_UNKNOWN
    else 16 * (s.value[5] as int - '0' as int) + (s.value[7] as int - '0' as int)
  }

  /** Encoding a version and decoding it gives (major << 4) | minor. */
  lemma {:induction false} ProtoVersionOfText(maj: nat, min: nat)
    requires maj < 10 && min < 10
    ensures ProtoVersion(Some(VersionText(maj, min))) == 16 * maj + min
  {
  }

  /** Every known code comes from exactly one version text: decoding and
      re-encoding gives the field back. */
  lemma {:induction false} ProtoVersionKnown(s: Option<seq<byte>>)
    requires ProtoVersion(s) != HTTP_VER_UNKNOWN
    ensures ProtoVersion(s) / 16 < 10 && ProtoVersion(s) % 16 < 10
    ensures s == Some(VersionText(ProtoVersion(s) / 16, ProtoVersion(s) % 16))
  {
    var t := s.value;
    var maj, min := t[5] as int - '0' as int, t[7] as int - '0' as int;
    assert ProtoVersion(s) == 16 * maj + min;
    var u := VersionText(maj, min);
    assert t == t[..5] + [t[5], t[6], t[7]];
    assert u == u[..5] + [u[5], u[6], u[7]];
  }

  /** Version codes order versions by major, then minor number. */
  lemma {:induction false} ProtoVersionOrder(maj: nat, min: nat, maj': nat, min': nat)
    requires maj < 10 && min < 10 && maj' < 10 && min' < 10
    ensures ProtoVersion(Some(VersionText(maj, min))) < ProtoVersion(Some(VersionText(maj', min')))
        <==> maj < maj' || (maj == maj' && min < min')
  {
    ProtoVersionOfText(maj, min);
    ProtoVersionOfText(maj', min');
  }

  /** The named versions decode to the named constants. */
  lemma {:induction false} ProtoVersionNames()
    ensures ProtoVersion(Some(Str("HTTP/1.1"))) == HTTP_VER_1_1
    ensures ProtoVersion(Some(Str("HTTP/1.0"))) == HTTP_VER_1_0
    ensures ProtoVersion(Some(Str("HTTP/0.9"))) == HTTP_VER_0_9
  {
    assert Str("HTTP/1.1") == VersionText(1, 1);
    assert Str("HTTP/1.0") == VersionText(1, 0);
    assert Str("HTTP/0.9") == VersionText(0, 9);
  }

  /** As written, the nibbles come out swapped: "HTTP/1.0" is 0x01 rather
      than HTTP_VER_1_0, and "HTTP/2.0" ranks below "HTTP/1.1". */
  lemma {:induction false} ProtoVersionSwapped(maj: nat, min: nat)
    requires maj < 10 && min < 10
    ensures ProtoVersionAsWritten(Some(VersionText(maj, min))) == 16 * min + maj
    ensures ProtoVersionAsWritten(Some(Str("HTTP/1.0"))) == 0x01 != HTTP_VER_1_0
    ensures ProtoVersionAsWritten(Some(Str("HTTP/2.0"))) < ProtoVersionAsWritten(Some(Str("HTTP/1.1")))
  {
    assert Str("HTTP/1.0") == VersionText(1, 0);
    assert Str("HTTP/2.0") == VersionText(2, 0);
    assert Str("HTTP/1.1") == VersionText(1, 1);
  }

  // ---------------------------------------------------------------------
  // Value handlers

  /** The number of leading decimal digits, which vtouint consumes. */
  function DigitRun(v: seq<byte>): (n: nat)
    ensures n <= |v|
    ensures forall i :: 0 <= i < n ==> IsDigit(v[i])
    ensures n < |v| ==> !IsDigit(v[n])
  {
    if v == [] || !IsDigit(v[0]) then 0 else 1 + DigitRun(v[1..])
  }

  /** Whatever count vtouint returns is the digit run. */
  lemma {:induction false} DigitRunUnique(v: seq<byte>, n: nat)
    requires n <= |v| && (forall i :: 0 <= i < n ==> IsDigit(v[i])) && (n < |v| ==> !IsDigit(v[n]))
    ensures DigitRun(v) == n
  {
  }

  /** What htype_int stores: -1 when there is no leading digit or the
      value, wrapped to 32 bits as vtouint leaves it, exceeds INT_MAX;
      otherwise that value. */
  function IntField(v: seq<byte>): (r: int)
    ensures -1 <= r <= INT_MAX
  {
    var n := DigitRun(v);
    var u := Decimal(v[..n]) % TWO32;
    if n == 0 || u > INT_MAX then -1 else u
  }

  /** htype_int: the integer handler. */
  method HtypeInt(v: seq<byte>) returns (val: int)
    ensures val == IntField(v)
  {
    var len, u := VToUint(v);
    DigitRunUnique(v, len);
    if len == 0 || u > INT_MAX {
      val := -1;
    } else {
      val := u;
    }
  }

  /** A number up to INT_MAX, written in decimal and followed by anything
      that does not start with a digit, is read back as itself. */
  lemma {:induction false} IntFieldOfNumber(d: seq<byte>, rest: seq<byte>)
    requires d != [] && (forall i :: 0 <= i < |d| ==> IsDigit(d[i])) && Decimal(d) <= INT_MAX
    requires rest == [] || !IsDigit(rest[0])
    ensures IntField(d + rest) == Decimal(d)
  {
    DigitRunUnique(d + rest, |d|);
    assert (d + rest)[..|d|] == d;
  }

  /** A value that does not start with a digit is stored as -1. */
  lemma {:induction false} IntFieldNoDigits(v: seq<byte>)
    requires v == [] || !IsDigit(v[0])
    ensures IntField(v) == -1
  {
  }

  /** What the disabled htype_code would store: 0xffff unless vtouint
      consumes exactly three digits (whose value is at most 999). */
  function CodeField(v: seq<byte>): (r: int)
    ensures 0 <= r <= 999 || r == 0xffff
  {
    var n := DigitRun(v);
    var u := Decimal(v[..n]) % TWO32;
    if n != 3 || u > 999 then 0xffff else u
  }

  /** Three digits, then anything that does not start with a digit, are
      read back as their value; a digit run of any other length is 0xffff. */
  lemma {:induction false} CodeFieldOfDigits(d: seq<byte>, rest: seq<byte>)
    requires (forall i :: 0 <= i < |d| ==> IsDigit(d[i])) && (rest == [] || !IsDigit(rest[0]))
    ensures |d| == 3 ==> CodeField(d + rest) == Decimal(d)
    ensures |d| != 3 ==> CodeField(d + rest) == 0xffff
  {
    DigitRunUnique(d + rest, |d|);
    assert (d + rest)[..|d|] == d;
    if |d| == 3 {
      DecimalBound(d);
    }
  }

  /** Three digits make at most 999. */
  lemma {:induction false} DecimalBound(d: seq<byte>)
    requires |d| == 3 && forall i :: 0 <= i < 3 ==> IsDigit(d[i])
    ensures Decimal(d) <= 999
  {
    assert d[..3] == d;
    assert d[..2][..1] == d[..1];
    assert d[..1][..0] == [];
    assert Decimal(d[..1]) <= 9;
    assert Decimal(d[..2]) == Decimal(d[..1]) * 10 + (d[1] as int - '0' as int) % 10;
    assert Decimal(d[..2]) <= 99;
    assert Decimal(d) == Decimal(d[..2]) * 10 + (d[2] as int - '0' as int) % 10;
  }

  /** htype_code: the three-digit status-code handler. */
  method HtypeCode(v: seq<byte>) returns (code: int)
    ensures code == CodeField(v)
  {
    var len, u := VToUint(v);
    DigitRunUnique(v, len);
    if len != 3 || u > 999 {
      code := 0xffff;
    } else {
      code := u;
    }
  }

  // ---------------------------------------------------------------------
  // dispatch_hdr

  /** dispatch_hdr's halving over the entries lo .. lo+n-1: the index of
      the entry whose handler it calls, or None once n reaches 0. */
  function Search(labels: seq<seq<byte>>, k: seq<byte>, lo: nat, n: nat): (r: Option<nat>)
    requires lo + n <= |labels|
    ensures r.Some? ==> lo <= r.value < lo + n && Lower(labels[r.value]) == Lower(k)
    decreases n
  {
    if n == 0 then None
    else
      var i := n / 2;
      var c := Compare(Lower(k), Lower(labels[lo + i]));
      if c < 0 then Search(labels, k, lo, i)
      else if c > 0 then Search(labels, k, lo + i + 1, n - (i + 1))
      else
        CompareZeroIffEqual(Lower(k), Lower(labels[lo + i]));
        Some(lo + i)
  }

  /** The entry dispatch_hdr picks from a whole table. */
  function Dispatch(labels: seq<seq<byte>>, k: seq<byte>): Option<nat>
  {
    Search(labels, k, 0, |labels|)
  }

  /** dispatch_hdr: returns the index of the entry whose handler it calls
      (at most one, and only one whose label equals the key up to case). */
  method DispatchHdr(labels: seq<seq<byte>>, k: seq<byte>) returns (r: Option<nat>)
    requires forall j :: 0 <= j < |labels| ==> NoNul(labels[j])
    ensures r == Dispatch(labels, k)
    ensures r.Some? ==> r.value < |labels| && Lower(labels[r.value]) == Lower(k)
  {
    var lo: nat, n: nat := 0, |labels|;
    while n > 0
      invariant lo + n <= |labels|
      invariant Search(labels, k, lo, n) == Dispatch(labels, k)
      decreases n
    {
      var found;
      found, lo, n := Halve(labels, k, lo, n);
      if found.Some? {
        return found;
      }
    }
    return None;
  }

  /** One probe of dispatch_hdr: the middle entry of lo .. lo+n-1 is
      compared with the key; on a match it is the entry called, and
      otherwise the search goes on in the half the key falls in. */
  method Halve(labels: seq<seq<byte>>, k: seq<byte>, lo: nat, n: nat) returns (found: Option<nat>, lo': nat, n': nat)
    requires 0 < n && lo + n <= |labels| && NoNul(labels[lo + n / 2])
    ensures found.Some? ==> found == Search(labels, k, lo, n)
    ensures found.None? ==> n' < n && lo' + n' <= |labels| && Search(labels, k, lo', n') == Search(labels, k, lo, n)
  {
    var i := n / 2;
    var ret := VStrCmp(k, labels[lo + i]);
    SearchStep(labels, k, lo, n);
    if ret < 0 {
      return None, lo, i;
    } else if ret > 0 {
      return None, lo + i + 1, n - (i + 1);
    } else {
      return Some(lo + i), lo, n;
    }
  }

  /** The labels ascend strictly in vstrcmp's order, which the halving
      in dispatch_hdr takes for granted. */
  predicate Sorted(labels: seq<seq<byte>>)
  {
    forall j :: 0 < j < |labels| ==> Compare(Lower(labels[j - 1]), Lower(labels[j])) < 0
  }

  lemma {:induction false} SortedPair(labels: seq<seq<byte>>, a: nat, b: nat)
    requires Sorted(labels) && a < b < |labels|
    ensures Compare(Lower(labels[a]), Lower(labels[b])) < 0
    decreases b - a
  {
    if a + 1 < b {
      SortedPair(labels, a, b - 1);
      CompareTransitive(Lower(labels[a]), Lower(labels[b - 1]), Lower(labels[b]));
    }
  }

  lemma {:induction false} SearchFinds(labels: seq<seq<byte>>, k: seq<byte>, lo: nat, n: nat, j: nat)
    requires Sorted(labels) && lo <= j < lo + n && lo + n <= |labels| && Lower(k) == Lower(labels[j])
    ensures Search(labels, k, lo, n) == Some(j)
    decreases n
  {
    var i := n / 2;
    if j < lo + i {
      SearchBelow(labels, k, lo, n, j);
      SearchFinds(labels, k, lo, i, j);
    } else if j > lo + i {
      SearchAbove(labels, k, lo, n, j);
      SearchFinds(labels, k, lo + i + 1, n - (i + 1), j);
    } else {
      SearchStep(labels, k, lo, n);
      CompareZeroIffEqual(Lower(k), Lower(labels[lo + i]));
    }
  }

  /** A key equal to an entry before the middle sends the halving left. */
  lemma SearchBelow(labels: seq<seq<byte>>, k: seq<byte>, lo: nat, n: nat, j: nat)
    requires Sorted(labels) && lo <= j < lo + n / 2 && lo + n <= |labels| && Lower(k) == Lower(labels[j])
    ensures Search(labels, k, lo, n) == Search(labels, k, lo, n / 2)
  {
    SearchStep(labels, k, lo, n);
    SortedPair(labels, j, lo + n / 2);
  }

  /** A key equal to an entry after the middle sends the halving right. */
  lemma SearchAbove(labels: seq<seq<byte>>, k: seq<byte>, lo: nat, n: nat, j: nat)
    requires Sorted(labels) && lo + n / 2 < j < lo + n && lo + n <= |labels| && Lower(k) == Lower(labels[j])
    ensures Search(labels, k, lo, n) == Search(labels, k, lo + n / 2 + 1, n - (n / 2 + 1))
  {
    SearchStep(labels, k, lo, n);
    SortedPair(labels, lo + n / 2, j);
    CompareAntisymmetric(Lower(labels[lo + n / 2]), Lower(k));
  }

  /** One halving step of dispatch_hdr. */
  lemma SearchStep(labels: seq<seq<byte>>, k: seq<byte>, lo: nat, n: nat)
    requires 0 < n && lo + n <= |labels|
    ensures var c := Compare(Lower(k), Lower(labels[lo + n / 2]));
      Search(labels, k, lo, n) ==
        if c < 0 then Search(labels, k, lo, n / 2)
        else if c > 0 then Search(labels, k, lo + n / 2 + 1, n - (n / 2 + 1))
        else Some(lo + n / 2)
  {
  }

  /** On a sorted table, dispatch_hdr calls entry j exactly when the key
      equals label j up to case. */
  lemma {:induction false} DispatchIff(labels: seq<seq<byte>>, k: seq<byte>, j: nat)
    requires Sorted(labels) && j < |labels|
    ensures Dispatch(labels, k) == Some(j) <==> Lower(k) == Lower(labels[j])
  {
    if Lower(k) == Lower(labels[j]) {
      SearchFinds(labels, k, 0, |labels|, j);
    }
  }

  /** The value of the last header line whose key equals `name` up to
      case: what a handler that overwrites its destination leaves there. */
  function LastValue(hs: seq<(seq<byte>, seq<byte>)>, name: seq<byte>): (r: Option<seq<byte>>)
    ensures r.None? ==> forall j :: 0 <= j < |hs| ==> Lower(hs[j].0) != Lower(name)
    ensures r.Some? ==> exists j :: (0 <= j < |hs| && Lower(hs[j].0) == Lower(name) && hs[j].1 == r.value
                                     && forall j' :: j < j' < |hs| ==> Lower(hs[j'].0) != Lower(name))
  {
    if hs == [] then None
    else if Lower(hs[|hs| - 1].0) == Lower(name) then Some(hs[|hs| - 1].1)
    else
      var r := LastValue(hs[..|hs| - 1], name);
      assert forall j :: 0 <= j < |hs| - 1 ==> hs[..|hs| - 1][j] == hs[j];
      r
  }

  /** The value of the last header line that dispatch_hdr hands to entry j. */
  function LastDispatched(labels: seq<seq<byte>>, hs: seq<(seq<byte>, seq<byte>)>, j: nat): Option<seq<byte>>
  {
    if hs == [] then None
    else if Dispatch(labels, hs[|hs| - 1].0) == Some(j) then Some(hs[|hs| - 1].1)
    else LastDispatched(labels, hs[..|hs| - 1], j)
  }

  /** One more header line: it reaches entry j or leaves it as it was. */
  lemma LastDispatchedSnoc(labels: seq<seq<byte>>, hs: seq<(seq<byte>, seq<byte>)>, h: (seq<byte>, seq<byte>), j: nat)
    ensures LastDispatched(labels, hs + [h], j) ==
      if Dispatch(labels, h.0) == Some(j) then Some(h.1) else LastDispatched(labels, hs, j)
  {
    assert (hs + [h])[..|hs|] == hs;
  }

  /** On a sorted table, the handler of entry j ends up with the value of
      the last header whose key equals label j up to case. */
  lemma {:induction false} LastDispatchedIs(labels: seq<seq<byte>>, hs: seq<(seq<byte>, seq<byte>)>, j: nat)
    requires Sorted(labels) && j < |labels|
    ensures LastDispatched(labels, hs, j) == LastValue(hs, labels[j])
  {
    if hs != [] {
      DispatchIff(labels, hs[|hs| - 1].0, j);
      LastDispatchedIs(labels, hs[..|hs| - 1], j);
    }
  }

  /** An entry that no key reaches never receives a value. */
  lemma {:induction false} NeverDispatched(labels: seq<seq<byte>>, hs: seq<(seq<byte>, seq<byte>)>, j: nat)
    requires forall k :: Dispatch(labels, k) != Some(j)
    ensures LastDispatched(labels, hs, j) == None
  {
    if hs != [] {
      NeverDispatched(labels, hs[..|hs| - 1], j);
    }
  }

  // Deciding vstrcmp on fixed labels

  /** Equal bytes up to position n, then a smaller one: a is below b. */
  lemma {:induction false} Below(a: seq<byte>, b: seq<byte>, n: nat)
    requires n < |a| && n < |b| && (forall j :: 0 <= j < n ==> a[j] == b[j]) && a[n] < b[n]
    ensures Compare(a, b) < 0
  {
    assert a[..n] == b[..n];
    CompareDecidedAt(a, b, n);
  }

  /** Equal bytes up to position n, then a larger one: a is above b. */
  lemma {:induction false} Above(a: seq<byte>, b: seq<byte>, n: nat)
    requires n < |a| && n < |b| && (forall j :: 0 <= j < n ==> a[j] == b[j]) && a[n] > b[n]
    ensures Compare(a, b) > 0
  {
    assert a[..n] == b[..n];
    CompareDecidedAt(a, b, n);
  }
}
