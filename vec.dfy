/** Comparisons and decimal parsing over `ro_vec` byte views (vec.c).
    Every routine is a loop; each is proved against a recursive
    specification function whose meaning is then established by lemmas. */
module Vec {
  import opened Bytes

  // ---------------------------------------------------------------------
  // Decimal parsing (vtouint)

  /** Value of a string of decimal digits, most significant first. */
  function Decimal(s: seq<byte>): nat
  {
    if s == [] then 0
    else Decimal(s[..|s| - 1]) * 10 + (s[|s| - 1] as int - '0' as int) % 10
  }

  lemma MulAddMod(a: int, d: int)
    ensures ((a % TWO32) * 10 + d) % TWO32 == (a * 10 + d) % TWO32
  {
    var q := a / TWO32;
    assert a == q * TWO32 + a % TWO32;
    assert a * 10 + d == ((a % TWO32) * 10 + d) + (q * 10) * TWO32;
  }

  /** vtouint: consumes the longest run of leading digits, returning its
      length, and leaves in `u` its decimal value wrapped to 32 bits. */
  method VToUint(v: seq<byte>) returns (n: nat, u: int)
    ensures n <= |v|
    ensures forall i :: 0 <= i < n ==> IsDigit(v[i])
    ensures n < |v| ==> !IsDigit(v[n])
    ensures 0 <= u < TWO32
    ensures u == Decimal(v[..n]) % TWO32
  {
    u, n := 0, 0;
    while n < |v|
      invariant n <= |v|
      invariant forall i :: 0 <= i < n ==> IsDigit(v[i])
      invariant u == Decimal(v[..n]) % TWO32
    {
      var digit := v[n] as int - '0' as int;
      if digit < 0 || digit >= 10 {
        break;
      }
      assert v[..n + 1][..n] == v[..n];
      MulAddMod(Decimal(v[..n]), digit);
      u := (u * 10 + digit) % TWO32;
      n := n + 1;
    }
  }

  // ---------------------------------------------------------------------
  // Comparisons

  /** Difference of the first pair of bytes that differ within the common
      length of `a` and `b`, or 0 when one is a prefix of the other. */
  function FirstDiff(a: seq<byte>, b: seq<byte>): int
  {
    if a == [] || b == [] then 0
    else if a[0] != b[0] then a[0] as int - b[0] as int
    else FirstDiff(a[1..], b[1..])
  }

  /** vcmp's order: the first differing byte decides, else the length difference. */
  function Compare(a: seq<byte>, b: seq<byte>): int
  {
    var d := FirstDiff(a, b);
    if d != 0 then d else |a| - |b|
  }

  /** vcmp_fast's order: the length difference first, then the first differing byte. */
  function CompareFast(a: seq<byte>, b: seq<byte>): int
  {
    if |a| != |b| then |a| - |b| else FirstDiff(a, b)
  }

  lemma {:induction false} FirstDiffAt(a: seq<byte>, b: seq<byte>, k: nat)
    requires k <= |a| && k <= |b| && a[..k] == b[..k]
    ensures k < |a| && k < |b| && a[k] != b[k] ==> FirstDiff(a, b) == a[k] as int - b[k] as int
    ensures (k == |a| || k == |b|) ==> FirstDiff(a, b) == 0
  {
    if k > 0 {
      assert a[0] == a[..k][0] && b[0] == b[..k][0];
      assert a[1..][..k - 1] == a[..k][1..] && b[1..][..k - 1] == b[..k][1..];
      FirstDiffAt(a[1..], b[1..], k - 1);
    }
  }

  lemma {:induction false} FirstDiffZero(a: seq<byte>, b: seq<byte>)
    ensures FirstDiff(a, b) == 0 <==> a[..Min(|a|, |b|)] == b[..Min(|a|, |b|)]
  {
    if a != [] && b != [] {
      FirstDiffZero(a[1..], b[1..]);
      if a[0] == b[0] {
        var m := Min(|a|, |b|);
        assert a[..m] == [a[0]] + a[1..][..m - 1];
        assert b[..m] == [b[0]] + b[1..][..m - 1];
      } else {
        assert a[..Min(|a|, |b|)][0] != b[..Min(|a|, |b|)][0];
      }
    }
  }

  lemma {:induction false} FirstDiffAntisymmetric(a: seq<byte>, b: seq<byte>)
    ensures FirstDiff(b, a) == -FirstDiff(a, b)
  {
    if a != [] && b != [] && a[0] == b[0] {
      FirstDiffAntisymmetric(a[1..], b[1..]);
    }
  }

  /** The first position where the strings differ decides vcmp's sign and value. */
  lemma CompareDecidedAt(a: seq<byte>, b: seq<byte>, k: nat)
    requires k <= |a| && k <= |b| && a[..k] == b[..k]
    ensures k < |a| && k < |b| && a[k] != b[k] ==> Compare(a, b) == a[k] as int - b[k] as int
    ensures (k == |a| || k == |b|) ==> Compare(a, b) == |a| - |b|
  {
    FirstDiffAt(a, b, k);
  }

  lemma CompareZeroIffEqual(a: seq<byte>, b: seq<byte>)
    ensures Compare(a, b) == 0 <==> a == b
  {
    FirstDiffZero(a, b);
    if Compare(a, b) == 0 {
      assert a == a[..Min(|a|, |b|)];
    }
  }

  lemma CompareFastZeroIffEqual(a: seq<byte>, b: seq<byte>)
    ensures CompareFast(a, b) == 0 <==> a == b
  {
    FirstDiffZero(a, b);
    if CompareFast(a, b) == 0 {
      assert a == a[..Min(|a|, |b|)];
    }
  }

  /** Swapping the arguments negates the result of both comparisons. */
  lemma CompareAntisymmetric(a: seq<byte>, b: seq<byte>)
    ensures Compare(b, a) == -Compare(a, b)
    ensures CompareFast(b, a) == -CompareFast(a, b)
  {
    FirstDiffAntisymmetric(a, b);
  }

  /** Past a common first byte, vcmp compares what follows. */
  lemma CompareTail(a: seq<byte>, b: seq<byte>)
    requires a != [] && b != [] && a[0] == b[0]
    ensures Compare(a, b) == Compare(a[1..], b[1..])
  {
  }

  /** vcmp's order is transitive, so a table sorted pair by pair is
      sorted between any two of its entries. */
  lemma {:induction false} CompareTransitive(a: seq<byte>, b: seq<byte>, c: seq<byte>)
    requires Compare(a, b) < 0 && Compare(b, c) < 0
    ensures Compare(a, c) < 0
    decreases |a|
  {
    if a != [] {
      if a[0] == b[0] && b[0] == c[0] {
        CompareTail(a, b);
        CompareTail(b, c);
        CompareTail(a, c);
        CompareTransitive(a[1..], b[1..], c[1..]);
      }
    }
  }

  lemma {:induction false} FirstDiffTransitive(a: seq<byte>, b: seq<byte>, c: seq<byte>)
    requires FirstDiff(a, b) < 0 && FirstDiff(b, c) < 0
    ensures FirstDiff(a, c) < 0
    decreases |a|
  {
    if a[0] == b[0] && b[0] == c[0] {
      FirstDiffTransitive(a[1..], b[1..], c[1..]);
    }
  }

  /** vcmp_fast's order is transitive as well: a table ordered by it pair by
      pair is ordered between any two of its entries. */
  lemma CompareFastTransitive(a: seq<byte>, b: seq<byte>, c: seq<byte>)
    requires CompareFast(a, b) < 0 && CompareFast(b, c) < 0
    ensures CompareFast(a, c) < 0
  {
    if |a| == |b| == |c| {
      FirstDiffTransitive(a, b, c);
    }
  }

  /** vcmp */
  method VCmp(a: seq<byte>, b: seq<byte>) returns (r: int)
    ensures r == Compare(a, b)
  {
    var min := Min(|a|, |b|);
    r := |a| - |b|;
    var i := 0;
    while i < min
      invariant i <= min
      invariant a[..i] == b[..i]
    {
      var d := a[i] as int - b[i] as int;
      if d != 0 {
        CompareDecidedAt(a, b, i);
        return d;
      }
      assert a[..i + 1] == a[..i] + [a[i]] && b[..i + 1] == b[..i] + [b[i]];
      i := i + 1;
    }
    CompareDecidedAt(a, b, i);
  }

  /** vcasecmp: vcmp after tolower on every byte. */
  method VCaseCmp(a: seq<byte>, b: seq<byte>) returns (r: int)
    ensures r == Compare(Lower(a), Lower(b))
  {
    ghost var la, lb := Lower(a), Lower(b);
    var min := Min(|a|, |b|);
    r := |a| - |b|;
    var i := 0;
    while i < min
      invariant i <= min
      invariant la[..i] == lb[..i]
    {
      var d := ToLower(a[i]) as int - ToLower(b[i]) as int;
      if d != 0 {
        CompareDecidedAt(la, lb, i);
        return d;
      }
      assert la[..i + 1] == la[..i] + [la[i]] && lb[..i + 1] == lb[..i] + [lb[i]];
      i := i + 1;
    }
    CompareDecidedAt(la, lb, i);
  }

  /** vcmp_fast */
  method VCmpFast(a: seq<byte>, b: seq<byte>) returns (r: int)
    ensures r == CompareFast(a, b)
  {
    r := |a| - |b|;
    if r == 0 {
      var i := 0;
      while i < |a|
        invariant i <= |a|
        invariant a[..i] == b[..i]
        invariant r == 0
      {
        r := a[i] as int - b[i] as int;
        if r != 0 {
          break;
        }
        assert a[..i + 1] == a[..i] + [a[i]] && b[..i + 1] == b[..i] + [b[i]];
        i := i + 1;
      }
      FirstDiffAt(a, b, i);
    }
  }

  /** vcasecmp_fast: vcmp_fast after tolower on every byte. */
  method VCaseCmpFast(a: seq<byte>, b: seq<byte>) returns (r: int)
    ensures r == CompareFast(Lower(a), Lower(b))
  {
    ghost var la, lb := Lower(a), Lower(b);
    r := |a| - |b|;
    if r == 0 {
      var i := 0;
      while i < |a|
        invariant i <= |a|
        invariant la[..i] == lb[..i]
        invariant r == 0
      {
        r := ToLower(a[i]) as int - ToLower(b[i]) as int;
        if r != 0 {
          break;
        }
        assert la[..i + 1] == la[..i] + [la[i]] && lb[..i + 1] == lb[..i] + [lb[i]];
        i := i + 1;
      }
      FirstDiffAt(la, lb, i);
    }
  }

  /** vstrcmp: vcasecmp against a C string, whose length is up to its NUL. */
  method VStrCmp(v: seq<byte>, str: seq<byte>) returns (r: int)
    requires NoNul(str)
    ensures r == 0 <==> Lower(v) == Lower(str)
    ensures r == Compare(Lower(v), Lower(str))
  {
    r := VCaseCmp(v, str);
    CompareZeroIffEqual(Lower(v), Lower(str));
  }

  /** vstrcmp_fast: vcasecmp_fast against a C string. */
  method VStrCmpFast(v: seq<byte>, str: seq<byte>) returns (r: int)
    requires NoNul(str)
    ensures r == 0 <==> Lower(v) == Lower(str)
    ensures r == CompareFast(Lower(v), Lower(str))
  {
    r := VCaseCmpFast(v, str);
    CompareFastZeroIffEqual(Lower(v), Lower(str));
  }
}
