/** The compiled-in name table of a webroot and the lookups on it
    (webroot.c). The generated table itself is a parameter: `names` holds
    the `name` fields of `webroot_namedb` in table order, `types` the
    entries of `mime_types`. */
module Webroot {
  import opened Bytes
  import opened Vec

  /** The order mkroot emits names in: strictly ascending under vcmp_fast
      (shorter names first, then bytewise). */
  predicate Sorted(names: seq<seq<byte>>)
  {
    forall i, j :: 0 <= i < j < |names| ==> CompareFast(names[i], names[j]) < 0
  }

  /** The position of `uri` in `names`, if any. */
  function IndexOf(names: seq<seq<byte>>, uri: seq<byte>): (r: Option<nat>)
    ensures r.Some? ==> r.value < |names| && names[r.value] == uri
    ensures r.None? <==> uri !in names
  {
    if names == [] then None
    else if names[0] == uri then Some(0)
    else match IndexOf(names[1..], uri)
      case None => None
      case Some(k) => Some(k + 1)
  }

  /** In a sorted table, nothing at or after an entry above `uri` equals it. */
  lemma AboveFrom(names: seq<seq<byte>>, m: nat, uri: seq<byte>)
    requires Sorted(names) && m < |names| && CompareFast(uri, names[m]) < 0
    ensures forall k :: m <= k < |names| ==> names[k] != uri
  {
    forall k | m < k < |names|
      ensures names[k] != uri
    {
      CompareFastTransitive(uri, names[m], names[k]);
      CompareFastZeroIffEqual(uri, names[k]);
    }
    CompareFastZeroIffEqual(uri, names[m]);
  }

  /** In a sorted table, nothing at or before an entry below `uri` equals it. */
  lemma BelowUpTo(names: seq<seq<byte>>, m: nat, uri: seq<byte>)
    requires Sorted(names) && m < |names| && CompareFast(uri, names[m]) > 0
    ensures forall k :: 0 <= k <= m ==> names[k] != uri
  {
    CompareAntisymmetric(uri, names[m]);
    forall k | 0 <= k < m
      ensures names[k] != uri
    {
      CompareFastTransitive(names[k], names[m], uri);
      CompareFastZeroIffEqual(names[k], uri);
    }
    CompareFastZeroIffEqual(uri, names[m]);
  }

  /** webroot_find: binary search over `names` keeping a window
      [base, base + n) outside which, in a sorted table, `uri` cannot be.
      Whatever the table, a hit names an entry equal to `uri`; when the
      table is sorted, a miss means `uri` is not in it. */
  method Find(names: seq<seq<byte>>, uri: seq<byte>) returns (r: Option<nat>)
    ensures r.Some? ==> r.value < |names| && names[r.value] == uri
    ensures Sorted(names) ==> (r.None? <==> uri !in names)
  {
    var base: nat := 0;
    var n: nat := |names|;
    while n != 0
      invariant base + n <= |names|
      invariant Sorted(names) ==>
        forall k :: 0 <= k < |names| && !(base <= k < base + n) ==> names[k] != uri
      decreases n
    {
      var i := n / 2;
      var cmp := CompareFast(uri, names[base + i]);
      if cmp < 0 {
        if Sorted(names) {
          AboveFrom(names, base + i, uri);
        }
        n := i;
      } else if cmp > 0 {
        if Sorted(names) {
          BelowUpTo(names, base + i, uri);
        }
        base := base + (i + 1);
        n := n - (i + 1);
      } else {
        CompareFastZeroIffEqual(uri, names[base + i]);
        return Some(base + i);
      }
    }
    return None;
  }

  /** On a sorted table the search finds exactly the entry IndexOf finds. */
  lemma FindIsIndexOf(names: seq<seq<byte>>, uri: seq<byte>, r: Option<nat>)
    requires Sorted(names)
    requires r.Some? ==> r.value < |names| && names[r.value] == uri
    requires r.None? <==> uri !in names
    ensures r == IndexOf(names, uri)
  {
    if r.Some? {
      var k := IndexOf(names, uri).value;
      CompareFastZeroIffEqual(names[k], names[r.value]);
      CompareFastZeroIffEqual(names[r.value], names[k]);
      assert !(k < r.value) && !(r.value < k);
    }
  }

  /** webroot_mime_type: the entry at `idx`; the caller guarantees that
      `idx` is below the number of mime types. */
  function MimeType(types: seq<seq<byte>>, idx: nat): (r: seq<byte>)
    requires idx < |types|
    ensures r in types
  {
    types[idx]
  }
}
