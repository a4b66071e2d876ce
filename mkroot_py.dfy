/** mkroot.py, the Python index builder: URIs are kept in a name database
    that maps each URI to a file object; file objects are deduplicated by
    (st_dev, st_ino); the object database is written with the bodies in
    ascending size, and the name database lists the URIs shortest first
    (foostr's order), each with the offset and length of its object's body.
    Python 2 strings are byte strings, so `seq<byte>` stands for them; an
    exception the script does not catch is a None result. */
module MkrootPy {
  import opened Bytes
  import opened Vec
  import opened Sorting

  // ---------------------------------------------------------------------
  // str and foostr

  /** str's own order: lexicographic by byte, a proper prefix first. That
      is vcmp's order. */
  predicate StrLt(a: seq<byte>, b: seq<byte>) { Compare(a, b) < 0 }
  predicate StrLe(a: seq<byte>, b: seq<byte>) { Compare(a, b) <= 0 }
  predicate StrGt(a: seq<byte>, b: seq<byte>) { Compare(a, b) > 0 }
  predicate StrGe(a: seq<byte>, b: seq<byte>) { Compare(a, b) >= 0 }

  /** foostr.__lt__ */
  predicate FooLt(a: seq<byte>, b: seq<byte>)
  {
    if |a| < |b| then true
    else if |a| > |b| then false
    else StrLt(a, b)
  }

  /** foostr.__le__ */
  predicate FooLe(a: seq<byte>, b: seq<byte>)
  {
    if |a| < |b| then true
    else if |a| > |b| then false
    else StrLe(a, b)
  }

  /** foostr.__gt__ */
  predicate FooGt(a: seq<byte>, b: seq<byte>)
  {
    if |a| > |b| then true
    else if |a| < |b| then false
    else StrGt(a, b)
  }

  /** foostr.__ge__ */
  predicate FooGe(a: seq<byte>, b: seq<byte>)
  {
    if |a| > |b| then true
    else if |a| < |b| then false
    else StrGe(a, b)
  }

  /** foostr.__eq__ and __ne__: plain string equality. */
  predicate FooEq(a: seq<byte>, b: seq<byte>) { a == b }
  predicate FooNe(a: seq<byte>, b: seq<byte>) { a != b }

  /** foostr.__cmp__: the length difference when the lengths differ.
      For equal lengths it calls str.__cmp__, an attribute str does not
      have, so it raises AttributeError: None. */
  function FooCmp(a: seq<byte>, b: seq<byte>): Option<int>
  {
    if |a| != |b| then Some(|a| - |b|) else None
  }

  /** foostr's order is vcmp_fast's: shorter first, then the first
      differing byte. */
  lemma FooLtIsCompareFast(a: seq<byte>, b: seq<byte>)
    ensures FooLt(a, b) <==> CompareFast(a, b) < 0
    ensures FooLt(a, b) <==> |a| < |b| || (|a| == |b| && Compare(a, b) < 0)
  {
  }

  /** The six relations agree: <= is < or ==, > and >= are < and <= with
      the arguments swapped, != is the negation of ==; __cmp__ raises
      exactly on equal lengths, and otherwise its sign matches < and >. */
  lemma FooConsistent(a: seq<byte>, b: seq<byte>)
    ensures FooLe(a, b) <==> FooLt(a, b) || FooEq(a, b)
    ensures FooGt(a, b) <==> FooLt(b, a)
    ensures FooGe(a, b) <==> FooLe(b, a)
    ensures FooNe(a, b) <==> !FooEq(a, b)
    ensures FooCmp(a, b).None? <==> |a| == |b|
    ensures FooCmp(a, b).Some? ==>
              FooCmp(a, b).value != 0 && !FooEq(a, b) &&
              (FooCmp(a, b).value < 0 <==> FooLt(a, b)) && (FooCmp(a, b).value > 0 <==> FooGt(a, b))
  {
    CompareZeroIffEqual(a, b);
    CompareAntisymmetric(a, b);
  }

  /** Exactly one of a < b, a == b and b < a holds. */
  lemma FooTrichotomy(a: seq<byte>, b: seq<byte>)
    ensures FooLt(a, b) || a == b || FooLt(b, a)
    ensures !(FooLt(a, b) && FooLt(b, a))
    ensures !(FooLt(a, b) && a == b)
  {
    CompareZeroIffEqual(a, b);
    CompareAntisymmetric(a, b);
  }

  /** foostr's <= orders every pair and is transitive, so list.sort
      applies to it. */
  lemma FooLeOrder()
    ensures Total(FooLe) && Transitive(FooLe)
  {
    forall a: seq<byte>, b: seq<byte>
      ensures FooLe(a, b) || FooLe(b, a)
    {
      CompareAntisymmetric(a, b);
    }
    forall a: seq<byte>, b: seq<byte>, c: seq<byte> | FooLe(a, b) && FooLe(b, c)
      ensures FooLe(a, c)
    {
      if |a| == |b| == |c| {
        CompareZeroIffEqual(a, b);
        CompareZeroIffEqual(b, c);
        if Compare(a, b) < 0 && Compare(b, c) < 0 {
          CompareTransitive(a, b, c);
        }
      }
    }
  }

  // ---------------------------------------------------------------------
  // FileObject

  /** What os.stat and os.fstat report that the script uses. */
  datatype Stat = Stat(dev: nat, ino: nat, size: nat)

  function StatKey(st: Stat): (nat, nat) { (st.dev, st.ino) }

  /** A FileObject: the (st_dev, st_ino) it was found under, its path and
      the size os.stat reported. */
  datatype PyFile = PyFile(key: (nat, nat), path: seq<byte>, size: nat)

  /** FileObject's comparisons: by size alone. */
  predicate FileLt(a: PyFile, b: PyFile) { a.size < b.size }
  predicate FileLe(a: PyFile, b: PyFile) { a.size <= b.size }
  predicate FileGt(a: PyFile, b: PyFile) { a.size > b.size }
  predicate FileGe(a: PyFile, b: PyFile) { a.size >= b.size }
  predicate FileEq(a: PyFile, b: PyFile) { a.size == b.size }
  predicate FileNe(a: PyFile, b: PyFile) { a.size != b.size }
  function FileCmp(a: PyFile, b: PyFile): int { a.size - b.size }

  /** Two FileObjects compare equal exactly when neither is smaller,
      whatever their paths and keys; __cmp__'s sign matches < and ==; and
      <= is a total preorder, so list.sort applies to it. */
  lemma FileOrderBySize(a: PyFile, b: PyFile)
    ensures FileEq(a, b) <==> !FileLt(a, b) && !FileLt(b, a)
    ensures FileLe(a, b) <==> FileLt(a, b) || FileEq(a, b)
    ensures FileGt(a, b) <==> FileLt(b, a)
    ensures FileGe(a, b) <==> FileLe(b, a)
    ensures FileNe(a, b) <==> !FileEq(a, b)
    ensures FileCmp(a, b) < 0 <==> FileLt(a, b)
    ensures FileCmp(a, b) == 0 <==> FileEq(a, b)
    ensures Total(FileLe) && Transitive(FileLe)
  {
  }

  /** FileObject(path): None when os.stat raises. */
  function NewFile(path: seq<byte>, stat: map<seq<byte>, Stat>): (r: Option<PyFile>)
    ensures r.Some? <==> path in stat
    ensures r.Some? ==> r.value.path == path && r.value.key == StatKey(stat[path]) && r.value.size == stat[path].size
  {
    if path in stat then Some(PyFile(StatKey(stat[path]), path, stat[path].size)) else None
  }

  /** to_file: the number of bytes copied, read from the file reopened at
      its path; None when it cannot be opened or is no longer the file
      that was found ("Rug pulling mayhem"). */
  function Copied(o: PyFile, reopen: map<seq<byte>, Stat>): (r: Option<nat>)
    ensures r.Some? <==> o.path in reopen && StatKey(reopen[o.path]) == o.key
  {
    if o.path in reopen && StatKey(reopen[o.path]) == o.key then Some(reopen[o.path].size) else None
  }

  /** Where to_file put a body: f.tell() before and the bytes written. */
  datatype Placement = Placement(obj: PyFile, fpos: nat, flen: nat)

  /** The bodies of objs copied one after the other from pos on; None when
      one of them raises. */
  function Placed(objs: seq<PyFile>, reopen: map<seq<byte>, Stat>, pos: nat): (r: Option<seq<Placement>>)
    ensures r.Some? ==> |r.value| == |objs|
    decreases |objs|
  {
    if objs == [] then Some([])
    else match Copied(objs[0], reopen)
      case None => None
      case Some(n) =>
        match Placed(objs[1..], reopen, pos + n)
        case None => None
        case Some(rest) => Some([Placement(objs[0], pos, n)] + rest)
  }

  /** ps in front of what r placed, if r placed anything. */
  function Then(ps: seq<Placement>, r: Option<seq<Placement>>): Option<seq<Placement>>
  {
    if r.None? then None else Some(ps + r.value)
  }

  /** Writing fails exactly when some object cannot be copied. */
  lemma {:induction false} PlacedFails(objs: seq<PyFile>, reopen: map<seq<byte>, Stat>, pos: nat)
    ensures Placed(objs, reopen, pos).None? <==> exists k :: 0 <= k < |objs| && Copied(objs[k], reopen).None?
    decreases |objs|
  {
    if objs != [] && Copied(objs[0], reopen).Some? {
      var n := Copied(objs[0], reopen).value;
      PlacedFails(objs[1..], reopen, pos + n);
      if exists k :: 0 <= k < |objs| && Copied(objs[k], reopen).None? {
        var k :| 0 <= k < |objs| && Copied(objs[k], reopen).None?;
        assert objs[1..][k - 1] == objs[k];
      }
      if exists k :: 0 <= k < |objs[1..]| && Copied(objs[1..][k], reopen).None? {
        var k :| 0 <= k < |objs[1..]| && Copied(objs[1..][k], reopen).None?;
        assert objs[k + 1] == objs[1..][k];
      }
    }
  }

  /** Written, each object's body starts where the previous one ended, the
      first at pos, and is as long as what to_file copied. */
  lemma {:induction false} PlacedContiguous(objs: seq<PyFile>, reopen: map<seq<byte>, Stat>, pos: nat)
    requires Placed(objs, reopen, pos).Some?
    ensures var ps := Placed(objs, reopen, pos).value;
      (|ps| > 0 ==> ps[0].fpos == pos) &&
      (forall k :: 0 <= k < |ps| ==> ps[k].obj == objs[k] && Copied(objs[k], reopen) == Some(ps[k].flen)) &&
      (forall k :: 0 <= k < |ps| - 1 ==> ps[k].fpos + ps[k].flen == ps[k + 1].fpos)
    decreases |objs|
  {
    if objs != [] {
      var n := Copied(objs[0], reopen).value;
      PlacedContiguous(objs[1..], reopen, pos + n);
      var ps := Placed(objs, reopen, pos).value;
      var rest := Placed(objs[1..], reopen, pos + n).value;
      assert ps == [Placement(objs[0], pos, n)] + rest;
      forall k | 0 < k < |ps|
        ensures ps[k].obj == objs[k] && Copied(objs[k], reopen) == Some(ps[k].flen)
      {
        assert ps[k] == rest[k - 1] && objs[k] == objs[1..][k - 1];
      }
      forall k | 0 <= k < |ps| - 1
        ensures ps[k].fpos + ps[k].flen == ps[k + 1].fpos
      {
        if k > 0 {
          assert ps[k] == rest[k - 1] && ps[k + 1] == rest[k];
        }
      }
    }
  }

  /** The elements of s, each once, in some order (dict.keys()). */
  method Elements<T>(s: set<T>) returns (r: seq<T>)
    ensures Distinct(r)
    ensures forall x :: x in r <==> x in s
  {
    r := [];
    var rest := s;
    while rest != {}
      invariant rest <= s
      invariant forall x :: x in r <==> x in s && x !in rest
      invariant Distinct(r)
      decreases |rest|
    {
      var x :| x in rest;
      assert x !in r;
      r := r + [x];
      rest := rest - {x};
    }
  }

  /** The loop of write: each object's to_file in turn, from offset 0 of
      the object database. */
  method CopyAll(objs: seq<PyFile>, reopen: map<seq<byte>, Stat>) returns (r: Option<seq<Placement>>)
    ensures r == Placed(objs, reopen, 0)
  {
    var ps: seq<Placement> := [];
    var pos := 0;
    var i := 0;
    assert objs[i..] == objs;
    assert Placed(objs, reopen, 0).Some? ==> ps + Placed(objs, reopen, 0).value == Placed(objs, reopen, 0).value;
    while i < |objs|
      invariant i <= |objs|
      invariant Placed(objs, reopen, 0) == Then(ps, Placed(objs[i..], reopen, pos))
    {
      assert objs[i..][0] == objs[i] && objs[i..][1..] == objs[i + 1..];
      var n := Copied(objs[i], reopen);
      if n.None? {
        assert Placed(objs[i..], reopen, pos) == None;
        return None;
      }
      var rest := Placed(objs[i + 1..], reopen, pos + n.value);
      if rest.Some? {
        assert ps + ([Placement(objs[i], pos, n.value)] + rest.value) ==
               (ps + [Placement(objs[i], pos, n.value)]) + rest.value;
      }
      ps := ps + [Placement(objs[i], pos, n.value)];
      pos := pos + n.value;
      i := i + 1;
    }
    assert objs[i..] == [] && ps + [] == ps;
    r := Some(ps);
  }

  // ---------------------------------------------------------------------
  // ObjectStore

  class ObjectStore {
    /** __obj_db: every FileObject found, by (st_dev, st_ino). */
    var db: map<(nat, nat), PyFile>

    /** Every object is filed under its own key. */
    ghost predicate Valid()
      reads this
    {
      forall k :: k in db ==> db[k].key == k
    }

    constructor()
      ensures Valid() && db == map[]
    {
      db := map[];
    }

    /** The path add looks up: PATH_404 when none or an empty one is given. */
    static function Path(path: Option<seq<byte>>): (p: seq<byte>)
      ensures p != []
      ensures path.Some? && path.value != [] ==> p == path.value
    {
      if path.None? || path.value == [] then Str("./404.html") else path.value
    }

    /** add: the object already filed under the path's (st_dev, st_ino),
        else a new one, filed and returned; None, with nothing filed, when
        os.stat raises. */
    method Add(path: Option<seq<byte>>, stat: map<seq<byte>, Stat>) returns (r: Option<PyFile>)
      requires Valid()
      modifies this
      ensures Valid()
      ensures r.Some? <==> Path(path) in stat
      ensures r.None? ==> db == old(db)
      ensures r.Some? ==> r.value.key == StatKey(stat[Path(path)]) && r.value.key in db && db[r.value.key] == r.value
      ensures r.Some? && r.value.key in old(db) ==> r.value == old(db)[r.value.key] && db == old(db)
      ensures r.Some? && r.value.key !in old(db) ==>
                r.value == PyFile(StatKey(stat[Path(path)]), Path(path), stat[Path(path)].size) &&
                db == old(db)[r.value.key := r.value]
    {
      var p := Path(path);
      var candidate := NewFile(p, stat);
      if candidate.None? {
        return None;
      }
      var key := candidate.value.key;
      if key in db {
        r := Some(db[key]);
      } else {
        db := db[key := candidate.value];
        r := candidate;
      }
    }

    /** __obj_db.values(), in some order: each object once. */
    method Objects() returns (vs: seq<PyFile>)
      requires Valid()
      ensures Distinct(vs)
      ensures forall o :: o in vs <==> o in db.Values
    {
      var ks := Elements(db.Keys);
      vs := [];
      var i := 0;
      while i < |ks|
        invariant i <= |ks|
        invariant |vs| == i && forall k :: 0 <= k < i ==> vs[k] == db[ks[k]]
      {
        vs := vs + [db[ks[i]]];
        i := i + 1;
      }
      forall a, b | 0 <= a < b < |vs|
        ensures vs[a] != vs[b]
      {
        assert vs[a].key == ks[a] && vs[b].key == ks[b];
      }
      forall o | o in db.Values
        ensures o in vs
      {
        var k :| k in db && db[k] == o;
        var j :| 0 <= j < |ks| && ks[j] == k;
        assert vs[j] == o;
      }
    }

    /** write: the objects sorted by size, then their bodies copied in
        that order to the object database from offset 0; objs is that
        order, r where each body went, or None when a copy raises. */
    method Write(reopen: map<seq<byte>, Stat>) returns (objs: seq<PyFile>, r: Option<seq<Placement>>)
      requires Valid()
      ensures Distinct(objs) && forall o :: o in objs <==> o in db.Values
      ensures SortedBy(objs, FileLe)
      ensures r == Placed(objs, reopen, 0)
    {
      var vs := Objects();
      FileOrderBySize(PyFile((0, 0), [], 0), PyFile((0, 0), [], 0));
      objs := Sort(vs, FileLe);
      DistinctPermutation(vs, objs);
      forall o
        ensures o in objs <==> o in vs
      {
        assert o in objs <==> o in multiset(objs);
        assert o in vs <==> o in multiset(vs);
      }
      r := CopyAll(objs, reopen);
    }
  }

  // ---------------------------------------------------------------------
  // NameDB

  /** One entry of the name database: the URI, its length, and the offset
      and length of its object's body in the object database. */
  datatype NameRec = NameRec(name: seq<byte>, vlen: nat, fofs: nat, flen: nat)

  /** The index of o's placement in ps. */
  method PlacementOf(ps: seq<Placement>, o: PyFile) returns (j: nat)
    requires exists k :: 0 <= k < |ps| && ps[k].obj == o
    ensures j < |ps| && ps[j].obj == o
  {
    j := 0;
    while ps[j].obj != o
      invariant j < |ps|
      invariant forall k :: 0 <= k < j ==> ps[k].obj != o
      invariant exists k :: j <= k < |ps| && ps[k].obj == o
      decreases |ps| - j
    {
      j := j + 1;
    }
  }

  /** The loop of NameDB.write: for each URI in ns, its record, with the
      placement of the object the URI names. */
  method Records(ns: seq<seq<byte>>, names: map<seq<byte>, PyFile>, ps: seq<Placement>) returns (rs: seq<NameRec>)
    requires forall n :: n in ns ==> n in names && exists k :: 0 <= k < |ps| && ps[k].obj == names[n]
    ensures |rs| == |ns|
    ensures forall k :: 0 <= k < |rs| ==>
              rs[k].name == ns[k] && rs[k].vlen == |ns[k]| && Placement(names[ns[k]], rs[k].fofs, rs[k].flen) in ps
  {
    rs := [];
    var i := 0;
    while i < |ns|
      invariant i <= |ns| && |rs| == i
      invariant forall k :: 0 <= k < i ==>
        rs[k].name == ns[k] && rs[k].vlen == |ns[k]| && Placement(names[ns[k]], rs[k].fofs, rs[k].flen) in ps
    {
      var j := PlacementOf(ps, names[ns[i]]);
      assert ps[j] == Placement(names[ns[i]], ps[j].fpos, ps[j].flen);
      rs := rs + [NameRec(ns[i], |ns[i]|, ps[j].fpos, ps[j].flen)];
      i := i + 1;
    }
  }

  class NameDB {
    /** __names: each URI's FileObject. */
    var names: map<seq<byte>, PyFile>
    /** __objects */
    const objects: ObjectStore

    /** Every URI names the very object the store files under its key. */
    ghost predicate Valid()
      reads this, objects
    {
      objects.Valid() &&
      forall n :: n in names ==> names[n].key in objects.db && objects.db[names[n].key] == names[n]
    }

    constructor()
      ensures Valid() && names == map[] && objects.db == map[] && fresh(objects)
    {
      names := map[];
      objects := new ObjectStore();
    }

    /** __setitem__: the URI key names what objects.add(val) returns; when
        add raises nothing changes. */
    method SetItem(key: seq<byte>, val: Option<seq<byte>>, stat: map<seq<byte>, Stat>) returns (ok: bool)
      requires Valid()
      modifies this, objects
      ensures Valid()
      ensures ok <==> ObjectStore.Path(val) in stat
      ensures !ok ==> names == old(names) && objects.db == old(objects.db)
      ensures ok ==> StatKey(stat[ObjectStore.Path(val)]) in objects.db &&
                     names == old(names)[key := objects.db[StatKey(stat[ObjectStore.Path(val)])]]
      ensures forall k :: k in old(objects.db) ==> k in objects.db && objects.db[k] == old(objects.db)[k]
    {
      var o := objects.Add(val, stat);
      if o.None? {
        return false;
      }
      names := names[key := o.value];
      ok := true;
    }

    /** __iter__: the URIs in foostr's order, each once. */
    method Iter() returns (ns: seq<seq<byte>>)
      ensures forall n :: n in ns <==> n in names
      ensures forall i, j :: 0 <= i < j < |ns| ==> FooLt(ns[i], ns[j])
    {
      var ks := Elements(names.Keys);
      FooLeOrder();
      ns := Sort(ks, FooLe);
      DistinctPermutation(ks, ns);
      forall n
        ensures n in ns <==> n in ks
      {
        assert n in ns <==> n in multiset(ns);
        assert n in ks <==> n in multiset(ks);
      }
      forall i, j | 0 <= i < j < |ns|
        ensures FooLt(ns[i], ns[j])
      {
        FooConsistent(ns[i], ns[j]);
      }
    }

    /** write: the object database, then one record per URI in foostr's
        order, giving where its object's body was written; recs is None
        when writing the object database raises. */
    method Write(reopen: map<seq<byte>, Stat>) returns (objs: seq<PyFile>, placed: Option<seq<Placement>>, recs: Option<seq<NameRec>>)
      requires Valid()
      ensures Distinct(objs) && (forall o :: o in objs <==> o in objects.db.Values) && SortedBy(objs, FileLe)
      ensures placed == Placed(objs, reopen, 0)
      ensures recs.Some? <==> placed.Some?
      ensures recs.Some? ==> |recs.value| == |names.Keys|
      ensures recs.Some? ==> forall n :: n in names <==> exists k :: 0 <= k < |recs.value| && recs.value[k].name == n
      ensures recs.Some? ==> forall i, j :: 0 <= i < j < |recs.value| ==> FooLt(recs.value[i].name, recs.value[j].name)
      ensures recs.Some? ==> forall k :: 0 <= k < |recs.value| ==>
                recs.value[k].name in names && recs.value[k].vlen == |recs.value[k].name| &&
                Placement(names[recs.value[k].name], recs.value[k].fofs, recs.value[k].flen) in placed.value
    {
      objs, placed := objects.Write(reopen);
      if placed.None? {
        return objs, placed, None;
      }
      PlacedContiguous(objs, reopen, 0);
      var ps := placed.value;
      var ns := Iter();
      forall n | n in ns
        ensures exists k :: 0 <= k < |ps| && ps[k].obj == names[n]
      {
        assert names[n] in objects.db.Values;
        var m :| 0 <= m < |objs| && objs[m] == names[n];
        assert ps[m].obj == names[n];
      }
      var rs := Records(ns, names, ps);
      DistinctNames(ns);
      SeqSetCard(ns, names.Keys);
      recs := Some(rs);
    }
  }

  /** A strictly ascending sequence has no repeats. */
  lemma DistinctNames(ns: seq<seq<byte>>)
    requires forall i, j :: 0 <= i < j < |ns| ==> FooLt(ns[i], ns[j])
    ensures Distinct(ns)
  {
    forall i, j | 0 <= i < j < |ns|
      ensures ns[i] != ns[j]
    {
      FooTrichotomy(ns[i], ns[j]);
    }
  }

  /** A sequence without repeats is as long as the set of its elements. */
  lemma {:induction false} SeqSetCard<T>(s: seq<T>, t: set<T>)
    requires Distinct(s) && forall x :: x in s <==> x in t
    ensures |s| == |t|
    decreases |s|
  {
    if s != [] {
      assert Distinct(s[1..]) by {
        forall i, j | 0 <= i < j < |s[1..]|
          ensures s[1..][i] != s[1..][j]
        {
          assert s[1..][i] == s[i + 1] && s[1..][j] == s[j + 1];
        }
      }
      forall x
        ensures x in s[1..] <==> x in t - {s[0]}
      {
        if x in s[1..] {
          var k :| 0 <= k < |s[1..]| && s[1..][k] == x;
          assert s[k + 1] == x;
        }
        if x in s && x != s[0] {
          var k :| 0 <= k < |s| && s[k] == x;
          assert s[1..][k - 1] == x;
        }
      }
      SeqSetCard(s[1..], t - {s[0]});
    }
  }
}
