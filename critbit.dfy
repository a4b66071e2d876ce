/** The crit-bit map of critbit.c: a binary trie over the bits of
    NUL-terminated keys. An internal node stores the index of the byte it
    tests and `otherbits`, that byte's mask with every bit set except the
    critical one; a leaf stores a key and its value slot (`void *`, here an
    Option whose None is NULL).

    The tree is modelled as an immutable datatype: an update returns the
    new root, rebuilding the nodes on the path it changes. */
module Critbit {
  import opened Bytes

  // ---------------------------------------------------------------------
  // Bits of a key

  /** The single bit j of a byte, counted from the most significant. */
  function BitMask(j: nat): bv8
    requires j < 8
  {
    if j == 0 then 0x80 else if j == 1 then 0x40 else if j == 2 then 0x20
    else if j == 3 then 0x10 else if j == 4 then 0x08 else if j == 5 then 0x04
    else if j == 6 then 0x02 else 0x01
  }

  predicate BitOf(c: bv8, j: nat)
    requires j < 8
  {
    c & BitMask(j) != 0
  }

  /** The `otherbits` value of a node whose critical bit is bit j:
      every bit set except that one. */
  function Mask(j: nat): bv8
    requires j < 8
  {
    0xFF ^ BitMask(j)
  }

  /** Which bit a mask leaves clear. */
  function MaskIndex(ob: bv8): (j: nat)
    ensures j < 8
  {
    if ob == 0x7F then 0 else if ob == 0xBF then 1 else if ob == 0xDF then 2
    else if ob == 0xEF then 3 else if ob == 0xF7 then 4 else if ob == 0xFB then 5
    else if ob == 0xFD then 6 else 7
  }

  predicate IsMask(ob: bv8)
  {
    ob == Mask(MaskIndex(ob))
  }

  /** Byte i of a C string: past the end it reads the terminating NUL. */
  function KeyByte(k: seq<bv8>, i: nat): bv8
  {
    if i < |k| then k[i] else 0
  }

  /** A C string: no NUL byte before the terminator. */
  predicate CString(k: seq<bv8>)
  {
    forall i :: 0 <= i < |k| ==> k[i] != 0
  }

  /** Bit p of a key, numbering the bits of byte i as 8*i .. 8*i+7 from
      the most significant. */
  predicate KeyBit(k: seq<bv8>, p: nat)
  {
    BitOf(KeyByte(k, p / 8), p % 8)
  }

  /** The position of the bit a node with these fields tests. */
  function Pos(b: nat, ob: bv8): nat
  {
    8 * b + MaskIndex(ob)
  }

  /** The keys agree on every bit before position p. */
  predicate Agree(k1: seq<bv8>, k2: seq<bv8>, p: nat)
  {
    forall r :: 0 <= r < p ==> KeyBit(k1, r) == KeyBit(k2, r)
  }

  /** The direction formula of critbit.c, `(1 + (otherbits | c)) >> 8`:
      1 exactly when c has the bit that `otherbits` leaves clear. */
  function Dir(c: bv8, ob: bv8): (d: int)
    ensures d == 0 || d == 1
  {
    (1 + ((ob | c) as int)) / 256
  }

  lemma DirBit(c: bv8, j: nat)
    requires j < 8
    ensures Dir(c, Mask(j)) == if BitOf(c, j) then 1 else 0
  {
  }

  /** For a well-formed mask, the direction a key takes at a node is the
      key's bit at the node's position. */
  lemma DirIsBit(k: seq<bv8>, b: nat, ob: bv8)
    requires IsMask(ob)
    ensures Dir(KeyByte(k, b), ob) == 1 <==> KeyBit(k, Pos(b, ob))
  {
    var j := MaskIndex(ob);
    DirBit(KeyByte(k, b), j);
    assert Pos(b, ob) / 8 == b && Pos(b, ob) % 8 == j;
  }

  /** The index of the most significant set bit of a non-zero byte. */
  function HighBit(x: bv8): (j: nat)
    ensures j < 8
  {
    if x & 0x80 != 0 then 0
    else if x & 0x40 != 0 then 1
    else if x & 0x20 != 0 then 2
    else if x & 0x10 != 0 then 3
    else if x & 0x08 != 0 then 4
    else if x & 0x04 != 0 then 5
    else if x & 0x02 != 0 then 6
    else 7
  }

  /** The `newotherbits` computation of cb_insert: smear the difference
      to the right, keep its top bit, and invert. */
  function CritMask(x: bv8): bv8
  {
    var x1 := x | (x >> 1);
    var x2 := x1 | (x1 >> 2);
    var x3 := x2 | (x2 >> 4);
    (x3 & !(x3 >> 1)) ^ 255
  }

  /** A new internal node's otherbits is 255 with exactly the highest
      differing bit cleared. */
  lemma CritMaskHigh(x: bv8)
    requires x != 0
    ensures CritMask(x) == Mask(HighBit(x))
    ensures MaskIndex(CritMask(x)) == HighBit(x)
  {
  }

  /** A byte read through a signed plain char and widened to 32 bits. */
  function SignExtend(b: bv8): (w: bv32)
    ensures w & 0xFF == b as bv32
  {
    if b < 0x80 then b as bv32 else b as bv32 | 0xFFFF_FF00
  }

  /** The new node's direction as cb_insert computes it where plain char
      is signed: kb is the best match's byte at the critical position and
      ub the key's (0 once the key has ended). Both are read as signed
      chars, so their xor is sign-extended into the 32-bit newotherbits,
      and the smear, the mask and the direction work on all 32 bits. Below
      0x80 it agrees with the byte-wide direction. */
  function SignedCritDir(kb: bv8, ub: bv8): (d: bv32)
    ensures kb < 0x80 && ub < 0x80 && kb != ub ==> d as int == Dir(kb, CritMask(kb ^ ub))
  {
    var x := SignExtend(kb) ^ SignExtend(ub);
    var x1 := x | (x >> 1);
    var x2 := x1 | (x1 >> 2);
    var x3 := x2 | (x2 >> 4);
    var ob := (x3 & !(x3 >> 1)) ^ 255;
    (1 + (ob | kb as bv32)) >> 8
  }

  /** Where plain char is signed, keys that differ first at a byte where
      exactly one of them is 0x80 or above give the new node a direction of
      0x800001, far outside its two children. */
  lemma SignedDirOutOfRange(kb: bv8, ub: bv8)
    requires (kb < 0x80) != (ub < 0x80)
    ensures SignedCritDir(kb, ub) == 0x80_0001
    ensures SignedCritDir(0x80, 0x00) == 0x80_0001
  {
  }

  lemma XorOneHot(a: bv8, b: bv8, m: bv8)
    requires m & (m - 1) == 0
    ensures ((a ^ b) & m != 0) == ((a & m != 0) != (b & m != 0))
  {
  }

  lemma XorBit(a: bv8, b: bv8, j: nat)
    requires j < 8
    ensures BitOf(a ^ b, j) <==> BitOf(a, j) != BitOf(b, j)
  {
    XorOneHot(a, b, BitMask(j));
  }

  lemma HighBitIs(x: bv8, j: nat)
    requires x != 0 && j <= HighBit(x)
    ensures j < HighBit(x) ==> !BitOf(x, j)
    ensures j == HighBit(x) ==> BitOf(x, j)
  {
  }

  /** Two different bytes agree above the highest bit of their xor and
      differ at it. */
  lemma HighBitSplits(a: bv8, b: bv8, j: nat)
    requires a != b && j <= HighBit(a ^ b)
    ensures j < HighBit(a ^ b) ==> BitOf(a, j) == BitOf(b, j)
    ensures j == HighBit(a ^ b) ==> BitOf(a, j) != BitOf(b, j)
  {
    XorBit(a, b, j);
    HighBitIs(a ^ b, j);
  }

  /** Bit positions order like the (byte, otherbits) pairs cb_insert compares. */
  lemma PosOrder(b: nat, ob: bv8, nb: nat, nob: bv8)
    requires IsMask(ob) && IsMask(nob)
    ensures (b > nb || (b == nb && ob > nob)) <==> Pos(b, ob) > Pos(nb, nob)
    ensures (b == nb && ob == nob) <==> Pos(b, ob) == Pos(nb, nob)
  {
  }

  // ---------------------------------------------------------------------
  // Trees

  /** A node of the tree (`struct _cb_node`); `byte` is the uint32 index
      of the tested byte. */
  datatype Node<V> =
    | Leaf(key: seq<bv8>, val: Option<V>)
    | Internal(byte: nat, otherbits: bv8, child0: Node<V>, child1: Node<V>)

  /** The child a key at node n moves to. */
  function Direction<V>(n: Node<V>, u: seq<bv8>): int
    requires n.Internal?
  {
    Dir(KeyByte(u, n.byte), n.otherbits)
  }

  function Child<V>(n: Node<V>, d: int): Node<V>
    requires n.Internal?
  {
    if d == 0 then n.child0 else n.child1
  }

  function Keys<V>(n: Node<V>): (r: set<seq<bv8>>)
    ensures r == Contents(n).Keys
  {
    match n
    case Leaf(k, _) => {k}
    case Internal(_, _, c0, c1) => Keys(c0) + Keys(c1)
  }

  /** The map a tree stands for. */
  function Contents<V>(n: Node<V>): map<seq<bv8>, Option<V>>
  {
    match n
    case Leaf(k, v) => map[k := v]
    case Internal(_, _, c0, c1) => Contents(c0) + Contents(c1)
  }

  /** The map of a root pointer; NULL is the empty map. */
  function ContentsOf<V>(root: Option<Node<V>>): map<seq<bv8>, Option<V>>
  {
    if root.None? then map[] else Contents(root.value)
  }

  /** Keys on the 0 side of a node have its bit clear, on the 1 side set. */
  predicate Splits<V>(n: Node<V>)
    requires n.Internal?
  {
    (forall k :: k in Keys(n.child0) ==> !KeyBit(k, Pos(n.byte, n.otherbits))) &&
    (forall k :: k in Keys(n.child1) ==> KeyBit(k, Pos(n.byte, n.otherbits)))
  }

  /** All keys below a node agree on every bit before its position. */
  predicate Shares<V>(n: Node<V>)
    requires n.Internal?
  {
    forall k1, k2 :: k1 in Keys(n) && k2 in Keys(n) ==> Agree(k1, k2, Pos(n.byte, n.otherbits))
  }

  /** The crit-bit tree invariant: keys are C strings, masks clear one
      bit, every node splits its keys by its bit, and its keys share every
      bit before that position. */
  predicate Valid<V>(n: Node<V>)
  {
    match n
    case Leaf(k, _) => CString(k)
    case Internal(_, ob, c0, c1) =>
      IsMask(ob) && Valid(c0) && Valid(c1) && Splits(n) && Shares(n)
  }

  predicate ValidRoot<V>(root: Option<Node<V>>)
  {
    root.Some? ==> Valid(root.value)
  }

  lemma SplitDisjoint<V>(n: Node<V>)
    requires n.Internal? && Splits(n)
    ensures Keys(n.child0) !! Keys(n.child1)
  {
  }

  lemma {:induction false} ValidKeysTerminated<V>(n: Node<V>, k: seq<bv8>)
    requires Valid(n) && k in Keys(n)
    ensures CString(k)
  {
    if n.Internal? {
      if k in Keys(n.child0) {
        ValidKeysTerminated(n.child0, k);
      } else {
        ValidKeysTerminated(n.child1, k);
      }
    }
  }

  // ---------------------------------------------------------------------
  // cb_contains

  /** The leaf the descent loop of cb_contains, cb_insert and cb_delete
      reaches: at each node, follow the key's direction. */
  function BestMatch<V>(n: Node<V>, u: seq<bv8>): (r: Node<V>)
    ensures r.Leaf?
  {
    match n
    case Leaf(_, _) => n
    case Internal(_, _, c0, c1) =>
      if Direction(n, u) == 0 then BestMatch(c0, u) else BestMatch(c1, u)
  }

  lemma {:induction false} BestMatchIn<V>(n: Node<V>, u: seq<bv8>)
    ensures BestMatch(n, u).key in Keys(n)
  {
    if n.Internal? {
      BestMatchIn(Child(n, Direction(n, u)), u);
    }
  }

  /** In a valid tree the descent for a stored key ends at that key's leaf. */
  lemma {:induction false} FindsPresent<V>(n: Node<V>, u: seq<bv8>)
    requires Valid(n) && u in Keys(n)
    ensures BestMatch(n, u).key == u
    ensures BestMatch(n, u).val == Contents(n)[u]
  {
    if n.Internal? {
      DirIsBit(u, n.byte, n.otherbits);
      SplitDisjoint(n);
      if u in Keys(n.child0) {
        FindsPresent(n.child0, u);
      } else {
        FindsPresent(n.child1, u);
      }
    }
  }

  /** cb_contains: descend to the best match and compare whole keys. */
  method Contains<V>(root: Option<Node<V>>, u: seq<bv8>) returns (found: bool, val: Option<V>)
    requires CString(u)
    ensures ValidRoot(root) ==> (found <==> u in ContentsOf(root))
    ensures ValidRoot(root) && found ==> val == ContentsOf(root)[u]
    ensures root.None? ==> !found
  {
    if root.None? {
      return false, None;
    }
    var q := root.value;
    while q.Internal?
      invariant BestMatch(q, u) == BestMatch(root.value, u)
      decreases q
    {
      q := Child(q, Direction(q, u));
    }
    found := q.key == u;
    val := if found then q.val else None;
    if ValidRoot(root) {
      if u in Keys(root.value) {
        FindsPresent(root.value, u);
      } else {
        BestMatchIn(root.value, u);
      }
    }
  }

  // ---------------------------------------------------------------------
  // cb_insert

  /** The loops of cb_insert that look for the first byte where the best
      match q differs from u: bytes 0 .. |u|-1, then q's byte at |u|
      against u's terminator. None means q == u. */
  function DiffFrom(q: seq<bv8>, u: seq<bv8>, i: nat): (r: Option<nat>)
    requires i <= |u|
    ensures r.Some? ==> i <= r.value <= |u|
    decreases |u| - i
  {
    if i == |u| then (if KeyByte(q, i) != 0 then Some(i) else None)
    else if KeyByte(q, i) != u[i] then Some(i)
    else DiffFrom(q, u, i + 1)
  }

  lemma {:induction false} DiffFromIs(q: seq<bv8>, u: seq<bv8>, i: nat)
    requires CString(q) && CString(u) && i <= |u|
    requires forall m :: 0 <= m < i ==> KeyByte(q, m) == KeyByte(u, m)
    ensures DiffFrom(q, u, i).None? <==> q == u
    ensures DiffFrom(q, u, i).Some? ==>
      var nb := DiffFrom(q, u, i).value;
      KeyByte(q, nb) != KeyByte(u, nb) && forall m :: 0 <= m < nb ==> KeyByte(q, m) == KeyByte(u, m)
    decreases |u| - i
  {
    if i == |u| {
      if KeyByte(q, i) == 0 {
        assert |q| <= i && KeyByte(q, |q|) == 0;
        if |q| < |u| {
          assert false;
        }
        assert forall m :: 0 <= m < |q| ==> q[m] == KeyByte(q, m) == KeyByte(u, m) == u[m];
      } else {
        assert q != u;
      }
    } else if KeyByte(q, i) != u[i] {
      assert KeyByte(q, i) != KeyByte(u, i);
    } else {
      DiffFromIs(q, u, i + 1);
    }
  }

  /** The critical bit cb_insert finds for q and u: the first bit where
      they differ. The keys agree before it, and its node's direction
      formula reads q's bit there. */
  lemma CritBit(q: seq<bv8>, u: seq<bv8>, nb: nat, x: bv8)
    requires KeyByte(q, nb) != KeyByte(u, nb) && x == KeyByte(q, nb) ^ KeyByte(u, nb)
    requires forall m :: 0 <= m < nb ==> KeyByte(q, m) == KeyByte(u, m)
    ensures x != 0 && IsMask(CritMask(x))
    ensures Agree(q, u, Pos(nb, CritMask(x)))
    ensures KeyBit(q, Pos(nb, CritMask(x))) != KeyBit(u, Pos(nb, CritMask(x)))
  {
    CritMaskHigh(x);
    var p := Pos(nb, CritMask(x));
    assert p == 8 * nb + HighBit(x);
    forall r | 0 <= r < p
      ensures KeyBit(q, r) == KeyBit(u, r)
    {
      CritBitAt(q, u, nb, x, r);
    }
    CritBitAt(q, u, nb, x, p);
  }

  lemma CritBitAt(q: seq<bv8>, u: seq<bv8>, nb: nat, x: bv8, r: nat)
    requires KeyByte(q, nb) != KeyByte(u, nb) && x == KeyByte(q, nb) ^ KeyByte(u, nb)
    requires forall m :: 0 <= m < nb ==> KeyByte(q, m) == KeyByte(u, m)
    requires r <= 8 * nb + HighBit(x)
    ensures r < 8 * nb + HighBit(x) ==> KeyBit(q, r) == KeyBit(u, r)
    ensures r == 8 * nb + HighBit(x) ==> KeyBit(q, r) != KeyBit(u, r)
  {
    if r / 8 < nb {
      SameByteSameBit(q, u, r);
    } else {
      CritByteBit(q, u, nb, x, r);
    }
  }

  lemma CritByteBit(q: seq<bv8>, u: seq<bv8>, nb: nat, x: bv8, r: nat)
    requires KeyByte(q, nb) != KeyByte(u, nb) && x == KeyByte(q, nb) ^ KeyByte(u, nb)
    requires r / 8 == nb && r <= 8 * nb + HighBit(x)
    ensures r < 8 * nb + HighBit(x) ==> KeyBit(q, r) == KeyBit(u, r)
    ensures r == 8 * nb + HighBit(x) ==> KeyBit(q, r) != KeyBit(u, r)
  {
    HighBitSplits(KeyByte(q, nb), KeyByte(u, nb), r % 8);
  }

  lemma SameByteSameBit(q: seq<bv8>, u: seq<bv8>, r: nat)
    requires KeyByte(q, r / 8) == KeyByte(u, r / 8)
    ensures KeyBit(q, r) == KeyBit(u, r)
  {
  }

  /** The result of cb_insert: its return code and the new root. On
      codes 1 and 2 the value slot it hands back is the one of the leaf
      whose key is u. */
  datatype Inserted<V> = Inserted(code: int, root: Option<Node<V>>)

  /** The wherep loop and the relinking of cb_insert: descend along u
      while nodes test bits before (nb, nob), then put a new node there
      whose `ndir` child is the old subtree and whose other child is a
      new leaf for u with a NULL value. */
  function Graft<V>(n: Node<V>, u: seq<bv8>, nb: nat, nob: bv8, ndir: int): Node<V>
  {
    if n.Leaf? || n.byte > nb || (n.byte == nb && n.otherbits > nob) then Spliced(n, u, nb, nob, ndir)
    else if Direction(n, u) == 0 then n.(child0 := Graft(n.child0, u, nb, nob, ndir))
    else n.(child1 := Graft(n.child1, u, nb, nob, ndir))
  }

  /** The new node: its `ndir` child is the old subtree n, the other a
      leaf for u with a NULL value. */
  function Spliced<V>(n: Node<V>, u: seq<bv8>, nb: nat, nob: bv8, ndir: int): Node<V>
  {
    if ndir == 1 then Internal(nb, nob, Leaf(u, None), n)
    else Internal(nb, nob, n, Leaf(u, None))
  }

  /** cb_insert; `alloc` says whether malloc and strdup succeed. */
  function Insert<V>(root: Option<Node<V>>, u: seq<bv8>, alloc: bool): Inserted<V>
    requires CString(u)
  {
    if root.None? then
      if alloc then Inserted(2, Some(Leaf(u, None))) else Inserted(0, root)
    else
      var q := BestMatch(root.value, u).key;
      match DiffFrom(q, u, 0)
      case None => Inserted(1, root)
      case Some(nb) =>
        var nob := CritMask(KeyByte(q, nb) ^ KeyByte(u, nb));
        var ndir := Dir(KeyByte(q, nb), nob);
        if alloc then Inserted(2, Some(Graft(root.value, u, nb, nob, ndir)))
        else Inserted(0, root)
  }

  /** The keys shared by a subtree agree with u up to p, and with q
      beyond: the context in which Graft is applied. */
  predicate GraftContext<V>(n: Node<V>, u: seq<bv8>, q: seq<bv8>, p: nat)
  {
    BestMatch(n, u).key == q && Agree(q, u, p) && KeyBit(q, p) != KeyBit(u, p)
  }

  lemma AgreeJoin(k1: seq<bv8>, k2: seq<bv8>, q: seq<bv8>, p: nat)
    requires Agree(k1, q, p) && Agree(k2, q, p)
    ensures Agree(k1, k2, p)
  {
  }

  /** Agreement is transitive up to the smaller position. */
  lemma AgreeVia(k: seq<bv8>, q: seq<bv8>, u: seq<bv8>, a: nat, p: nat)
    requires Agree(k, q, a) && Agree(q, u, p) && a <= p
    ensures Agree(k, u, a)
  {
  }

  /** The node Graft creates is valid: the old subtree keeps q's bit at
      the new position, u takes the other side, and all agree before it. */
  lemma {:induction false} GraftHere<V>(n: Node<V>, u: seq<bv8>, q: seq<bv8>, nb: nat, nob: bv8, ndir: int)
    requires Valid(n) && CString(u) && IsMask(nob)
    requires GraftContext(n, u, q, Pos(nb, nob))
    requires n.Internal? ==> Pos(n.byte, n.otherbits) > Pos(nb, nob)
    requires ndir == (if KeyBit(q, Pos(nb, nob)) then 1 else 0)
    ensures Valid(Spliced(n, u, nb, nob, ndir))
    ensures Keys(Spliced(n, u, nb, nob, ndir)) == Keys(n) + {u}
  {
    var p := Pos(nb, nob);
    BestMatchIn(n, u);
    var leaf: Node<V> := Leaf(u, None);
    var g := if ndir == 1 then Internal(nb, nob, leaf, n) else Internal(nb, nob, n, leaf);
    forall k | k in Keys(n)
      ensures Agree(k, q, p) && KeyBit(k, p) == KeyBit(q, p)
    {
      if n.Internal? {
        assert Agree(k, q, Pos(n.byte, n.otherbits));
      }
    }
    forall k1, k2 | k1 in Keys(g) && k2 in Keys(g)
      ensures Agree(k1, k2, p)
    {
      if k1 in Keys(n) && k2 in Keys(n) {
        AgreeJoin(k1, k2, q, p);
      } else if k1 in Keys(n) {
        AgreeVia(k1, q, u, p, p);
      } else if k2 in Keys(n) {
        AgreeVia(k2, q, u, p, p);
      }
    }
    assert Splits(g);
  }

  /** One step of the descent: a node the wherep loop passes tests a bit
      strictly before the critical one, since q sits on u's side of it. */
  lemma PassedBefore<V>(n: Node<V>, u: seq<bv8>, q: seq<bv8>, nb: nat, nob: bv8)
    requires n.Internal? && Valid(n) && IsMask(nob)
    requires GraftContext(n, u, q, Pos(nb, nob))
    requires !(n.byte > nb || (n.byte == nb && n.otherbits > nob))
    ensures Pos(n.byte, n.otherbits) < Pos(nb, nob)
    ensures GraftContext(Child(n, Direction(n, u)), u, q, Pos(nb, nob))
  {
    PosOrder(n.byte, n.otherbits, nb, nob);
    var c := Child(n, Direction(n, u));
    BestMatchIn(c, u);
    DirIsBit(u, n.byte, n.otherbits);
  }

  /** Re-validate a node after one child grew by u, with u on the side
      its bit selects and agreeing with q before the node's position. */
  lemma RelinkValid<V>(n: Node<V>, n': Node<V>, u: seq<bv8>, q: seq<bv8>)
    requires n.Internal? && Valid(n) && n'.Internal?
    requires n'.byte == n.byte && n'.otherbits == n.otherbits
    requires Valid(n'.child0) && Valid(n'.child1)
    requires q in Keys(n) && Agree(q, u, Pos(n.byte, n.otherbits))
    requires var d := Direction(n, u);
      Keys(Child(n', d)) == Keys(Child(n, d)) + {u} && Child(n', 1 - d) == Child(n, 1 - d)
    ensures Valid(n') && Keys(n') == Keys(n) + {u}
  {
    RelinkSplits(n, n', u);
    RelinkShares(n, n', u, q);
  }

  lemma RelinkSplits<V>(n: Node<V>, n': Node<V>, u: seq<bv8>)
    requires n.Internal? && IsMask(n.otherbits) && Splits(n) && n'.Internal?
    requires n'.byte == n.byte && n'.otherbits == n.otherbits
    requires var d := Direction(n, u);
      Keys(Child(n', d)) == Keys(Child(n, d)) + {u} && Child(n', 1 - d) == Child(n, 1 - d)
    ensures Splits(n') && Keys(n') == Keys(n) + {u}
  {
    DirIsBit(u, n.byte, n.otherbits);
  }

  lemma RelinkShares<V>(n: Node<V>, n': Node<V>, u: seq<bv8>, q: seq<bv8>)
    requires n.Internal? && Shares(n) && n'.Internal?
    requires n'.byte == n.byte && n'.otherbits == n.otherbits
    requires Keys(n') == Keys(n) + {u}
    requires q in Keys(n) && Agree(q, u, Pos(n.byte, n.otherbits))
    ensures Shares(n')
  {
    var p := Pos(n.byte, n.otherbits);
    forall k1, k2 | k1 in Keys(n') && k2 in Keys(n')
      ensures Agree(k1, k2, p)
    {
      if k1 in Keys(n) && k2 in Keys(n) {
      } else if k1 in Keys(n) {
        AgreeVia(k1, q, u, p, p);
      } else if k2 in Keys(n) {
        AgreeVia(k2, q, u, p, p);
      }
    }
  }

  /** Graft keeps the tree valid and adds exactly u to its keys. */
  lemma {:induction false} GraftValid<V>(n: Node<V>, u: seq<bv8>, q: seq<bv8>, nb: nat, nob: bv8, ndir: int)
    requires Valid(n) && CString(u) && IsMask(nob)
    requires GraftContext(n, u, q, Pos(nb, nob))
    requires ndir == (if KeyBit(q, Pos(nb, nob)) then 1 else 0)
    ensures Valid(Graft(n, u, nb, nob, ndir))
    ensures Keys(Graft(n, u, nb, nob, ndir)) == Keys(n) + {u}
    decreases n
  {
    if n.Leaf? || n.byte > nb || (n.byte == nb && n.otherbits > nob) {
      if n.Internal? {
        PosOrder(n.byte, n.otherbits, nb, nob);
      }
      GraftHere(n, u, q, nb, nob, ndir);
      assert Graft(n, u, nb, nob, ndir) == Spliced(n, u, nb, nob, ndir);
    } else {
      PassedBefore(n, u, q, nb, nob);
      var c := Child(n, Direction(n, u));
      GraftValid(c, u, q, nb, nob, ndir);
      GraftDescend(n, u, q, nb, nob, ndir);
    }
  }

  /** A node the wherep loop passes: re-validate it around its grafted child. */
  lemma GraftDescend<V>(n: Node<V>, u: seq<bv8>, q: seq<bv8>, nb: nat, nob: bv8, ndir: int)
    requires n.Internal? && Valid(n)
    requires !(n.byte > nb || (n.byte == nb && n.otherbits > nob))
    requires Pos(n.byte, n.otherbits) < Pos(nb, nob)
    requires GraftContext(n, u, q, Pos(nb, nob))
    requires var c := Child(n, Direction(n, u));
      Valid(Graft(c, u, nb, nob, ndir)) && Keys(Graft(c, u, nb, nob, ndir)) == Keys(c) + {u}
    ensures Valid(Graft(n, u, nb, nob, ndir))
    ensures Keys(Graft(n, u, nb, nob, ndir)) == Keys(n) + {u}
  {
    BestMatchIn(n, u);
    AgreeVia(q, q, u, Pos(n.byte, n.otherbits), Pos(nb, nob));
    var c := Child(n, Direction(n, u));
    var n' := if Direction(n, u) == 0 then n.(child0 := Graft(c, u, nb, nob, ndir))
              else n.(child1 := Graft(c, u, nb, nob, ndir));
    assert Graft(n, u, nb, nob, ndir) == n';
    RelinkValid(n, n', u, q);
  }

  lemma UpdateLeft<K, T>(a: map<K, T>, b: map<K, T>, u: K, v: T)
    requires u !in b
    ensures a[u := v] + b == (a + b)[u := v]
  {
  }

  lemma UpdateRight<K, T>(a: map<K, T>, b: map<K, T>, u: K, v: T)
    ensures a + b[u := v] == (a + b)[u := v]
  {
  }

  lemma SingleLeft<K, T>(b: map<K, T>, u: K, v: T)
    requires u !in b
    ensures map[u := v] + b == b[u := v]
  {
  }

  lemma SingleRight<K, T>(a: map<K, T>, u: K, v: T)
    ensures a + map[u := v] == a[u := v]
  {
  }

  /** Graft adds u with a NULL value and keeps every other entry. */
  lemma {:induction false} GraftContents<V>(n: Node<V>, u: seq<bv8>, nb: nat, nob: bv8, ndir: int)
    requires u !in Keys(n)
    ensures Contents(Graft(n, u, nb, nob, ndir)) == Contents(n)[u := None]
    decreases n
  {
    var g := Graft(n, u, nb, nob, ndir);
    var leaf: Node<V> := Leaf(u, None);
    if n.Leaf? || n.byte > nb || (n.byte == nb && n.otherbits > nob) {
      if ndir == 1 {
        assert g == Internal(nb, nob, leaf, n);
        SingleLeft(Contents(n), u, None);
      } else {
        assert g == Internal(nb, nob, n, leaf);
        SingleRight(Contents(n), u, None);
      }
    } else if Direction(n, u) == 0 {
      var c := Graft(n.child0, u, nb, nob, ndir);
      assert g == n.(child0 := c);
      GraftContents(n.child0, u, nb, nob, ndir);
      UpdateLeft(Contents(n.child0), Contents(n.child1), u, None);
    } else {
      var c := Graft(n.child1, u, nb, nob, ndir);
      assert g == n.(child1 := c);
      GraftContents(n.child1, u, nb, nob, ndir);
      UpdateRight(Contents(n.child0), Contents(n.child1), u, None);
    }
  }

  /** cb_insert: into an empty tree it makes one leaf with a NULL value
      and returns 2; for a present key it returns 1 and changes nothing;
      for a new key it returns 2, the key maps to NULL and every other
      entry is kept; on allocation failure it returns 0 and changes
      nothing. The tree stays valid. */
  lemma InsertCorrect<V>(root: Option<Node<V>>, u: seq<bv8>, alloc: bool)
    requires ValidRoot(root) && CString(u)
    ensures var r := Insert(root, u, alloc);
      ValidRoot(r.root) &&
      (r.code == 0 <==> !alloc && u !in ContentsOf(root)) &&
      (r.code == 1 <==> u in ContentsOf(root)) &&
      (r.code != 2 ==> r.root == root) &&
      (r.code == 2 ==> r.root.Some? && ContentsOf(r.root) == ContentsOf(root)[u := None]) &&
      (root.None? && r.code == 2 ==> r.root == Some(Leaf(u, None)))
  {
    if root.Some? {
      var n := root.value;
      var q := BestMatch(n, u).key;
      BestMatchIn(n, u);
      ValidKeysTerminated(n, q);
      DiffFromIs(q, u, 0);
      if u in Keys(n) {
        FindsPresent(n, u);
      } else {
        var nb := DiffFrom(q, u, 0).value;
        var nob := CritMask(KeyByte(q, nb) ^ KeyByte(u, nb));
        CritBit(q, u, nb, KeyByte(q, nb) ^ KeyByte(u, nb));
        var ndir := Dir(KeyByte(q, nb), nob);
        DirIsBit(q, nb, nob);
        GraftValid(n, u, q, nb, nob, ndir);
        GraftContents(n, u, nb, nob, ndir);
      }
    }
  }

  /** Writing through the value slot cb_insert hands back: the leaf of
      u gets value v. */
  function Assign<V>(n: Node<V>, u: seq<bv8>, v: Option<V>): Node<V>
  {
    match n
    case Leaf(k, _) => Leaf(k, v)
    case Internal(_, _, c0, c1) =>
      if Direction(n, u) == 0 then n.(child0 := Assign(c0, u, v))
      else n.(child1 := Assign(c1, u, v))
  }

  /** Assigning a present key's slot changes that entry only. */
  lemma {:induction false} AssignCorrect<V>(n: Node<V>, u: seq<bv8>, v: Option<V>)
    requires Valid(n) && u in Keys(n)
    ensures Valid(Assign(n, u, v)) && Keys(Assign(n, u, v)) == Keys(n)
    ensures Contents(Assign(n, u, v)) == Contents(n)[u := v]
  {
    if n.Internal? {
      DirIsBit(u, n.byte, n.otherbits);
      SplitDisjoint(n);
      if Direction(n, u) == 0 {
        assert u in Keys(n.child0);
        var c := Assign(n.child0, u, v);
        AssignCorrect(n.child0, u, v);
        var n' := n.(child0 := c);
        assert Assign(n, u, v) == n';
        ShrinkValid(n, n');
        UpdateLeft(Contents(n.child0), Contents(n.child1), u, v);
      } else {
        assert u in Keys(n.child1);
        var c := Assign(n.child1, u, v);
        AssignCorrect(n.child1, u, v);
        var n' := n.(child1 := c);
        assert Assign(n, u, v) == n';
        ShrinkValid(n, n');
        UpdateRight(Contents(n.child0), Contents(n.child1), u, v);
      }
    }
  }

  // ---------------------------------------------------------------------
  // cb_delete

  /** The relinking of cb_delete: the leaf the descent reaches goes, and
      its parent is replaced by the leaf's sibling. None is an empty tree. */
  function Remove<V>(n: Node<V>, u: seq<bv8>): Option<Node<V>>
  {
    match n
    case Leaf(_, _) => None
    case Internal(_, _, c0, c1) =>
      var d := Direction(n, u);
      match Remove(Child(n, d), u)
      case None => Some(Child(n, 1 - d))
      case Some(c') => Some(if d == 0 then n.(child0 := c') else n.(child1 := c'))
  }

  /** The result of cb_delete: the code, the value handed back through
      ppv (None when nothing is written), and the new root. */
  datatype Deleted<V> = Deleted(code: int, val: Option<V>, root: Option<Node<V>>)

  /** cb_delete. */
  function Delete<V>(root: Option<Node<V>>, u: seq<bv8>): Deleted<V>
  {
    if root.None? then Deleted(0, None, root)
    else
      var p := BestMatch(root.value, u);
      if p.key != u then Deleted(0, None, root)
      else Deleted(1, p.val, Remove(root.value, u))
  }

  /** A subtree shrunk to some of its keys keeps a node valid. */
  lemma ShrinkValid<V>(n: Node<V>, n': Node<V>)
    requires n.Internal? && Valid(n) && n'.Internal?
    requires n'.byte == n.byte && n'.otherbits == n.otherbits
    requires Valid(n'.child0) && Valid(n'.child1)
    requires Keys(n'.child0) <= Keys(n.child0) && Keys(n'.child1) <= Keys(n.child1)
    ensures Valid(n')
  {
    assert Keys(n') <= Keys(n);
  }

  lemma RemoveLeft<K, T>(a: map<K, T>, b: map<K, T>, u: K)
    requires u !in b
    ensures (a - {u}) + b == (a + b) - {u}
  {
  }

  lemma RemoveRight<K, T>(a: map<K, T>, b: map<K, T>, u: K)
    requires u !in a
    ensures a + (b - {u}) == (a + b) - {u}
  {
  }

  /** Removing the leaf of a present key u deletes u's entry only. */
  lemma {:induction false} RemoveCorrect<V>(n: Node<V>, u: seq<bv8>)
    requires Valid(n) && BestMatch(n, u).key == u
    ensures Remove(n, u).None? <==> n.Leaf?
    ensures Remove(n, u).Some? ==>
      Valid(Remove(n, u).value) && Contents(Remove(n, u).value) == Contents(n) - {u}
  {
    if n.Internal? {
      var d := Direction(n, u);
      var c := Child(n, d);
      assert BestMatch(c, u) == BestMatch(n, u);
      RemoveCorrect(c, u);
      BestMatchIn(c, u);
      SplitDisjoint(n);
      match Remove(c, u)
      case None =>
        assert c == Leaf(u, c.val);
        if d == 0 {
          assert Remove(n, u) == Some(n.child1);
          RemoveLeft(Contents(n.child0), Contents(n.child1), u);
          assert Contents(n.child0) - {u} == map[];
        } else {
          assert Remove(n, u) == Some(n.child0);
          RemoveRight(Contents(n.child0), Contents(n.child1), u);
          assert Contents(n.child1) - {u} == map[];
        }
      case Some(c') =>
        if d == 0 {
          var n' := n.(child0 := c');
          assert Remove(n, u) == Some(n');
          ShrinkValid(n, n');
          RemoveLeft(Contents(n.child0), Contents(n.child1), u);
        } else {
          var n' := n.(child1 := c');
          assert Remove(n, u) == Some(n');
          ShrinkValid(n, n');
          RemoveRight(Contents(n.child0), Contents(n.child1), u);
        }
    }
  }

  /** cb_delete: an absent key gives 0 and no change; a present key gives
      1, hands back its value and removes that entry only. */
  lemma DeleteCorrect<V>(root: Option<Node<V>>, u: seq<bv8>)
    requires ValidRoot(root)
    ensures var r := Delete(root, u);
      ValidRoot(r.root) &&
      (r.code == 1 <==> u in ContentsOf(root)) &&
      (r.code == 0 ==> r.root == root) &&
      (r.code == 1 ==> r.val == ContentsOf(root)[u] && ContentsOf(r.root) == ContentsOf(root) - {u})
  {
    if root.Some? {
      var n := root.value;
      BestMatchIn(n, u);
      if u in Keys(n) {
        FindsPresent(n, u);
        RemoveCorrect(n, u);
        if n.Leaf? {
          assert Contents(n) - {u} == map[];
        }
      }
    }
  }

  // ---------------------------------------------------------------------
  // cb_free

  /** The values traverse hands to the callback: depth first, child 0
      before child 1. */
  function Values<V>(n: Node<V>): seq<Option<V>>
  {
    match n
    case Leaf(_, v) => [v]
    case Internal(_, _, c0, c1) => Values(c0) + Values(c1)
  }

  /** The keys of the leaves in the same order. */
  function LeafKeys<V>(n: Node<V>): seq<seq<bv8>>
  {
    match n
    case Leaf(k, _) => [k]
    case Internal(_, _, c0, c1) => LeafKeys(c0) + LeafKeys(c1)
  }

  /** cb_free: the callback runs once per leaf (when there is one), and
      the root becomes NULL. */
  function Free<V>(root: Option<Node<V>>, hasCallback: bool): (calls: seq<Option<V>>)
  {
    if root.None? || !hasCallback then [] else Values(root.value)
  }

  /** In a valid tree the traversal meets every key exactly once, and the
      i-th callback receives the value stored under the i-th key. */
  lemma TraverseOnce<V>(n: Node<V>)
    requires Valid(n)
    ensures |Values(n)| == |LeafKeys(n)|
    ensures forall i, j :: 0 <= i < j < |LeafKeys(n)| ==> LeafKeys(n)[i] != LeafKeys(n)[j]
    ensures forall k :: k in Keys(n) <==> k in LeafKeys(n)
    ensures forall i :: 0 <= i < |LeafKeys(n)| ==> Values(n)[i] == Contents(n)[LeafKeys(n)[i]]
  {
    LeafCount(n);
    LeafKeysExact(n);
    LeafKeysDistinct(n);
    ValuesAtKeys(n);
  }

  /** The traversal meets one value per leaf key. */
  lemma {:induction false} LeafCount<V>(n: Node<V>)
    ensures |Values(n)| == |LeafKeys(n)|
  {
    if n.Internal? {
      LeafCount(n.child0);
      LeafCount(n.child1);
    }
  }

  /** The traversal meets exactly the keys of the tree. */
  lemma {:induction false} LeafKeysExact<V>(n: Node<V>)
    ensures forall k :: k in Keys(n) <==> k in LeafKeys(n)
  {
    if n.Internal? {
      LeafKeysExact(n.child0);
      LeafKeysExact(n.child1);
      var a, b := LeafKeys(n.child0), LeafKeys(n.child1);
      assert LeafKeys(n) == a + b;
      forall k ensures k in LeafKeys(n) <==> k in a || k in b {
      }
    }
  }

  /** In a valid tree no key is met twice. */
  lemma {:induction false} LeafKeysDistinct<V>(n: Node<V>)
    requires Valid(n)
    ensures forall i, j :: 0 <= i < j < |LeafKeys(n)| ==> LeafKeys(n)[i] != LeafKeys(n)[j]
  {
    if n.Internal? {
      LeafKeysDistinct(n.child0);
      LeafKeysDistinct(n.child1);
      LeafKeysExact(n.child0);
      LeafKeysExact(n.child1);
      SplitDisjoint(n);
      DistinctJoin(LeafKeys(n.child0), LeafKeys(n.child1));
    }
  }

  /** Two repetition-free sequences with no element in common make a
      repetition-free sequence when laid end to end. */
  lemma DistinctJoin<T>(a: seq<T>, b: seq<T>)
    requires forall i, j :: 0 <= i < j < |a| ==> a[i] != a[j]
    requires forall i, j :: 0 <= i < j < |b| ==> b[i] != b[j]
    requires forall x :: x in a ==> x !in b
    ensures forall i, j :: 0 <= i < j < |a + b| ==> (a + b)[i] != (a + b)[j]
  {
    var s := a + b;
    forall i, j | 0 <= i < j < |s| ensures s[i] != s[j] {
      if j < |a| {
        assert s[i] == a[i] && s[j] == a[j];
      } else if |a| <= i {
        assert s[i] == b[i - |a|] && s[j] == b[j - |a|];
      } else {
        assert s[i] == a[i] && a[i] in a;
        assert s[j] == b[j - |a|] && b[j - |a|] in b;
      }
    }
  }

  /** In a valid tree the i-th value met is the one stored under the i-th
      key met. */
  lemma {:induction false} ValuesAtKeys<V>(n: Node<V>)
    requires Valid(n)
    ensures |Values(n)| == |LeafKeys(n)|
    ensures forall i :: 0 <= i < |LeafKeys(n)| ==>
      LeafKeys(n)[i] in Contents(n) && Values(n)[i] == Contents(n)[LeafKeys(n)[i]]
  {
    LeafCount(n);
    if n.Internal? {
      ValuesAtKeys(n.child0);
      ValuesAtKeys(n.child1);
      LeafKeysExact(n.child1);
      SplitDisjoint(n);
      ValuesJoin(LeafKeys(n.child0), LeafKeys(n.child1), Values(n.child0), Values(n.child1),
                 Contents(n.child0), Contents(n.child1));
    }
  }

  /** Pairing keys with values survives laying two runs end to end when
      no key of the first run is a key of the second map, which then
      cannot shadow it in the union. */
  lemma ValuesJoin<K, V>(a: seq<K>, b: seq<K>, va: seq<V>, vb: seq<V>, ca: map<K, V>, cb: map<K, V>)
    requires |va| == |a| && |vb| == |b|
    requires forall i :: 0 <= i < |a| ==> a[i] in ca && va[i] == ca[a[i]]
    requires forall i :: 0 <= i < |b| ==> b[i] in cb && vb[i] == cb[b[i]]
    requires forall x :: x in a ==> x !in cb
    ensures forall i :: 0 <= i < |a + b| ==> (a + b)[i] in ca + cb && (va + vb)[i] == (ca + cb)[(a + b)[i]]
  {
    forall i | 0 <= i < |a + b| ensures (a + b)[i] in ca + cb && (va + vb)[i] == (ca + cb)[(a + b)[i]] {
      if i < |a| {
        assert (a + b)[i] == a[i] && a[i] in a;
        assert (va + vb)[i] == va[i];
      } else {
        assert (a + b)[i] == b[i - |a|];
        assert (va + vb)[i] == vb[i - |a|];
      }
    }
  }

  lemma FreeCorrect<V>(root: Option<Node<V>>, hasCallback: bool)
    requires ValidRoot(root)
    ensures hasCallback && root.Some? ==>
      |Free(root, hasCallback)| == |LeafKeys(root.value)| == |ContentsOf(root)|
    ensures !hasCallback || root.None? ==> Free(root, hasCallback) == []
  {
    if root.Some? {
      var n := root.value;
      TraverseOnce(n);
      DistinctCard(LeafKeys(n));
      assert Keys(n) == set k | k in LeafKeys(n);
    }
  }

  /** A sequence without repetitions has as many elements as its set. */
  lemma {:induction false} DistinctCard<T>(s: seq<T>)
    requires forall i, j :: 0 <= i < j < |s| ==> s[i] != s[j]
    ensures |set x | x in s| == |s|
  {
    if s != [] {
      DistinctCard(s[1..]);
      assert (set x | x in s) == (set x | x in s[1..]) + {s[0]};
      assert s[0] !in s[1..];
    }
  }
}
