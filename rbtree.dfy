/** The red-black tree of rbtree.c. A tree is a value; a node pointer is a
    cursor: the subtree under the node together with the path of frames
    from its parent up to the root (each frame holds an ancestor's colour,
    key, the side the path comes up from and the ancestor's other child).
    The cursor stands for the rb_parent links: plugging the frames back in
    rebuilds the whole tree, so a rotation or a recolouring at a cursor
    updates every parent/child link and the root at once. Keys stand for
    the nodes themselves; rbtree.c never compares them, and neither does
    the model. */
module Rbtree {
  import opened Bytes

  datatype Color = Red | Black

  /** Which of rb_child[0] and rb_child[1]. */
  datatype Side = L | R

  /** 1 ^ side. */
  function Flip(s: Side): (r: Side)
    ensures r != s
  {
    if s == L then R else L
  }

  datatype Tree = Nil | Node(c: Color, k: nat, l: Tree, r: Tree)

  function Child(t: Tree, s: Side): Tree
    requires t.Node?
  {
    if s == L then t.l else t.r
  }

  function WithChild(t: Tree, s: Side, x: Tree): (r: Tree)
    requires t.Node?
    ensures r.Node? && r.c == t.c && r.k == t.k && Child(r, s) == x && Child(r, Flip(s)) == Child(t, Flip(s))
  {
    if s == L then t.(l := x) else t.(r := x)
  }

  predicate IsRed(t: Tree)
  {
    t.Node? && t.c == Red
  }

  /** A colour written to a node; NULL stays NULL. */
  function Paint(t: Tree, c: Color): (r: Tree)
    ensures r.Nil? <==> t.Nil?
    ensures r.Node? ==> r == Node(c, t.k, t.l, t.r)
  {
    if t.Nil? then Nil else t.(c := c)
  }

  /** The keys in order: left subtree, node, right subtree. */
  function Inorder(t: Tree): seq<nat>
  {
    if t.Nil? then [] else Inorder(t.l) + [t.k] + Inorder(t.r)
  }

  lemma PaintInorder(t: Tree, c: Color)
    ensures Inorder(Paint(t, c)) == Inorder(t)
  {
  }

  // ---------------------------------------------------------------------
  // do_rotate

  /** do_rotate(n, side): n's child on the other side (opp) takes n's
      place, n becomes opp's child on `side`, and opp's former child on
      `side` moves over to n. */
  function Rotate(n: Tree, side: Side): (r: Tree)
    requires n.Node? && Child(n, Flip(side)).Node?
    ensures Inorder(r) == Inorder(n)
  {
    var opp := Child(n, Flip(side));
    var n' := WithChild(n, Flip(side), Child(opp, side));
    var r := WithChild(opp, side, n');
    assert Inorder(r) == Inorder(n) by {
      if side == L {
        assert Inorder(n) == Inorder(n.l) + [n.k] + (Inorder(opp.l) + [opp.k] + Inorder(opp.r));
      } else {
        assert Inorder(n) == (Inorder(opp.l) + [opp.k] + Inorder(opp.r)) + [n.k] + Inorder(n.r);
      }
    }
    r
  }

  // ---------------------------------------------------------------------
  // Cursors

  /** An ancestor of the cursor: its colour and key, the side the path
      comes up from, and its other child. */
  datatype Frame = Frame(c: Color, k: nat, side: Side, sib: Tree)

  /** The ancestor's subtree with t on the frame's side. */
  function Join(f: Frame, t: Tree): (r: Tree)
    ensures r.Node? && r.c == f.c && r.k == f.k && Child(r, f.side) == t && Child(r, Flip(f.side)) == f.sib
  {
    if f.side == L then Node(f.c, f.k, t, f.sib) else Node(f.c, f.k, f.sib, t)
  }

  /** The whole tree: t put back under its frames, nearest first. */
  function Plug(p: seq<Frame>, t: Tree): Tree
    decreases |p|
  {
    if p == [] then t else Plug(p[1..], Join(p[0], t))
  }

  /** A node pointer: the node's subtree and the frames above it. */
  datatype Cursor = Cursor(path: seq<Frame>, t: Tree)

  function Whole(c: Cursor): Tree
  {
    Plug(c.path, c.t)
  }

  /** The keys in order to the left of the cursor's subtree ... */
  function Before(p: seq<Frame>): seq<nat>
    decreases |p|
  {
    if p == [] then [] else Before(p[1..]) + (if p[0].side == R then Inorder(p[0].sib) + [p[0].k] else [])
  }

  /** ... and to its right. */
  function After(p: seq<Frame>): seq<nat>
    decreases |p|
  {
    if p == [] then [] else (if p[0].side == L then [p[0].k] + Inorder(p[0].sib) else []) + After(p[1..])
  }

  /** The whole tree's keys are those before the cursor, the cursor's
      subtree's, and those after it. */
  lemma {:induction false} PlugInorder(p: seq<Frame>, t: Tree)
    ensures Inorder(Plug(p, t)) == Before(p) + Inorder(t) + After(p)
    decreases |p|
  {
    if p != [] {
      var j := Join(p[0], t);
      PlugInorder(p[1..], j);
      assert Plug(p, t) == Plug(p[1..], j);
      var b, a, m, x := Before(p[1..]), After(p[1..]), Inorder(t), Inorder(p[0].sib);
      if p[0].side == L {
        assert Inorder(j) == m + [p[0].k] + x;
        assert Before(p) == b + [] == b;
        assert After(p) == ([p[0].k] + x) + a;
        AssocLeft(b, m, p[0].k, x, a);
      } else {
        assert Inorder(j) == x + [p[0].k] + m;
        assert Before(p) == b + (x + [p[0].k]);
        assert After(p) == [] + a == a;
        AssocRight(b, x, p[0].k, m, a);
      }
    }
  }

  lemma AssocLeft(b: seq<nat>, m: seq<nat>, k: nat, x: seq<nat>, a: seq<nat>)
    ensures b + (m + [k] + x) + a == b + m + (([k] + x) + a)
  {
  }

  lemma AssocRight(b: seq<nat>, x: seq<nat>, k: nat, m: seq<nat>, a: seq<nat>)
    ensures b + (x + [k] + m) + a == (b + (x + [k])) + m + a
  {
  }

  /** Replacing the cursor's subtree by one with the same keys in order
      keeps the whole tree's keys in order. */
  lemma SameInorder(p: seq<Frame>, t: Tree, u: Tree)
    requires Inorder(t) == Inorder(u)
    ensures Inorder(Plug(p, t)) == Inorder(Plug(p, u))
  {
    PlugInorder(p, t);
    PlugInorder(p, u);
  }

  /** The position of the cursor's node in the whole tree's keys: the
      node is there. */
  function Index(c: Cursor): (i: nat)
    requires c.t.Node?
    ensures i < |Inorder(Whole(c))| && Inorder(Whole(c))[i] == c.t.k
  {
    PlugInorder(c.path, c.t);
    Split3(Before(c.path), Inorder(c.t.l), c.t.k, Inorder(c.t.r), After(c.path));
    |Before(c.path) + Inorder(c.t.l)|
  }

  lemma Split3(b: seq<nat>, l: seq<nat>, k: nat, r: seq<nat>, a: seq<nat>)
    ensures b + (l + [k] + r) + a == (b + l) + [k] + (r + a)
    ensures |b + l| < |(b + l) + [k] + (r + a)| && ((b + l) + [k] + (r + a))[|b + l|] == k
  {
  }

  lemma PlugCons(f: Frame, p: seq<Frame>, t: Tree)
    ensures Plug([f] + p, t) == Plug(p, Join(f, t))
  {
    assert ([f] + p)[1..] == p;
  }

  lemma BeforeCons(f: Frame, p: seq<Frame>)
    ensures Before([f] + p) == Before(p) + (if f.side == R then Inorder(f.sib) + [f.k] else [])
  {
    assert ([f] + p)[1..] == p;
  }

  // ---------------------------------------------------------------------
  // node_first, node_last, node_next, node_prev

  /** node_first_last: from the root, follow one side's children while
      there are any; the node reached (NULL for an empty tree). */
  method FirstLast(root: Tree, first: bool) returns (r: Option<Cursor>)
    ensures r.None? <==> root.Nil?
    ensures r.Some? ==> r.value.t.Node? && Whole(r.value) == root
    ensures r.Some? && first ==> Index(r.value) == 0
    ensures r.Some? && !first ==> Index(r.value) == |Inorder(root)| - 1
  {
    if root.Nil? {
      return None;
    }
    var d := if first then L else R;
    var p: seq<Frame> := [];
    var n := root;
    PlugInorder([], root);
    while Child(n, d).Node?
      invariant n.Node? && Plug(p, n) == root
      invariant first ==> |Before(p)| == 0
      invariant !first ==> |Before(p)| + |Inorder(n)| == |Inorder(root)| && After(p) == []
      decreases n
    {
      BeforeCons(Frame(n.c, n.k, d, Child(n, Flip(d))), p);
      PlugCons(Frame(n.c, n.k, d, Child(n, Flip(d))), p, Child(n, d));
      if !first {
        assert ([Frame(n.c, n.k, d, n.l)] + p)[1..] == p;
      }
      p, n := [Frame(n.c, n.k, d, Child(n, Flip(d)))] + p, Child(n, d);
    }
    r := Some(Cursor(p, n));
  }

  /** node_first: the first node in order, NULL when the tree is empty. */
  method First(root: Tree) returns (r: Option<Cursor>)
    ensures r.None? <==> root.Nil?
    ensures r.Some? ==> r.value.t.Node? && Whole(r.value) == root && Index(r.value) == 0
  {
    r := FirstLast(root, true);
  }

  /** node_last: the last node in order, NULL when the tree is empty. */
  method Last(root: Tree) returns (r: Option<Cursor>)
    ensures r.None? <==> root.Nil?
    ensures r.Some? ==> r.value.t.Node? && Whole(r.value) == root && Index(r.value) == |Inorder(root)| - 1
  {
    r := FirstLast(root, false);
  }

  /** node_next (node_prev_next with prev 0): with a right child, the
      leftmost node under it; otherwise climb while coming up from a
      right child, and the parent reached (NULL at the root). NULL in,
      NULL out. */
  method Next(c: Option<Cursor>) returns (r: Option<Cursor>)
    requires c.Some? ==> c.value.t.Node?
    ensures c.None? ==> r.None?
    ensures c.Some? ==> (r.None? <==> Index(c.value) + 1 == |Inorder(Whole(c.value))|)
    ensures r.Some? ==> c.Some? && r.value.t.Node? && Whole(r.value) == Whole(c.value) &&
                        Index(r.value) == Index(c.value) + 1
  {
    if c.None? {
      return None;
    }
    var p, n := c.value.path, c.value.t;
    if n.r.Node? {
      BeforeCons(Frame(n.c, n.k, R, n.l), p);
      PlugCons(Frame(n.c, n.k, R, n.l), p, n.r);
      p, n := [Frame(n.c, n.k, R, n.l)] + p, n.r;
      while n.l.Node?
        invariant n.Node? && Plug(p, n) == Whole(c.value)
        invariant |Before(p)| == Index(c.value) + 1
        decreases n
      {
        BeforeCons(Frame(n.c, n.k, L, n.r), p);
        PlugCons(Frame(n.c, n.k, L, n.r), p, n.l);
        p, n := [Frame(n.c, n.k, L, n.r)] + p, n.l;
      }
      r := Some(Cursor(p, n));
      assert Index(r.value) < |Inorder(Whole(r.value))|;
      return;
    }
    while p != [] && p[0].side == R
      invariant n.Node? && Plug(p, n) == Whole(c.value)
      invariant |Before(p)| + |Inorder(n)| == Index(c.value) + 1
      decreases |p|
    {
      assert [p[0]] + p[1..] == p;
      BeforeCons(p[0], p[1..]);
      PlugCons(p[0], p[1..], n);
      p, n := p[1..], Join(p[0], n);
    }
    if p == [] {
      return None;
    }
    assert [p[0]] + p[1..] == p;
    BeforeCons(p[0], p[1..]);
    PlugCons(p[0], p[1..], n);
    r := Some(Cursor(p[1..], Join(p[0], n)));
    assert Index(r.value) < |Inorder(Whole(r.value))|;
  }

  /** node_prev (node_prev_next with prev 1): the mirror image of Next. */
  method Prev(c: Option<Cursor>) returns (r: Option<Cursor>)
    requires c.Some? ==> c.value.t.Node?
    ensures c.None? ==> r.None?
    ensures c.Some? ==> (r.None? <==> Index(c.value) == 0)
    ensures r.Some? ==> c.Some? && r.value.t.Node? && Whole(r.value) == Whole(c.value) &&
                        Index(r.value) + 1 == Index(c.value)
  {
    if c.None? {
      return None;
    }
    var p, n := c.value.path, c.value.t;
    if n.l.Node? {
      BeforeCons(Frame(n.c, n.k, L, n.r), p);
      PlugCons(Frame(n.c, n.k, L, n.r), p, n.l);
      p, n := [Frame(n.c, n.k, L, n.r)] + p, n.l;
      while n.r.Node?
        invariant n.Node? && Plug(p, n) == Whole(c.value)
        invariant |Before(p)| + |Inorder(n)| == Index(c.value)
        decreases n
      {
        BeforeCons(Frame(n.c, n.k, R, n.l), p);
        PlugCons(Frame(n.c, n.k, R, n.l), p, n.r);
        p, n := [Frame(n.c, n.k, R, n.l)] + p, n.r;
      }
      return Some(Cursor(p, n));
    }
    while p != [] && p[0].side == L
      invariant n.Node? && Plug(p, n) == Whole(c.value)
      invariant |Before(p)| == Index(c.value)
      decreases |p|
    {
      assert [p[0]] + p[1..] == p;
      BeforeCons(p[0], p[1..]);
      PlugCons(p[0], p[1..], n);
      p, n := p[1..], Join(p[0], n);
    }
    if p == [] {
      return None;
    }
    assert [p[0]] + p[1..] == p;
    BeforeCons(p[0], p[1..]);
    PlugCons(p[0], p[1..], n);
    r := Some(Cursor(p[1..], Join(p[0], n)));
  }

  // ---------------------------------------------------------------------
  // The red-black invariants

  function Blk(c: Color): nat
  {
    if c == Black then 1 else 0
  }

  /** The black height, counted down the left spine; Bal makes it the
      count on every path. */
  function BH(t: Tree): nat
  {
    if t.Nil? then 0 else BH(t.l) + Blk(t.c)
  }

  /** Every path from a node down to a NULL passes the same number of
      black nodes. */
  predicate Bal(t: Tree)
  {
    t.Nil? || (Bal(t.l) && Bal(t.r) && BH(t.l) == BH(t.r))
  }

  /** No red node has a red child. */
  predicate NoRR(t: Tree)
  {
    t.Nil? || (NoRR(t.l) && NoRR(t.r) && (t.c == Red ==> !IsRed(t.l) && !IsRed(t.r)))
  }

  /** A red-black tree: balanced black heights, no red-red edge, black root. */
  predicate RB(t: Tree)
  {
    Bal(t) && NoRR(t) && !IsRed(t)
  }

  /** The frames' other children have the black heights that make the
      whole tree balanced around a subtree of black height h. */
  predicate BalF(p: seq<Frame>, h: nat)
    decreases |p|
  {
    p == [] || (Bal(p[0].sib) && BH(p[0].sib) == h && BalF(p[1..], h + Blk(p[0].c)))
  }

  /** No red-red edge among the frames and their other children. */
  predicate NoRRF(p: seq<Frame>)
    decreases |p|
  {
    p == [] ||
    (NoRR(p[0].sib) && (p[0].c == Red ==> !IsRed(p[0].sib) && (|p| > 1 ==> p[1].c == Black)) && NoRRF(p[1..]))
  }

  /** The root, when it is one of the frames, is black. */
  predicate TopBlack(p: seq<Frame>)
  {
    p == [] || p[|p| - 1].c == Black
  }

  /** The edge from the cursor up to its parent is not red-red. */
  predicate Junction(p: seq<Frame>, t: Tree)
  {
    !(IsRed(t) && p != [] && p[0].c == Red)
  }

  lemma {:induction false} BalPlug(p: seq<Frame>, t: Tree)
    ensures Bal(Plug(p, t)) <==> Bal(t) && BalF(p, BH(t))
    decreases |p|
  {
    if p != [] {
      var j := Join(p[0], t);
      BalPlug(p[1..], j);
      assert Bal(j) ==> BH(j) == BH(t) + Blk(p[0].c);
    }
  }

  lemma {:induction false} NoRRPlug(p: seq<Frame>, t: Tree)
    ensures NoRR(Plug(p, t)) <==> NoRR(t) && NoRRF(p) && Junction(p, t)
    decreases |p|
  {
    if p != [] {
      var j := Join(p[0], t);
      NoRRPlug(p[1..], j);
      assert Junction(p[1..], j) <==> (p[0].c == Red && |p| > 1 ==> p[1].c == Black);
    }
  }

  lemma {:induction false} RootPlug(p: seq<Frame>, t: Tree)
    requires p != []
    ensures Plug(p, t).Node? && Plug(p, t).c == p[|p| - 1].c
    decreases |p|
  {
    if |p| > 1 {
      RootPlug(p[1..], Join(p[0], t));
    }
  }

  /** The whole tree is red-black exactly when the pieces are. */
  lemma RBPlug(p: seq<Frame>, t: Tree)
    ensures RB(Plug(p, t)) <==>
              Bal(t) && BalF(p, BH(t)) && NoRR(t) && NoRRF(p) && Junction(p, t) &&
              (if p == [] then !IsRed(t) else TopBlack(p))
  {
    BalPlug(p, t);
    NoRRPlug(p, t);
    if p != [] {
      RootPlug(p, t);
    }
  }

  // ---------------------------------------------------------------------
  // rbtree_insert_rebalance

  /** While climbing: the cursor is red, its subtree is red-black below
      it, the whole tree is balanced, and the only red-red edge there can
      be is the one from the cursor to its parent. */
  ghost predicate InsInv(p: seq<Frame>, t: Tree)
  {
    IsRed(t) && Bal(t) && NoRR(t) && BalF(p, BH(t)) && NoRRF(p) && TopBlack(p)
  }

  /** A red leaf linked in place of a NULL of a red-black tree. */
  lemma InsertStart(p: seq<Frame>, k: nat)
    requires RB(Plug(p, Nil))
    ensures InsInv(p, Node(Red, k, Nil, Nil))
  {
    RBPlug(p, Nil);
  }

  /** What the climbing invariant says about a red parent and the
      grandparent above it. */
  lemma InsFacts(p: seq<Frame>, t: Tree)
    requires InsInv(p, t) && |p| >= 2 && p[0].c == Red
    ensures Bal(p[0].sib) && BH(p[0].sib) == BH(t) && NoRR(p[0].sib) && !IsRed(p[0].sib)
    ensures p[1].c == Black && Bal(p[1].sib) && BH(p[1].sib) == BH(t) && NoRR(p[1].sib)
    ensures BalF(p[2..], BH(t) + 1) && NoRRF(p[2..]) && TopBlack(p[2..])
    ensures Plug(p, t) == Plug(p[2..], Join(p[1], Join(p[0], t)))
  {
    assert p[1..][1..] == p[2..];
    assert BalF(p[1..], BH(t));
    assert NoRRF(p[1..]);
  }

  /** Red uncle: parent and uncle turn black, the grandparent red, and the
      grandparent becomes the cursor. */
  lemma RecolorStep(p: seq<Frame>, t: Tree)
    requires InsInv(p, t) && |p| >= 2 && p[0].c == Red && IsRed(p[1].sib)
    ensures InsInv(p[2..], Join(p[1].(c := Red, sib := Paint(p[1].sib, Black)), Join(p[0].(c := Black), t)))
    ensures Inorder(Plug(p[2..], Join(p[1].(c := Red, sib := Paint(p[1].sib, Black)), Join(p[0].(c := Black), t)))) ==
            Inorder(Plug(p, t))
  {
    InsFacts(p, t);
    var h := BH(t);
    var u := p[1].sib;
    var u' := Paint(u, Black);
    assert Bal(u') && BH(u') == h + 1 && NoRR(u');
    var np := Join(p[0].(c := Black), t);
    assert Bal(np) && BH(np) == h + 1 && NoRR(np) && !IsRed(np);
    var t' := Join(p[1].(c := Red, sib := u'), np);
    assert Bal(t') && BH(t') == h + 1 && NoRR(t') && IsRed(t');
    SameInorder(p[2..], Join(p[1], Join(p[0], t)), t');
  }

  /** Black uncle, parent on the same side as the cursor: one rotation at
      the grandparent. */
  lemma SingleRotate(p: seq<Frame>, t: Tree, g: Tree)
    requires InsInv(p, t) && |p| >= 2 && p[0].c == Red && !IsRed(p[1].sib) && p[0].side == p[1].side
    requires g == Rotate(Join(p[1].(c := Red), Paint(Join(p[0], t), Black)), Flip(p[1].side))
    ensures g.c == Black && Child(g, p[1].side) == t
    ensures IsRed(Child(g, Flip(p[1].side))) && Bal(Child(g, Flip(p[1].side))) &&
            BH(Child(g, Flip(p[1].side))) == BH(t) && NoRR(Child(g, Flip(p[1].side)))
  {
    InsFacts(p, t);
    var side := p[1].side;
    var x := Child(g, Flip(side));
    assert x == Join(Frame(Red, p[1].k, side, p[1].sib), p[0].sib);
  }

  /** Black uncle, cursor on the inner side: a rotation at the parent,
      then one at the grandparent; the old parent is the new cursor. */
  lemma DoubleRotate(p: seq<Frame>, t: Tree, g: Tree)
    requires InsInv(p, t) && |p| >= 2 && p[0].c == Red && !IsRed(p[1].sib) && p[0].side == Flip(p[1].side)
    requires g == Rotate(Join(p[1].(c := Red), Paint(Rotate(Join(p[0], t), p[1].side), Black)), Flip(p[1].side))
    ensures g.c == Black
    ensures IsRed(Child(g, p[1].side)) && Bal(Child(g, p[1].side)) &&
            BH(Child(g, p[1].side)) == BH(t) && NoRR(Child(g, p[1].side))
    ensures IsRed(Child(g, Flip(p[1].side))) && Bal(Child(g, Flip(p[1].side))) &&
            BH(Child(g, Flip(p[1].side))) == BH(t) && NoRR(Child(g, Flip(p[1].side)))
  {
    InsFacts(p, t);
    var side := p[1].side;
    assert Child(g, side) == Join(Frame(Red, p[0].k, Flip(side), p[0].sib), Child(t, side));
    assert Child(g, Flip(side)) == Join(Frame(Red, p[1].k, side, p[1].sib), Child(t, Flip(side)));
  }

  /** Black uncle: after the rotation(s) at the parent and the
      grandparent, G is the subtree in the grandparent's place; its root
      is black, and the cursor is its red child on `side`. */
  lemma RotateStep(p: seq<Frame>, t: Tree, pt: Tree, g: Tree)
    requires InsInv(p, t) && |p| >= 2 && p[0].c == Red && !IsRed(p[1].sib)
    requires pt == if p[0].side == Flip(p[1].side) then Rotate(Join(p[0], t), p[1].side) else Join(p[0], t)
    requires g == Rotate(Join(p[1].(c := Red), Paint(pt, Black)), Flip(p[1].side))
    ensures g.c == Black
    ensures InsInv([Frame(Black, g.k, p[1].side, Child(g, Flip(p[1].side)))] + p[2..], Child(g, p[1].side))
    ensures Inorder(Plug([Frame(Black, g.k, p[1].side, Child(g, Flip(p[1].side)))] + p[2..], Child(g, p[1].side))) ==
            Inorder(Plug(p, t))
  {
    var side := p[1].side;
    InsFacts(p, t);
    if p[0].side == Flip(side) {
      DoubleRotate(p, t, g);
    } else {
      assert p[0].side == side;
      SingleRotate(p, t, g);
    }
    var f := Frame(Black, g.k, side, Child(g, Flip(side)));
    var q := [f] + p[2..];
    assert q[1..] == p[2..];
    assert BalF(q, BH(t));
    assert NoRRF(q);
    assert Join(f, Child(g, side)) == g;
    PlugCons(f, p[2..], Child(g, side));
    PaintInorder(pt, Black);
    SameInorder(p[2..], Join(p[1], Join(p[0], t)), g);
  }

  /** The loop has stopped: the cursor is the root or its parent is
      black. Painting the root black leaves a red-black tree. */
  lemma InsertDone(p: seq<Frame>, t: Tree)
    requires InsInv(p, t) && (p == [] || p[0].c == Black)
    ensures RB(Paint(Plug(p, t), Black)) && Paint(Plug(p, t), Black).Node?
    ensures Inorder(Paint(Plug(p, t), Black)) == Inorder(Plug(p, t))
  {
    BalPlug(p, t);
    NoRRPlug(p, t);
    if p != [] {
      RootPlug(p, t);
    }
  }

  // ---------------------------------------------------------------------
  // delete_rebalance

  /** The frame for stepping from x down into its child on side d. */
  function Down(x: Tree, d: Side): (f: Frame)
    requires x.Node?
    ensures Join(f, Child(x, d)) == x
  {
    Frame(x.c, x.k, d, Child(x, Flip(d)))
  }

  /** While climbing after a black node was taken out: the cursor's
      subtree (NULL allowed) is balanced and one black short of what the
      frames need, it has no red-red edge below its root, and the frames
      have none either. */
  ghost predicate DelInv(p: seq<Frame>, t: Tree)
  {
    Bal(t) && NoRR(Paint(t, Black)) && BalF(p, BH(t) + 1) && NoRRF(p) && TopBlack(p)
  }

  /** What the invariant says about a black (or NULL) cursor below the
      root: the sibling is a node, one black higher than the cursor. */
  lemma DelFacts(p: seq<Frame>, t: Tree)
    requires DelInv(p, t) && p != [] && !IsRed(t)
    ensures NoRR(t)
    ensures p[0].sib.Node? && Bal(p[0].sib) && BH(p[0].sib) == BH(t) + 1 && NoRR(p[0].sib)
    ensures p[0].c == Red ==> !IsRed(p[0].sib) && (|p| > 1 ==> p[1].c == Black)
    ensures BalF(p[1..], BH(t) + 1 + Blk(p[0].c)) && NoRRF(p[1..]) && TopBlack(p[1..])
    ensures |p| == 1 ==> p[0].c == Black
    ensures Plug(p, t) == Plug(p[1..], Join(p[0], t))
  {
    assert t.Node? ==> Paint(t, Black) == t;
  }

  /** Red sibling: the sibling turns black, the parent red, and a rotation
      at the parent makes the sibling the grandparent. The cursor is
      still short, now under a red parent and with a black sibling. */
  lemma RedSibling(p: seq<Frame>, t: Tree, x: Tree)
    requires DelInv(p, t) && p != [] && !IsRed(t) && IsRed(p[0].sib)
    requires x == Rotate(Join(p[0].(c := Red, sib := Paint(p[0].sib, Black)), t), p[0].side)
    ensures Child(x, p[0].side).Node?
    ensures DelInv([Down(Child(x, p[0].side), p[0].side), Down(x, p[0].side)] + p[1..], t)
    ensures Down(Child(x, p[0].side), p[0].side).c == Red
    ensures Inorder(Plug([Down(Child(x, p[0].side), p[0].side), Down(x, p[0].side)] + p[1..], t)) ==
            Inorder(Plug(p, t))
  {
    DelFacts(p, t);
    var side := p[0].side;
    var o := p[0].sib;
    var h := BH(t);
    assert Child(x, side) == Join(Frame(Red, p[0].k, side, Child(o, side)), t);
    var f0, f1 := Down(Child(x, side), side), Down(x, side);
    assert f0 == Frame(Red, p[0].k, side, Child(o, side));
    assert f1 == Frame(Black, o.k, side, Child(o, Flip(side)));
    var q := [f0, f1] + p[1..];
    assert q[1..] == [f1] + p[1..] && q[1..][1..] == p[1..];
    assert BalF(q[1..], h + 1);
    assert NoRRF(q[1..]);
    PlugCons(f0, [f1] + p[1..], t);
    PlugCons(f1, p[1..], Child(x, side));
    PaintInorder(o, Black);
    SameInorder(p[1..], Join(p[0], t), x);
  }

  /** Black sibling with black children: the sibling turns red and the
      parent becomes the cursor, short by one in its turn; it is red when
      the parent was. */
  lemma BlackNephews(p: seq<Frame>, t: Tree)
    requires DelInv(p, t) && p != [] && !IsRed(t)
    requires p[0].sib.Node? && p[0].sib.c == Black && !IsRed(p[0].sib.l) && !IsRed(p[0].sib.r)
    ensures DelInv(p[1..], Join(p[0].(sib := Paint(p[0].sib, Red)), t))
    ensures p[0].c == Red ==> IsRed(Join(p[0].(sib := Paint(p[0].sib, Red)), t))
    ensures Inorder(Plug(p[1..], Join(p[0].(sib := Paint(p[0].sib, Red)), t))) == Inorder(Plug(p, t))
  {
    DelFacts(p, t);
    var o' := Paint(p[0].sib, Red);
    assert Bal(o') && BH(o') == BH(t) && NoRR(o');
    var t' := Join(p[0].(sib := o'), t);
    assert Bal(t') && BH(t') == BH(t) + Blk(p[0].c);
    assert NoRR(Paint(t', Black));
    PaintInorder(p[0].sib, Red);
    SameInorder(p[1..], Join(p[0], t), t');
  }

  /** Black sibling whose far child is black and near child red: the near
      child turns black, the sibling red, and a rotation at the sibling
      towards the far side lifts the near child. The result is a black
      sibling of the same black height whose far child is red. */
  lemma NearFix(o: Tree, side: Side, o': Tree)
    requires o.Node? && o.c == Black && Bal(o) && NoRR(o)
    requires IsRed(Child(o, side)) && !IsRed(Child(o, Flip(side)))
    requires o' == Rotate(WithChild(Paint(o, Red), side, Paint(Child(o, side), Black)), Flip(side))
    ensures o'.Node? && o'.c == Black && Bal(o') && BH(o') == BH(o) && NoRR(o')
    ensures IsRed(Child(o', Flip(side)))
    ensures Inorder(o') == Inorder(o)
  {
    var nr := Child(o, side);
    assert BH(nr) == BH(Child(o, Flip(side))) == BH(nr.l) == BH(nr.r) && BH(o) == BH(nr) + 1;
    assert !IsRed(nr.l) && !IsRed(nr.r);
    if side == L {
      var y := Node(Red, o.k, nr.r, o.r);
      assert o' == Node(Black, nr.k, nr.l, y);
      assert Bal(y) && BH(y) == BH(nr.l) && NoRR(y);
    } else {
      var y := Node(Red, o.k, o.l, nr.l);
      assert o' == Node(Black, nr.k, y, nr.r);
      assert Bal(y) && BH(y) == BH(nr.l) && NoRR(y);
    }
    RecolorInorder(o, side, Red, Black);
  }

  /** A sibling replaced by one of the same keys in order, balance, black
      height and (black) colour keeps the invariant and the keys. */
  lemma SiblingSwap(p: seq<Frame>, t: Tree, o': Tree)
    requires DelInv(p, t) && p != [] && !IsRed(t)
    requires Bal(o') && NoRR(o') && !IsRed(o') && BH(o') == BH(p[0].sib) && Inorder(o') == Inorder(p[0].sib)
    ensures DelInv([p[0].(sib := o')] + p[1..], t)
    ensures Inorder(Plug([p[0].(sib := o')] + p[1..], t)) == Inorder(Plug(p, t))
  {
    DelFacts(p, t);
    var q := [p[0].(sib := o')] + p[1..];
    assert q[1..] == p[1..] && |q| == |p|;
    assert q[0].c == p[0].c && q[0].sib == o';
    assert |p| > 1 ==> q[1] == p[1] && q[|q| - 1] == p[|p| - 1];
    assert BalF(q, BH(t) + 1);
    assert NoRRF(q);
    assert TopBlack(q);
    PlugCons(q[0], p[1..], t);
    SameInorder(p[1..], Join(p[0], t), Join(q[0], t));
  }

  /** The subtree of the last case, before it is put back: the parent
      with the sibling's colour, its two children black. */
  lemma FarRedLocal(f: Frame, t: Tree, x: Tree)
    requires Bal(t) && NoRR(t) && !IsRed(t)
    requires f.sib.Node? && f.sib.c == Black && Bal(f.sib) && NoRR(f.sib) && BH(f.sib) == BH(t) + 1
    requires IsRed(Child(f.sib, Flip(f.side)))
    requires x == Rotate(Join(f.(c := Black, sib := WithChild(Paint(f.sib, f.c), Flip(f.side),
                                                               Paint(Child(f.sib, Flip(f.side)), Black))), t), f.side)
    ensures x.Node? && x.c == f.c && Bal(x) && BH(x) == BH(t) + 1 + Blk(f.c)
    ensures NoRR(Child(x, L)) && NoRR(Child(x, R)) && !IsRed(Child(x, L)) && !IsRed(Child(x, R))
    ensures Inorder(x) == Inorder(Join(f, t))
  {
    var side := f.side;
    var o := f.sib;
    var far := Child(o, Flip(side));
    var fb := Paint(far, Black);
    assert Bal(fb) && BH(fb) == BH(t) + 1 && NoRR(fb) && !IsRed(fb);
    var y := Join(Frame(Black, f.k, side, Child(o, side)), t);
    assert Bal(y) && BH(y) == BH(t) + 1 && NoRR(y) && !IsRed(y);
    if side == L {
      assert x == Node(f.c, o.k, y, fb);
    } else {
      assert x == Node(f.c, o.k, fb, y);
    }
    RecolorInorder(o, Flip(side), f.c, Black);
  }

  /** Colours do not change the keys in order. */
  lemma RecolorInorder(o: Tree, d: Side, c: Color, cd: Color)
    requires o.Node?
    ensures Inorder(WithChild(Paint(o, c), d, Paint(Child(o, d), cd))) == Inorder(o)
  {
    PaintInorder(Child(o, d), cd);
  }

  /** Black sibling with a red far child: after the recolouring and the
      rotation at the parent the whole tree is balanced with no red-red
      edge below the root; the cursor moves to the root. */
  lemma FarRed(p: seq<Frame>, t: Tree, x: Tree)
    requires DelInv(p, t) && p != [] && !IsRed(t)
    requires p[0].sib.Node? && p[0].sib.c == Black && IsRed(Child(p[0].sib, Flip(p[0].side)))
    requires x == Rotate(Join(p[0].(c := Black, sib := WithChild(Paint(p[0].sib, p[0].c), Flip(p[0].side),
                                                                 Paint(Child(p[0].sib, Flip(p[0].side)), Black))), t), p[0].side)
    ensures DelInv([], Plug(p[1..], x))
    ensures Inorder(Plug(p[1..], x)) == Inorder(Plug(p, t))
  {
    DelFacts(p, t);
    FarRedLocal(p[0], t, x);
    BalPlug(p[1..], x);
    NoRRPlug(p[1..], x);
    if p[1..] != [] {
      RootPlug(p[1..], x);
      assert Paint(Plug(p[1..], x), Black) == Plug(p[1..], x);
    }
    SameInorder(p[1..], Join(p[0], t), x);
  }

  /** The loop has stopped at a red cursor or at the root: painting the
      cursor black leaves a red-black tree. */
  lemma DeleteDone(p: seq<Frame>, t: Tree)
    requires DelInv(p, t) && (IsRed(t) || p == [])
    ensures RB(Plug(p, Paint(t, Black)))
    ensures Inorder(Plug(p, Paint(t, Black))) == Inorder(Plug(p, t))
  {
    var b := Paint(t, Black);
    assert Bal(b) && (t.Node? ==> BH(b) == BH(t) + Blk(Black) - Blk(t.c));
    if IsRed(t) {
      assert BH(b) == BH(t) + 1;
    }
    RBPlug(p, b);
    PaintInorder(t, Black);
    SameInorder(p, t, b);
  }

  /** Case 3 of delete_rebalance as rbtree.c writes it: the near child is
      painted black, the sibling red, and the sibling is rotated with
      do_rotate(other, 0 ^ side), which lifts the sibling's FAR child,
      the one just found black or NULL. A NULL far child is dereferenced
      (None). */
  function NearFixAsWritten(o: Tree, side: Side): (r: Option<Tree>)
    requires o.Node?
    ensures r.None? <==> Child(o, Flip(side)).Nil?
    ensures r.Some? ==> Inorder(r.value) == Inorder(o) && r.value.k == Child(o, Flip(side)).k
  {
    var o1 := WithChild(Paint(o, Red), side, Paint(Child(o, side), Black));
    assert Inorder(o1) == Inorder(o) by {
      PaintInorder(Child(o, side), Black);
    }
    if Child(o1, Flip(side)).Nil? then None else Some(Rotate(o1, side))
  }

  /** The red-black tree 10(black) over 5(black) and 20(black), with
      15(red) the left child of 20. Deleting 5 takes out a black leaf, so
      the rebalance starts at the NULL left of 10; the sibling 20 is
      black, its near child 15 red and its far child NULL: case 3, where
      the rotation as written dereferences NULL, and the intended one
      gives a sibling with a red far child. */
  lemma NearFixAsWrittenFails()
    ensures var s := Node(Black, 20, Node(Red, 15, Nil, Nil), Nil);
            var t := Node(Black, 10, Node(Black, 5, Nil, Nil), s);
            RB(t) && Unlinked(Cursor([Frame(Black, 10, L, s)], t.l)) == Removal([Frame(Black, 10, L, s)], Nil, Black) &&
            Whole(Cursor([Frame(Black, 10, L, s)], t.l)) == t &&
            DelInv([Frame(Black, 10, L, s)], Nil) && !IsRed(s) && IsRed(s.l) && !IsRed(s.r) &&
            NearFixAsWritten(s, L).None? &&
            Rotate(WithChild(Paint(s, Red), L, Paint(s.l, Black)), R) == Node(Black, 15, Nil, Node(Red, 20, Nil, Nil))
  {
    var s := Node(Black, 20, Node(Red, 15, Nil, Nil), Nil);
    assert BalF([Frame(Black, 10, L, s)], 1) by {
      assert [Frame(Black, 10, L, s)][1..] == [];
    }
    assert NoRRF([Frame(Black, 10, L, s)]) by {
      assert [Frame(Black, 10, L, s)][1..] == [];
    }
  }

  // ---------------------------------------------------------------------
  // rbtree_delete_node: taking the node out

  /** The leftmost node under t, and the frames from it up to t. */
  function Leftmost(t: Tree): (m: Tree)
    requires t.Node?
    ensures m.Node? && m.l.Nil?
    decreases t
  {
    if t.l.Nil? then t else Leftmost(t.l)
  }

  function LeftPath(t: Tree): seq<Frame>
    requires t.Node?
    decreases t
  {
    if t.l.Nil? then [] else LeftPath(t.l) + [Frame(t.c, t.k, L, t.r)]
  }

  lemma {:induction false} PlugAppend(a: seq<Frame>, b: seq<Frame>, t: Tree)
    ensures Plug(a + b, t) == Plug(b, Plug(a, t))
    decreases |a|
  {
    if a != [] {
      assert (a + b)[1..] == a[1..] + b && (a + b)[0] == a[0];
      PlugAppend(a[1..], b, Join(a[0], t));
      assert Plug(a + b, t) == Plug(a[1..] + b, Join(a[0], t));
    } else {
      assert a + b == b;
    }
  }

  predicate AllLeft(p: seq<Frame>)
  {
    forall i :: 0 <= i < |p| ==> p[i].side == L
  }

  lemma {:induction false} BeforeAllLeft(p: seq<Frame>)
    requires AllLeft(p)
    ensures Before(p) == []
    decreases |p|
  {
    if p != [] {
      BeforeAllLeft(p[1..]);
    }
  }

  /** t is its leftmost node put back under the left path ... */
  lemma {:induction false} LeftPathShape(t: Tree)
    requires t.Node?
    ensures AllLeft(LeftPath(t)) && Plug(LeftPath(t), Leftmost(t)) == t
    decreases t
  {
    if t.l.Node? {
      LeftPathShape(t.l);
      var f := Frame(t.c, t.k, L, t.r);
      PlugAppend(LeftPath(t.l), [f], Leftmost(t));
      assert Plug([f], t.l) == Join(f, t.l);
    }
  }

  /** ... and its keys start with that node's. */
  lemma {:induction false} LeftPathPlug(t: Tree)
    requires t.Node?
    ensures AllLeft(LeftPath(t)) && Plug(LeftPath(t), Leftmost(t)) == t
    ensures Inorder(t) == [Leftmost(t).k] + Inorder(Leftmost(t).r) + After(LeftPath(t))
  {
    var lp, m := LeftPath(t), Leftmost(t);
    LeftPathShape(t);
    BeforeAllLeft(lp);
    PlugInorder(lp, m);
    var a := After(lp);
    assert Inorder(t) == [] + Inorder(m) + a;
    assert Inorder(m) == [m.k] + Inorder(m.r) by {
      assert Inorder(m.l) == [];
    }
    assert [] + Inorder(m) + a == [m.k] + Inorder(m.r) + a;
  }

  /** What taking a node out leaves: the frames and the subtree (NULL
      allowed) where the rebalance starts, and the colour taken out. */
  datatype Removal = Removal(path: seq<Frame>, child: Tree, color: Color)

  /** With two children, the leftmost node m of the right subtree is
      unlinked (its right child takes its place) and m takes n's place
      with n's colour and children; the rebalance starts at m's old place
      with m's colour. Otherwise n's only child (or NULL) takes n's place
      and n's colour is the one taken out. */
  ghost function Unlinked(c: Cursor): Removal
    requires c.t.Node?
  {
    var n := c.t;
    if n.l.Node? && n.r.Node? then
      var m := Leftmost(n.r);
      Removal(LeftPath(n.r) + [Frame(n.c, m.k, R, n.l)] + c.path, m.r, m.c)
    else
      Removal(c.path, if n.l.Nil? then n.r else n.l, n.c)
  }

  /** With two children: the successor m in n's place over n's left
      child and n's right subtree without m has n's keys but n's own. */
  lemma UnlinkedTwoInorder(c: Cursor)
    requires c.t.Node? && c.t.l.Node? && c.t.r.Node?
    ensures var u := Unlinked(c);
            var x := Node(c.t.c, Leftmost(c.t.r).k, c.t.l, Plug(LeftPath(c.t.r), Leftmost(c.t.r).r));
            Plug(u.path, u.child) == Plug(c.path, x) && Inorder(x) == Inorder(c.t.l) + Inorder(c.t.r)
  {
    var n := c.t;
    var m := Leftmost(n.r);
    var lp := LeftPath(n.r);
    var f := Frame(n.c, m.k, R, n.l);
    var u := Unlinked(c);
    assert u.path == lp + [f] + c.path && u.child == m.r;
    var y := Plug(lp, m.r);
    var x := Node(n.c, m.k, n.l, y);
    assert lp + [f] + c.path == lp + ([f] + c.path);
    PlugAppend(lp, [f] + c.path, m.r);
    PlugCons(f, c.path, y);
    assert Join(f, y) == x;
    LeftPathPlug(n.r);
    BeforeAllLeft(lp);
    PlugInorder(lp, m.r);
    assert Inorder(y) == [] + Inorder(m.r) + After(lp);
    assert Inorder(x) == Inorder(n.l) + [m.k] + Inorder(y);
    assert Inorder(n.r) == [m.k] + Inorder(m.r) + After(lp);
    assert Inorder(n.l) + [m.k] + ([] + Inorder(m.r) + After(lp)) == Inorder(n.l) + ([m.k] + Inorder(m.r) + After(lp));
  }

  /** Taking n out removes its key, and only its key, from the keys in
      order. */
  lemma UnlinkedInorder(c: Cursor)
    requires c.t.Node?
    ensures var u := Unlinked(c);
            Inorder(Plug(u.path, u.child)) == Inorder(Whole(c))[..Index(c)] + Inorder(Whole(c))[Index(c) + 1..]
  {
    var n := c.t;
    var u := Unlinked(c);
    var b, a := Before(c.path), After(c.path);
    PlugInorder(c.path, n);
    var s := Inorder(Whole(c));
    Split3(b, Inorder(n.l), n.k, Inorder(n.r), a);
    assert s[..Index(c)] == b + Inorder(n.l);
    assert s[Index(c) + 1..] == Inorder(n.r) + a;
    var rest := (b + Inorder(n.l)) + (Inorder(n.r) + a);
    var y: Tree;
    if n.l.Node? && n.r.Node? {
      UnlinkedTwoInorder(c);
      y := Node(n.c, Leftmost(n.r).k, n.l, Plug(LeftPath(n.r), Leftmost(n.r).r));
    } else {
      y := u.child;
      assert Plug(u.path, u.child) == Plug(c.path, y);
    }
    assert Inorder(y) == Inorder(n.l) + Inorder(n.r);
    PlugInorder(c.path, y);
    Regroup(b, Inorder(n.l), Inorder(n.r), a);
  }

  lemma Regroup(b: seq<nat>, x: seq<nat>, y: seq<nat>, a: seq<nat>)
    ensures b + (x + y) + a == (b + x) + (y + a)
  {
  }

  /** With two children the node in n's place has n's colour and left
      child and the successor's key, and the frames above are n's. */
  lemma UnlinkedSuccessor(c: Cursor)
    requires c.t.Node? && c.t.l.Node? && c.t.r.Node?
    ensures var u := Unlinked(c);
            |u.path| > |c.path| && u.path[|u.path| - |c.path|..] == c.path &&
            u.path[|u.path| - |c.path| - 1] == Frame(c.t.c, Inorder(c.t.r)[0], R, c.t.l) &&
            u.color == Leftmost(c.t.r).c
  {
    LeftPathPlug(c.t.r);
  }

  /** BalF, NoRRF and TopBlack look at colours, sides and siblings only. */
  lemma {:induction false} FramesAlike(p: seq<Frame>, q: seq<Frame>, h: nat)
    requires |p| == |q|
    requires forall i :: 0 <= i < |p| ==> p[i].c == q[i].c && p[i].side == q[i].side && p[i].sib == q[i].sib
    ensures BalF(p, h) == BalF(q, h) && NoRRF(p) == NoRRF(q) && TopBlack(p) == TopBlack(q)
    decreases |p|
  {
    if p != [] {
      FramesAlike(p[1..], q[1..], h + Blk(p[0].c));
    }
  }

  lemma AlikeMiddle(a: seq<Frame>, f: Frame, g: Frame, b: seq<Frame>)
    requires f.c == g.c && f.side == g.side && f.sib == g.sib
    ensures var p, q := a + [f] + b, a + [g] + b;
            |p| == |q| && forall i :: 0 <= i < |p| ==> p[i].c == q[i].c && p[i].side == q[i].side && p[i].sib == q[i].sib
  {
    var p, q := a + [f] + b, a + [g] + b;
    forall i | 0 <= i < |p|
      ensures p[i].c == q[i].c && p[i].side == q[i].side && p[i].sib == q[i].sib
    {
      if i < |a| {
        assert p[i] == a[i] == q[i];
      } else if i > |a| {
        assert p[i] == b[i - |a| - 1] == q[i];
      }
    }
  }

  /** A node with a NULL child in a balanced tree: its other child is
      NULL or a red leaf. */
  lemma ShortChild(n: Tree, x: Tree)
    requires n.Node? && Bal(n) && NoRR(n) && (n.l.Nil? || n.r.Nil?) && (x == n.l || x == n.r)
    ensures BH(x) == 0 && Bal(x) && NoRR(Paint(x, Black)) && BH(n) == Blk(n.c)
    ensures n.c == Red ==> x.Nil?
  {
  }

  /** Taking a node out of a red-black tree: a black colour taken out
      leaves the rebalance's starting point one black short (the loop's
      invariant); a red one leaves a red-black tree, so no rebalance is
      needed. */
  lemma UnlinkedRB(c: Cursor)
    requires c.t.Node? && RB(Whole(c))
    ensures var u := Unlinked(c);
            (u.color == Black ==> DelInv(u.path, u.child)) &&
            (u.color == Red ==> RB(Plug(u.path, u.child)))
  {
    var n := c.t;
    var u := Unlinked(c);
    RBPlug(c.path, n);
    if n.l.Node? && n.r.Node? {
      var m := Leftmost(n.r);
      var lp := LeftPath(n.r);
      var g := Frame(n.c, n.k, R, n.l);
      LeftPathPlug(n.r);
      var q := lp + [g] + c.path;
      assert lp + [g] + c.path == lp + ([g] + c.path);
      PlugAppend(lp, [g] + c.path, m);
      PlugCons(g, c.path, n.r);
      assert Plug(q, m) == Whole(c);
      RBPlug(q, m);
      ShortChild(m, m.r);
      AlikeMiddle(lp, g, Frame(n.c, m.k, R, n.l), c.path);
      FramesAlike(q, u.path, BH(m));
      RBPlug(u.path, u.child);
    } else {
      ShortChild(n, u.child);
      RBPlug(u.path, u.child);
    }
  }

  class RbTree {
    var root: Tree

    /** rbtree_insert_rebalance for the red leaf at c, just linked where
        a NULL was: while the parent is red, a red uncle moves the
        violation up two levels; a black uncle is fixed by one or two
        rotations, after which the parent is black. The root is painted
        black at the end. The keys in order do not change. */
    method InsertRebalance(c: Cursor)
      requires c.t.Node? && c.t.c == Red && c.t.l.Nil? && c.t.r.Nil?
      requires root == Whole(c) && RB(Plug(c.path, Nil))
      modifies this
      ensures RB(root) && root.Node?
      ensures Inorder(root) == Inorder(old(root))
    {
      var p, t := c.path, c.t;
      InsertStart(p, t.k);
      while p != []
        invariant InsInv(p, t) && Inorder(Plug(p, t)) == Inorder(old(root))
        decreases |p|
      {
        var pf := p[0];
        if pf.c == Black {
          break;
        }
        // the parent is red, so it is not the root: the grandparent exists
        var gf := p[1];
        var side := gf.side;
        var uncle := gf.sib;
        if IsRed(uncle) {
          RecolorStep(p, t);
          p, t := p[2..], Join(gf.(c := Red, sib := Paint(uncle, Black)), Join(pf.(c := Black), t));
          continue;
        }
        var pt := Join(pf, t);
        if pf.side == Flip(side) {
          pt := Rotate(pt, side);
        }
        var g := Rotate(Join(gf.(c := Red), Paint(pt, Black)), Flip(side));
        RotateStep(p, t, pt, g);
        p, t := [Frame(g.c, g.k, side, Child(g, Flip(side)))] + p[2..], Child(g, side);
      }
      InsertDone(p, t);
      root := Paint(Plug(p, t), Black);
    }

    /** delete_rebalance from the short cursor (n, its frames for the
        parent links) up, one RebalanceStep per turn of the loop, until
        the cursor is red or the root; the cursor is painted black at the
        end. The result is a red-black tree with the same keys in order. */
    method DeleteRebalance(p0: seq<Frame>, t0: Tree)
      requires root == Plug(p0, t0) && DelInv(p0, t0)
      modifies this
      ensures RB(root) && Inorder(root) == Inorder(old(root))
    {
      var p, t := p0, t0;
      while !IsRed(t)
        invariant DelInv(p, t) && Inorder(Plug(p, t)) == Inorder(old(root))
        decreases |p|, if IsRed(t) then 0 else 1
      {
        if p == [] {
          break;
        }
        var done;
        p, t, done := RebalanceStep(p, t);
        if done {
          break;
        }
      }
      DeleteDone(p, t);
      if t.Node? {
        t := t.(c := Black);
      }
      root := Plug(p, t);
    }

    /** rbtree_delete_node: n is taken out as Unlink computes, and the
        rebalance runs only when the colour taken out is black. The
        result is a red-black tree whose keys in order are the old ones
        without n's. */
    method DeleteNode(c: Cursor)
      requires c.t.Node? && root == Whole(c) && RB(root)
      modifies this
      ensures RB(root)
      ensures Inorder(root) == Inorder(old(root))[..Index(c)] + Inorder(old(root))[Index(c) + 1..]
    {
      var u := Unlink(c);
      UnlinkedInorder(c);
      UnlinkedRB(c);
      root := Plug(u.path, u.child);
      if u.color == Black {
        DeleteRebalance(u.path, u.child);
      }
    }
  }

  /** The relinking of rbtree_delete_node: with two children, walk right
      and then left as far as possible to the successor m; m's right child
      takes m's place, and m takes n's place, colour and children.
      Otherwise n's only child (or NULL) takes n's place. */
  method Unlink(c: Cursor) returns (u: Removal)
    requires c.t.Node?
    ensures u == Unlinked(c)
  {
    var n := c.t;
    if n.l.Node? && n.r.Node? {
      var q: seq<Frame> := [];
      var m := n.r;
      while m.l.Node?
        invariant m.Node? && LeftPath(n.r) == LeftPath(m) + q && Leftmost(m) == Leftmost(n.r)
        decreases m
      {
        assert LeftPath(m) + q == LeftPath(m.l) + ([Frame(m.c, m.k, L, m.r)] + q);
        q, m := [Frame(m.c, m.k, L, m.r)] + q, m.l;
      }
      return Removal(q + [Frame(n.c, m.k, R, n.l)] + c.path, m.r, m.c);
    }
    var child := if n.l.Nil? then n.r else n.l;
    return Removal(c.path, child, n.c);
  }

  /** One turn of delete_rebalance's loop at a black (or NULL) cursor
      below the root. A red sibling is rotated up first (the parent turns
      red and stays the cursor's parent); then BlackSiblingStep. The
      cursor moves up, or stays at the same depth and turns red, or the
      loop ends at the root. The keys in order do not change. */
  method RebalanceStep(p: seq<Frame>, t: Tree) returns (p': seq<Frame>, t': Tree, done: bool)
    requires DelInv(p, t) && p != [] && !IsRed(t)
    ensures DelInv(p', t') && Inorder(Plug(p', t')) == Inorder(Plug(p, t))
    ensures done ==> p' == []
    ensures !done ==> |p'| < |p| || (|p'| == |p| && IsRed(t'))
  {
    // side is n's side under its parent; the sibling of a short NULL is
    // never NULL, so this is what parent->rb_child[1] == n tests
    var side := p[0].side;
    var other := p[0].sib;
    var q := p;
    if IsRed(other) {
      var x := Rotate(Join(p[0].(c := Red, sib := Paint(other, Black)), t), side);
      RedSibling(p, t, x);
      q := [Down(Child(x, side), side), Down(x, side)] + p[1..];
    }
    p', t', done := BlackSiblingStep(q, t);
  }

  /** The rest of the turn, at a black sibling. With both its children
      black the sibling turns red and the parent becomes the cursor.
      Otherwise a black far child is first fixed by a rotation at the
      sibling (NearFix), and then the sibling takes the parent's colour,
      the parent and the far child turn black, a rotation at the parent
      finishes, and the cursor becomes the root. */
  method BlackSiblingStep(p: seq<Frame>, t: Tree) returns (p': seq<Frame>, t': Tree, done: bool)
    requires DelInv(p, t) && p != [] && !IsRed(t) && !IsRed(p[0].sib)
    ensures DelInv(p', t') && Inorder(Plug(p', t')) == Inorder(Plug(p, t))
    ensures done ==> p' == []
    ensures !done ==> p' == p[1..] && (p[0].c == Red ==> IsRed(t'))
  {
    DelFacts(p, t);
    var pf := p[0];
    var side := pf.side;
    var other := pf.sib;
    if !IsRed(Child(other, side)) && !IsRed(Child(other, Flip(side))) {
      BlackNephews(p, t);
      return p[1..], Join(pf.(sib := Paint(other, Red)), t), false;
    }
    var q := p;
    if !IsRed(Child(other, Flip(side))) {
      var o' := Rotate(WithChild(Paint(other, Red), side, Paint(Child(other, side), Black)), Flip(side));
      NearFix(other, side, o');
      SiblingSwap(p, t, o');
      pf := pf.(sib := o');
      q := [pf] + p[1..];
      other := o';
      assert q[1..] == p[1..];
    }
    var x := Rotate(Join(pf.(c := Black, sib := WithChild(Paint(other, pf.c), Flip(side),
                                                          Paint(Child(other, Flip(side)), Black))), t), side);
    FarRed(q, t, x);
    // n = s->rbt_root
    return [], Plug(q[1..], x), true;
  }
}
