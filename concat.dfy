/** Sequences made of pieces laid end to end, as a writer that appends
    buffer after buffer to a file produces them, and where each piece
    lies in the result. Generic over the element type. */
module Concat {

  /** The pieces of `ws` one after the other. */
  function Flat<T>(ws: seq<seq<T>>): seq<T>
  {
    if ws == [] then [] else ws[0] + Flat(ws[1..])
  }

  /** Concatenation is associative. */
  lemma Assoc<T>(a: seq<T>, b: seq<T>, c: seq<T>)
    ensures a + (b + c) == (a + b) + c
  {
  }

  /** A prefix one longer is the prefix followed by the next element. */
  lemma TakeSnoc<T>(l: seq<T>, x: nat)
    requires x < |l|
    ensures l[..x + 1] == l[..x] + [l[x]]
  {
  }

  lemma {:induction false} FlatPiece<T>(ws: seq<seq<T>>, g: nat)
    requires g < |ws|
    ensures |Flat(ws[..g])| + |ws[g]| <= |Flat(ws)|
    ensures Flat(ws)[|Flat(ws[..g])|..|Flat(ws[..g])| + |ws[g]|] == ws[g]
    decreases g
  {
    var f := Flat(ws[1..]);
    assert Flat(ws) == ws[0] + f;
    if g > 0 {
      FlatPiece(ws[1..], g - 1);
      assert ws[1..][g - 1] == ws[g];
      assert ws[..g][1..] == ws[1..][..g - 1];
      var p := Flat(ws[1..][..g - 1]);
      assert Flat(ws[..g]) == ws[0] + p;
      assert (ws[0] + f)[|ws[0]| + |p|..|ws[0]| + |p| + |ws[g]|] == f[|p|..|p| + |ws[g]|];
    } else {
      assert ws[..g] == [];
      assert (ws[0] + f)[0..|ws[0]|] == ws[0];
    }
  }

  /** Appending one more piece. */
  lemma {:induction false} FlatSnoc<T>(ws: seq<seq<T>>, i: nat)
    requires i < |ws|
    ensures Flat(ws[..i + 1]) == Flat(ws[..i]) + ws[i]
    decreases i
  {
    if i > 0 {
      FlatSnoc(ws[1..], i - 1);
      assert ws[..i + 1][1..] == ws[1..][..i];
      assert ws[..i][1..] == ws[1..][..i - 1];
      assert ws[1..][i - 1] == ws[i];
    } else {
      assert ws[..1] == [ws[0]];
      assert ws[..1][1..] == [];
    }
  }

  /** Pieces that all have `n` elements make n * |ws| elements. */
  lemma {:induction false} FlatLen<T>(ws: seq<seq<T>>, n: nat)
    requires forall i :: 0 <= i < |ws| ==> |ws[i]| == n
    ensures |Flat(ws)| == n * |ws|
    decreases ws
  {
    if ws != [] {
      FlatLen(ws[1..], n);
    }
  }

  /** The first g pieces of width `n` end at n * g. */
  lemma {:induction false} FlatPrefixLen<T>(ws: seq<seq<T>>, n: nat, g: nat)
    requires g <= |ws| && forall i :: 0 <= i < |ws| ==> |ws[i]| == n
    ensures |Flat(ws[..g])| == n * g
  {
    FlatLen(ws[..g], n);
  }

  /** Piece g of pieces of width `n` lies at n * g. */
  lemma {:induction false} FixedPiece<T>(ws: seq<seq<T>>, n: nat, g: nat)
    requires g < |ws| && forall i :: 0 <= i < |ws| ==> |ws[i]| == n
    ensures n * g + n <= |Flat(ws)|
    ensures Flat(ws)[n * g..n * g + n] == ws[g]
  {
    FlatPiece(ws, g);
    FlatPrefixLen(ws, n, g);
  }

  /** A slice of `a` is a slice of anything that starts with `a`. */
  lemma {:induction false} InFront<T>(a: seq<T>, b: seq<T>, o: nat, p: seq<T>)
    requires o + |p| <= |a| && a[o..o + |p|] == p
    ensures (a + b)[o..o + |p|] == p
  {
    assert (a + b)[o..o + |p|] == a[o..o + |p|];
  }

  /** A slice of `b` moves by |a| once `a` is put in front of it. */
  lemma {:induction false} Behind<T>(a: seq<T>, b: seq<T>, o: nat, p: seq<T>)
    requires o + |p| <= |b| && b[o..o + |p|] == p
    ensures (a + b)[|a| + o..|a| + o + |p|] == p
  {
    assert (a + b)[|a| + o..|a| + o + |p|] == b[o..o + |p|];
  }

  /** A part of a piece found in `m` is found in `m` too. */
  lemma {:induction false} Within<T>(m: seq<T>, o: nat, p: seq<T>, x: nat, y: nat)
    requires o + |p| <= |m| && m[o..o + |p|] == p && x <= y <= |p|
    ensures m[o + x..o + y] == p[x..y]
  {
    forall k | 0 <= k < y - x
      ensures m[o + x..o + y][k] == p[x..y][k]
    {
      assert m[o + x..o + y][k] == m[o + x + k];
      assert m[o..o + |p|][x + k] == m[o + x + k];
    }
  }
}
