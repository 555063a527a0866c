/**
 * Clockwise rotation of a piece's cells (game.js:128): row k of the result
 * is column k of the original, read from the bottom row up.
 */
module Rotation {
  import opened Grid
  import opened Pieces

  /** Every row of `m` has exactly `w` cells. */
  predicate Wide<T>(m: seq<seq<T>>, w: nat) {
    forall a :: 0 <= a < |m| ==> |m[a]| == w
  }

  /** Column k of `s`, top to bottom. */
  function Column(s: Struct, k: nat): (col: seq<Cell>)
    requires forall a :: 0 <= a < |s| ==> k < |s[a]|
    ensures |col| == |s|
  {
    if s == [] then [] else [s[0][k]] + Column(s[1..], k)
  }

  function Reverse<T>(xs: seq<T>): (r: seq<T>)
    ensures |r| == |xs|
  {
    if xs == [] then [] else Reverse(xs[1..]) + [xs[0]]
  }

  /** The reversed columns k, k+1, ..., w-1 of `s`, one per row. */
  function Turn(s: Struct, k: nat, w: nat): (t: Struct)
    requires k <= w && Wide(s, w)
    ensures |t| == w - k
    decreases w - k
  {
    if k == w then [] else [Reverse(Column(s, k))] + Turn(s, k + 1, w)
  }

  /** The rotated cells: row i of the result is column i of `s`, read bottom to top. */
  function Rotated(s: Struct): (r: Struct)
    requires IsRect(s)
  {
    Turn(s, 0, |s[0]|)
  }

  lemma {:induction false} ColumnAt(s: Struct, k: nat)
    requires forall a :: 0 <= a < |s| ==> k < |s[a]|
    ensures forall a :: 0 <= a < |s| ==> Column(s, k)[a] == s[a][k]
  {
    if s != [] {
      ColumnAt(s[1..], k);
      forall a | 0 < a < |s|
        ensures Column(s, k)[a] == Column(s[1..], k)[a - 1]
      {
      }
    }
  }

  lemma {:induction false} ReverseAt<T>(xs: seq<T>)
    ensures forall m :: 0 <= m < |xs| ==> Reverse(xs)[m] == xs[|xs| - 1 - m]
  {
    if xs != [] {
      ReverseAt(xs[1..]);
    }
  }

  lemma {:induction false} TurnAt(s: Struct, k: nat, w: nat)
    requires k <= w && Wide(s, w)
    ensures forall x :: 0 <= x < w - k ==> Turn(s, k, w)[x] == Reverse(Column(s, k + x))
    decreases w - k
  {
    if k < w {
      TurnAt(s, k + 1, w);
      forall x | 0 < x < w - k
        ensures Turn(s, k, w)[x] == Turn(s, k + 1, w)[x - 1]
      {
      }
    }
  }

  /**
   * Rotation swaps the dimensions and moves cell (n-1-b, a) of an n-row
   * matrix to (a, b): a clockwise quarter turn.
   */
  lemma RotateAt(s: Struct)
    requires IsRect(s)
    ensures IsRect(Rotated(s))
    ensures |Rotated(s)| == |s[0]| && |Rotated(s)[0]| == |s|
    ensures forall a, b :: 0 <= a < |s[0]| && 0 <= b < |s| ==>
      Rotated(s)[a][b] == s[|s| - 1 - b][a]
  {
    var w := |s[0]|;
    TurnAt(s, 0, w);
    forall a | 0 <= a < w
      ensures |Rotated(s)[a]| == |s|
      ensures forall b :: 0 <= b < |s| ==> Rotated(s)[a][b] == s[|s| - 1 - b][a]
    {
      ColumnAt(s, a);
      ReverseAt(Column(s, a));
    }
  }

  /** Four quarter turns give back the original cells. */
  lemma RotateFourTimes(s: Struct)
    requires IsRect(s)
    ensures IsRect(Rotated(s)) && IsRect(Rotated(Rotated(s))) && IsRect(Rotated(Rotated(Rotated(s))))
    ensures Rotated(Rotated(Rotated(Rotated(s)))) == s
  {
    var r1 := Rotated(s);
    RotateAt(s);
    var r2 := Rotated(r1);
    RotateAt(r1);
    var r3 := Rotated(r2);
    RotateAt(r2);
    var r4 := Rotated(r3);
    RotateAt(r3);
    assert |r4| == |s|;
    forall a | 0 <= a < |s|
      ensures r4[a] == s[a]
    {
      assert |r4[a]| == |s[a]|;
      forall b | 0 <= b < |s[a]|
        ensures r4[a][b] == s[a][b]
      {
      }
    }
  }

  // ---- counting the blocks ----

  function RowBlocks(row: seq<Cell>): (n: nat) {
    if row == [] then 0 else (if row[0].Color? then 1 else 0) + RowBlocks(row[1..])
  }

  /** The number of coloured cells of a piece. */
  function Blocks(s: Struct): (n: nat) {
    if s == [] then 0 else RowBlocks(s[0]) + Blocks(s[1..])
  }

  /** `row[k]` appended to the end of row k of `m`, for every k. */
  function Attach(m: Struct, row: seq<Cell>): (r: Struct)
    requires |row| == |m|
    ensures |r| == |m|
  {
    if m == [] then [] else [m[0] + [row[0]]] + Attach(m[1..], row[1..])
  }

  lemma {:induction false} RowBlocksAppend(xs: seq<Cell>, ys: seq<Cell>)
    ensures RowBlocks(xs + ys) == RowBlocks(xs) + RowBlocks(ys)
  {
    if xs != [] {
      assert (xs + ys)[1..] == xs[1..] + ys;
      RowBlocksAppend(xs[1..], ys);
    } else {
      assert xs + ys == ys;
    }
  }

  lemma {:induction false} BlocksAttach(m: Struct, row: seq<Cell>)
    requires |row| == |m|
    ensures Blocks(Attach(m, row)) == Blocks(m) + RowBlocks(row)
  {
    if m != [] {
      BlocksAttach(m[1..], row[1..]);
      RowBlocksAppend(m[0], [row[0]]);
      assert RowBlocks([row[0]]) == if row[0].Color? then 1 else 0 by {
        assert [row[0]][1..] == [];
      }
    }
  }

  /** Turning the columns of a matrix with first row `s[0]` attaches that row's tail to the turned rest. */
  lemma {:induction false} TurnPeel(s: Struct, k: nat, w: nat)
    requires s != [] && k <= w && Wide(s, w)
    ensures Turn(s, k, w) == Attach(Turn(s[1..], k, w), s[0][k..])
    decreases w - k
  {
    if k < w {
      TurnPeel(s, k + 1, w);
      var xs := Column(s, k);
      assert xs == [s[0][k]] + Column(s[1..], k);
      assert xs[1..] == Column(s[1..], k);
      assert s[0][k..][1..] == s[0][k + 1..];
    }
  }

  lemma {:induction false} BlocksTurn(s: Struct, w: nat)
    requires Wide(s, w)
    ensures Blocks(Turn(s, 0, w)) == Blocks(s)
    decreases |s|
  {
    if s == [] {
      BlocksNoColumns(w);
    } else {
      TurnPeel(s, 0, w);
      BlocksTurn(s[1..], w);
      BlocksAttach(Turn(s[1..], 0, w), s[0][0..]);
      assert s[0][0..] == s[0];
    }
  }

  lemma {:induction false} BlocksNoColumns(w: nat)
    ensures Blocks(Turn([], 0, w)) == 0
  {
    var t := Turn([], 0, w);
    TurnAt([], 0, w);
    BlocksOfEmptyRows(t);
  }

  lemma {:induction false} BlocksOfEmptyRows(t: Struct)
    requires forall x :: 0 <= x < |t| ==> t[x] == []
    ensures Blocks(t) == 0
  {
    if t != [] {
      BlocksOfEmptyRows(t[1..]);
    }
  }

  /** A rotated piece has as many blocks as the original. */
  lemma RotateKeepsBlocks(s: Struct)
    requires IsRect(s)
    ensures Blocks(Rotated(s)) == Blocks(s)
  {
    BlocksTurn(s, |s[0]|);
  }
}
