/** Locking: copying a landed piece's coloured cells into the field. */
module Locking {
  import opened Grid
  import opened Pieces
  import opened Fit

  /** Field cell (r, c) lies under a coloured cell of `p`. */
  predicate Covers(p: Piece, r: int, c: int) {
    0 <= r - p.i < |p.struct| && 0 <= c - p.j < |p.struct[r - p.i]| && p.struct[r - p.i][c - p.j].Color?
  }

  /** Field row r after the piece's coloured cells are written into it. */
  function StampedRow(row: Row, p: Piece, r: int): (g: Row)
    ensures |g| == |row|
  {
    seq(|row|, c requires 0 <= c < |row| =>
      if Covers(p, r, c) then p.struct[r - p.i][c - p.j] else row[c])
  }

  /** The field after the piece's coloured cells are written into it. */
  function Stamp(f: seq<Row>, p: Piece): (g: seq<Row>)
    ensures |g| == |f| && forall r :: 0 <= r < |f| ==> |g[r]| == |f[r]|
  {
    seq(|f|, r requires 0 <= r < |f| => StampedRow(f[r], p, r))
  }

  /**
   * Locking a piece that fits keeps the field's dimensions, writes the
   * piece's own cell into the field cell under each of its coloured cells
   * (all of which were empty), and changes no other cell.
   */
  lemma LockWritesExactly(f: seq<Row>, p: Piece)
    requires IsField(f) && Fits(f, p, 0, 0)
    ensures IsField(Stamp(f, p))
    ensures forall a, b :: 0 <= a < |p.struct| && 0 <= b < |p.struct[a]| && p.struct[a][b].Color? ==>
      0 <= p.i + a < H && 0 <= p.j + b < W &&
      f[p.i + a][p.j + b] == Empty && Stamp(f, p)[p.i + a][p.j + b] == p.struct[a][b]
    ensures forall r, c :: 0 <= r < H && 0 <= c < W ==>
      (Stamp(f, p)[r][c] != f[r][c] <==> Covers(p, r, c))
  {
    FitsIff(f, p, 0, 0);
    var g := Stamp(f, p);
    forall a, b | 0 <= a < |p.struct| && 0 <= b < |p.struct[a]| && p.struct[a][b].Color?
      ensures 0 <= p.i + a < H && 0 <= p.j + b < W && g[p.i + a][p.j + b] == p.struct[a][b]
    {
      assert Covers(p, p.i + a, p.j + b);
    }
    forall r, c | 0 <= r < H && 0 <= c < W && Covers(p, r, c)
      ensures g[r][c] != f[r][c]
    {
      var a, b := r - p.i, c - p.j;
      assert p.struct[a][b].Color? && f[p.i + a][p.j + b] == Empty;
    }
  }
}
