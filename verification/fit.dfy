/** The fit test: may a piece stand at its position shifted by an offset? */
module Fit {
  import opened Grid
  import opened Pieces

  /** The cell test of game.js:78: the row exists, the column exists in it, and the cell is empty. */
  predicate CellFree(f: seq<Row>, r: int, c: int) {
    0 <= r < |f| && 0 <= c < |f[r]| && f[r][c] == Empty
  }

  /** Every coloured cell of one piece row, laid from column c of field row r on, lands on a free cell (game.js:78). */
  predicate RowFits(f: seq<Row>, row: seq<Cell>, r: int, c: int)
    decreases |row|
  {
    row == [] || ((row[0] == Empty || CellFree(f, r, c)) && RowFits(f, row[1..], r, c + 1))
  }

  /** Every row of the piece, its first at field row r and column c, fits (game.js:77). */
  predicate StructFits(f: seq<Row>, s: Struct, r: int, c: int)
    decreases |s|
  {
    s == [] || (RowFits(f, s[0], r, c) && StructFits(f, s[1..], r + 1, c))
  }

  /** `fits` (game.js:76-80): the piece fits when shifted by (oi, oj). */
  predicate Fits(f: seq<Row>, p: Piece, oi: int, oj: int) {
    StructFits(f, p.struct, p.i + oi, p.j + oj)
  }

  lemma {:induction false} RowFitsIff(f: seq<Row>, row: seq<Cell>, r: int, c: int)
    ensures RowFits(f, row, r, c) <==>
      forall b :: 0 <= b < |row| && row[b].Color? ==> CellFree(f, r, c + b)
    decreases |row|
  {
    if row != [] {
      RowFitsIff(f, row[1..], r, c + 1);
      if RowFits(f, row, r, c) {
        forall b | 0 <= b < |row| && row[b].Color?
          ensures CellFree(f, r, c + b)
        {
          if b > 0 {
            assert row[1..][b - 1] == row[b];
          }
        }
      } else {
        if row[0] != Empty && !CellFree(f, r, c) {
        } else {
          var b' :| 0 <= b' < |row[1..]| && row[1..][b'].Color? && !CellFree(f, r, c + 1 + b');
          assert row[b' + 1].Color? && !CellFree(f, r, c + (b' + 1));
        }
      }
    }
  }

  lemma {:induction false} StructFitsIff(f: seq<Row>, s: Struct, r: int, c: int)
    ensures StructFits(f, s, r, c) <==>
      forall a, b :: 0 <= a < |s| && 0 <= b < |s[a]| && s[a][b].Color? ==> CellFree(f, r + a, c + b)
    decreases |s|
  {
    if s != [] {
      StructFitsIff(f, s[1..], r + 1, c);
      RowFitsIff(f, s[0], r, c);
      if StructFits(f, s, r, c) {
        forall a, b | 0 <= a < |s| && 0 <= b < |s[a]| && s[a][b].Color?
          ensures CellFree(f, r + a, c + b)
        {
          if a > 0 {
            assert s[1..][a - 1] == s[a];
          }
        }
      } else if !RowFits(f, s[0], r, c) {
      } else {
        var a', b' :| 0 <= a' < |s[1..]| && 0 <= b' < |s[1..][a']| && s[1..][a'][b'].Color?
          && !CellFree(f, r + 1 + a', c + b');
        assert s[a' + 1][b'].Color? && !CellFree(f, r + (a' + 1), c + b');
      }
    }
  }

  /**
   * A piece fits at an offset exactly when every coloured cell of it lands
   * on a row in [0, H), a column in [0, W), and an empty field cell; gaps of
   * the piece are never looked at.
   */
  lemma FitsIff(f: seq<Row>, p: Piece, oi: int, oj: int)
    requires IsField(f)
    ensures Fits(f, p, oi, oj) <==>
      forall a, b :: 0 <= a < |p.struct| && 0 <= b < |p.struct[a]| && p.struct[a][b].Color? ==>
        0 <= p.i + oi + a < H && 0 <= p.j + oj + b < W && f[p.i + oi + a][p.j + oj + b] == Empty
  {
    StructFitsIff(f, p.struct, p.i + oi, p.j + oj);
  }

  /** A piece with a block in its first column, standing at column 0, cannot move left. */
  lemma CannotMoveLeftAtWall(f: seq<Row>, p: Piece, a: nat)
    requires IsField(f) && p.j == 0
    requires a < |p.struct| && |p.struct[a]| > 0 && p.struct[a][0].Color?
    ensures !Fits(f, p, 0, -1)
  {
    FitsIff(f, p, 0, -1);
  }

  /** A piece with a block in some row below which the field ends cannot move down. */
  lemma CannotMoveDownAtFloor(f: seq<Row>, p: Piece, a: nat, b: nat)
    requires IsField(f) && p.i + a == H - 1
    requires a < |p.struct| && b < |p.struct[a]| && p.struct[a][b].Color?
    ensures !Fits(f, p, 1, 0)
  {
    FitsIff(f, p, 1, 0);
  }

  /** The field at start-up: every row empty. */
  const EmptyField: seq<Row> := seq(H, _ => EmptyRow())

  /**
   * On an empty field, every catalog shape, in any colour, fits at row 0 and
   * the default centred column.
   */
  lemma DefaultSpawnFits(d: Draw)
    requires d.kind < |Structs|
    ensures var p := Spawned(NewStruct(d), None, None);
      p.i == 0 && p.j == (W - |Structs[d.kind][0]|) / 2 && Fits(EmptyField, p, 0, 0)
  {
    CatalogShapes();
    var shape := Structs[d.kind];
    var p := Spawned(NewStruct(d), None, None);
    TintAt(shape, d.color);
    assert IsField(EmptyField);
    assert 0 <= p.j && p.j + |shape[0]| <= W;
    FitsIff(EmptyField, p, 0, 0);
  }
}
