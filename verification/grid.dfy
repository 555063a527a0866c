/** The playfield: a fixed grid of cells, each empty or holding a colour token. */
module Grid {

  /** Width of the playfield in cells. */
  const W: nat := 12
  /**
   * Height of the playfield in rows, the two hidden spawn rows at the top
   * included; only drawing tells hidden rows apart, so no member does here.
   */
  const H: nat := 22

  /** A colour token such as "rgb(200,10,40)": never the empty string. */
  type Token = s: string | s != [] witness "rgb(192,0,0)"

  /** A field or piece cell: the source's `0`, or a colour token. */
  datatype Cell = Empty | Color(token: Token)

  type Row = seq<Cell>

  /** A fresh row of W empty cells. */
  function EmptyRow(): (r: Row) { seq(W, _ => Empty) }

  /** A row is full when none of its cells is empty. */
  predicate Full(row: Row) {
    forall c :: 0 <= c < |row| ==> row[c].Color?
  }

  /** H rows of W cells each. */
  predicate IsField(f: seq<Row>) {
    |f| == H && forall r :: 0 <= r < |f| ==> |f[r]| == W
  }

  /** The empty row is never full, so a clear never removes it. */
  lemma EmptyRowNotFull()
    ensures |EmptyRow()| == W && !Full(EmptyRow())
  {
    assert EmptyRow()[0] == Empty;
  }
}
