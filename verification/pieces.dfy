/** The piece catalog and the tinting of a catalog shape into a piece. */
module Pieces {
  import opened Grid

  /** A catalog shape: 0 marks a gap, 1 a block. */
  type Shape = seq<seq<nat>>

  /** A piece's cells once tinted: each cell is Empty or the piece's colour. */
  type Struct = seq<seq<Cell>>

  /** A piece: its cells and the field position (row i, column j) of its top-left corner. */
  datatype Piece = Piece(struct: Struct, i: int, j: int)

  /** The outcome of the two random draws behind a new piece: a catalog index and a colour. */
  datatype Draw = Draw(kind: nat, color: Token)

  /** A value that may be absent (the source's `undefined` / `null`). */
  datatype Option<T> = None | Some(value: T)

  /** The seven catalog shapes, in the source's order. */
  const Structs: seq<Shape> := [
    [[0, 0, 0, 0],
     [1, 1, 1, 1],
     [0, 0, 0, 0],
     [0, 0, 0, 0]],
    [[1, 1],
     [1, 1]],
    [[0, 1, 0],
     [1, 1, 1],
     [0, 0, 0]],
    [[0, 1, 1],
     [1, 1, 0],
     [0, 0, 0]],
    [[1, 1, 0],
     [0, 1, 1],
     [0, 0, 0]],
    [[1, 0, 0],
     [1, 1, 1],
     [0, 0, 0]],
    [[0, 0, 1],
     [1, 1, 1],
     [0, 0, 0]]
  ]

  /** A non-empty matrix whose rows all have the first row's (non-zero) length. */
  predicate IsRect<T>(m: seq<seq<T>>) {
    |m| > 0 && |m[0]| > 0 && forall a :: 0 <= a < |m| ==> |m[a]| == |m[0]|
  }

  /** One shape row in a colour (game.js:105): each 0 stays empty, every other cell takes the colour. */
  function TintRow(row: seq<nat>, color: Token): (r: seq<Cell>)
    ensures |r| == |row|
  {
    if row == [] then [] else [if row[0] == 0 then Empty else Color(color)] + TintRow(row[1..], color)
  }

  /** A whole shape in one colour (game.js:105): TintRow on every row. */
  function Tint(shape: Shape, color: Token): (s: Struct)
    ensures |s| == |shape|
  {
    if shape == [] then [] else [TintRow(shape[0], color)] + Tint(shape[1..], color)
  }

  lemma {:induction false} TintRowAt(row: seq<nat>, color: Token)
    ensures forall b :: 0 <= b < |row| ==>
      TintRow(row, color)[b] == (if row[b] == 0 then Empty else Color(color))
  {
    if row != [] {
      TintRowAt(row[1..], color);
      forall b | 0 < b < |row|
        ensures TintRow(row, color)[b] == TintRow(row[1..], color)[b - 1]
      {
      }
    }
  }

  /** A tinted shape keeps the shape's layout; every block carries the one colour and every gap stays empty. */
  lemma {:induction false} TintAt(shape: Shape, color: Token)
    ensures |Tint(shape, color)| == |shape|
    ensures forall a :: 0 <= a < |shape| ==> |Tint(shape, color)[a]| == |shape[a]|
    ensures forall a, b :: 0 <= a < |shape| && 0 <= b < |shape[a]| ==>
      Tint(shape, color)[a][b] == (if shape[a][b] == 0 then Empty else Color(color))
  {
    if shape != [] {
      TintAt(shape[1..], color);
      TintRowAt(shape[0], color);
      forall a | 0 < a < |shape|
        ensures Tint(shape, color)[a] == Tint(shape[1..], color)[a - 1]
      {
      }
    }
  }

  /** Tinting keeps a rectangular shape rectangular. */
  lemma TintRect(shape: Shape, color: Token)
    requires IsRect(shape)
    ensures IsRect(Tint(shape, color)) && |Tint(shape, color)[0]| == |shape[0]|
  {
    TintAt(shape, color);
  }

  /** Every catalog shape is a rectangle of at most four rows and four columns. */
  lemma CatalogShapes()
    ensures forall k :: 0 <= k < |Structs| ==>
      IsRect(Structs[k]) && |Structs[k]| <= 4 && |Structs[k][0]| <= 4
  {
  }

  /** The cells of a new next piece: the drawn catalog shape tinted with the drawn colour. */
  function NewStruct(d: Draw): (s: Struct)
    requires d.kind < |Structs|
    ensures IsRect(s) && |s| == |Structs[d.kind]| && |s[0]| == |Structs[d.kind][0]|
  {
    CatalogShapes();
    TintRect(Structs[d.kind], d.color);
    Tint(Structs[d.kind], d.color)
  }

  /**
   * A new piece is one colour: its filled cells all carry the drawn colour
   * and its empty cells stay empty, exactly where the catalog shape has them.
   */
  lemma NewStructCells(d: Draw)
    requires d.kind < |Structs|
    ensures forall a :: 0 <= a < |Structs[d.kind]| ==> |NewStruct(d)[a]| == |Structs[d.kind][a]|
    ensures forall a, b :: 0 <= a < |Structs[d.kind]| && 0 <= b < |Structs[d.kind][a]| ==>
      NewStruct(d)[a][b] == if Structs[d.kind][a][b] == 0 then Empty else Color(d.color)
  {
    TintAt(Structs[d.kind], d.color);
  }

  /** Column where a new piece of the given width is placed (game.js:111): the floor of (W - width) / 2. */
  function SpawnColumn(width: nat): (c: int) {
    (W as int - width) / 2
  }

  /** The promoted piece placed at row `i` (default 0) and column `j` (default centred). */
  function Spawned(s: Struct, i: Option<int>, j: Option<int>): (p: Piece)
    requires IsRect(s)
  {
    Piece(s, if i.Some? then i.value else 0, if j.Some? then j.value else SpawnColumn(|s[0]|))
  }
}
