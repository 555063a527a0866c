/**
 * Row clearing: the bottom-up scan of `clear`, kept exactly as the source
 * runs it. `i` is the row being examined and `l` the number of rows removed
 * so far; removing full row i shifts rows l+1 .. i-1 down by one into
 * l+2 .. i and writes a fresh empty row at index l+1 (the new `l`). Row 0
 * is never written, and the empty rows gather at indices 1 .. l.
 */
module Clearing {
  import opened Grid
  import opened Scoring

  /** The counters a clear updates: `rowsCleared`, `score` and the square of `scoreMultiplier`. */
  datatype Tally = Tally(rowsCleared: nat, score: nat, multiplierSq: nat)

  /** Where a clear ends: the rows, the final `l` (rows removed in this call) and the counters. */
  datatype Outcome = Outcome(rows: seq<Row>, batch: nat, tally: Tally)

  /**
   * The counters after one more removed row, `batch` being the call's own
   * counter after its increment: the score grows by
   * floor(W * rowsCleared * batch * scoreMultiplier) with the multiplier
   * still the old one, then the multiplier becomes sqrt(rowsCleared).
   */
  function Removal(t: Tally, batch: nat): (r: Tally) {
    Tally(t.rowsCleared + 1, t.score + ScoreDelta(t.rowsCleared + 1, batch, t.multiplierSq), t.rowsCleared + 1)
  }

  /**
   * The rows after full row i is removed and the window bound has been raised to `l`: rows
   * l+1 .. i take the rows above them and row l becomes a fresh empty row.
   * With i == l - 1 nothing is shifted and only row l is overwritten.
   */
  function ShiftDown(rows: seq<Row>, i: int, l: nat): (g: seq<Row>)
    requires l < |rows|
  {
    seq(|rows|, r requires 0 <= r < |rows| =>
      if r == l then EmptyRow() else if l < r <= i then rows[r - 1] else rows[r])
  }

  /** The state the scan keeps between two iterations. */
  predicate Sweepable(rows: seq<Row>, i: int, l: nat) {
    IsField(rows) && -1 <= i < H && l <= i + 1 && l < H &&
    forall r :: 1 <= r <= l ==> rows[r] == EmptyRow()
  }

  /** The scan from row i while i >= l, as the loop of game.js:190-211 runs it. */
  function Sweep(rows: seq<Row>, i: int, l: nat, t: Tally): (o: Outcome)
    requires Sweepable(rows, i, l)
    decreases i - l + 1
  {
    if i < l then Outcome(rows, l, t)
    else if !Full(rows[i]) then Sweep(rows, i - 1, l, t)
    else
      assert EmptyRow()[0] == Empty;
      Sweep(ShiftDown(rows, i, l + 1), i, l + 1, Removal(t, l + 1))
  }

  /** `clear()`: the scan from the bottom row with no row removed yet. */
  function ClearRows(rows: seq<Row>, t: Tally): (o: Outcome)
    requires IsField(rows)
  {
    Sweep(rows, H - 1, 0, t)
  }

  /** One removal step of the scan: full row i is met with i >= l. */
  lemma SweepRemoves(rows: seq<Row>, i: int, l: nat, t: Tally)
    requires Sweepable(rows, i, l) && i >= l && Full(rows[i])
    ensures l + 1 < H && Sweepable(ShiftDown(rows, i, l + 1), i, l + 1)
    ensures Sweep(rows, i, l, t) == Sweep(ShiftDown(rows, i, l + 1), i, l + 1, Removal(t, l + 1))
  {
    EmptyRowNotFull();
  }

  // ---- what one scan guarantees ----

  lemma {:induction false} SweepShape(rows: seq<Row>, i: int, l: nat, t: Tally)
    requires Sweepable(rows, i, l)
    ensures var o := Sweep(rows, i, l, t);
      IsField(o.rows) && l <= o.batch < H && o.rows[0] == rows[0] &&
      forall r :: 1 <= r <= o.batch ==> o.rows[r] == EmptyRow()
    decreases i - l + 1
  {
    if i < l {
    } else if !Full(rows[i]) {
      SweepShape(rows, i - 1, l, t);
    } else {
      EmptyRowNotFull();
      SweepShape(ShiftDown(rows, i, l + 1), i, l + 1, Removal(t, l + 1));
    }
  }

  lemma {:induction false} SweepCounts(rows: seq<Row>, i: int, l: nat, t: Tally)
    requires Sweepable(rows, i, l)
    ensures var o := Sweep(rows, i, l, t);
      l <= o.batch &&
      o.tally.rowsCleared == t.rowsCleared + (o.batch - l) &&
      o.tally.score >= t.score &&
      (o.batch == l ==> o.tally == t) &&
      (o.batch > l ==> o.tally.multiplierSq == o.tally.rowsCleared)
    decreases i - l + 1
  {
    if i < l {
    } else if !Full(rows[i]) {
      SweepCounts(rows, i - 1, l, t);
    } else {
      EmptyRowNotFull();
      SweepCounts(ShiftDown(rows, i, l + 1), i, l + 1, Removal(t, l + 1));
    }
  }

  lemma {:induction false} SweepLeavesNoFullRow(rows: seq<Row>, i: int, l: nat, t: Tally)
    requires Sweepable(rows, i, l)
    requires forall r :: i < r < H ==> !Full(rows[r])
    ensures var o := Sweep(rows, i, l, t);
      |o.rows| == H && forall r :: o.batch <= r < H ==> !Full(o.rows[r])
    decreases i - l + 1
  {
    SweepShape(rows, i, l, t);
    if i < l {
    } else if !Full(rows[i]) {
      SweepLeavesNoFullRow(rows, i - 1, l, t);
    } else {
      EmptyRowNotFull();
      var g := ShiftDown(rows, i, l + 1);
      forall r | i < r < H
        ensures !Full(g[r])
      {
        if r == l + 1 {
          assert g[r] == EmptyRow();
        } else {
          assert g[r] == rows[r];
        }
      }
      SweepLeavesNoFullRow(g, i, l + 1, Removal(t, l + 1));
    }
  }

  /** Rows i down to j+1 that are not full are passed over without any change. */
  lemma {:induction false} SweepSkip(rows: seq<Row>, i: int, j: int, l: nat, t: Tally)
    requires Sweepable(rows, i, l) && l <= j + 1 && j <= i
    requires forall r :: j < r <= i ==> !Full(rows[r])
    ensures Sweepable(rows, j, l) && Sweep(rows, i, l, t) == Sweep(rows, j, l, t)
    decreases i - j
  {
    if j < i {
      SweepSkip(rows, i - 1, j, l, t);
    }
  }

  // ---- what `clear()` guarantees ----

  /**
   * A clear keeps H rows of W cells, never writes row 0, leaves the rows it
   * inserted as empty rows at indices 1 .. batch, and increases
   * `rowsCleared` by exactly the number of rows it removed; the score never
   * drops, the counters are untouched when nothing is removed, and
   * otherwise the multiplier ends as sqrt(rowsCleared).
   */
  lemma ClearFacts(rows: seq<Row>, t: Tally)
    requires IsField(rows)
    ensures var o := ClearRows(rows, t);
      IsField(o.rows) && o.batch < H && o.rows[0] == rows[0] &&
      (forall r :: 1 <= r <= o.batch ==> o.rows[r] == EmptyRow()) &&
      o.tally.rowsCleared == t.rowsCleared + o.batch &&
      o.tally.score >= t.score &&
      (o.batch == 0 ==> o.tally == t) &&
      (o.batch > 0 ==> o.tally.multiplierSq == o.tally.rowsCleared)
  {
    SweepShape(rows, H - 1, 0, t);
    SweepCounts(rows, H - 1, 0, t);
  }

  /** After a clear no row from index `batch` down to the bottom is full. */
  lemma ClearLeavesNoFullRow(rows: seq<Row>, t: Tally)
    requires IsField(rows)
    ensures var o := ClearRows(rows, t);
      |o.rows| == H && forall r :: o.batch <= r < H ==> !Full(o.rows[r])
  {
    SweepLeavesNoFullRow(rows, H - 1, 0, t);
  }

  /** With no full row a clear changes nothing: rows, counters and score. */
  lemma ClearIdle(rows: seq<Row>, t: Tally)
    requires IsField(rows)
    requires forall r :: 0 <= r < H ==> !Full(rows[r])
    ensures ClearRows(rows, t) == Outcome(rows, 0, t)
  {
    SweepSkip(rows, H - 1, -1, 0, t);
  }

  /**
   * Unless row 0 was full, a second clear right after a first finds no full
   * row and changes nothing.
   */
  lemma ClearTwice(rows: seq<Row>, t: Tally, t': Tally)
    requires IsField(rows) && !Full(rows[0])
    ensures IsField(ClearRows(rows, t).rows)
    ensures ClearRows(ClearRows(rows, t).rows, t') == Outcome(ClearRows(rows, t).rows, 0, t')
  {
    var o := ClearRows(rows, t);
    ClearFacts(rows, t);
    ClearLeavesNoFullRow(rows, t);
    EmptyRowNotFull();
    forall r | 0 <= r < H
      ensures !Full(o.rows[r])
    {
      if 1 <= r <= o.batch {
        assert o.rows[r] == EmptyRow();
      }
    }
    ClearIdle(o.rows, t');
  }

  /**
   * A single full row k below row 0 is removed: row 0 stays, whatever it
   * holds, a fresh empty row follows it, rows 1 .. k-1 move down by one,
   * rows below k stay, and the counters record one removal.
   */
  lemma ClearOneRow(rows: seq<Row>, k: nat, t: Tally)
    requires IsField(rows) && 1 <= k < H && Full(rows[k])
    requires forall r :: 1 <= r < H && r != k ==> !Full(rows[r])
    ensures ClearRows(rows, t) ==
      Outcome([rows[0], EmptyRow()] + rows[1..k] + rows[k + 1..], 1, Removal(t, 1))
  {
    SweepSkip(rows, H - 1, k, 0, t);
    SweepRemoves(rows, k, 0, t);
    var g := ShiftDown(rows, k, 1);
    ShiftedRowsNotFull(rows, k);
    SweepSkip(g, k, 0, 1, Removal(t, 1));
    assert Sweep(g, 0, 1, Removal(t, 1)) == Outcome(g, 1, Removal(t, 1));
    assert g == [rows[0], EmptyRow()] + rows[1..k] + rows[k + 1..];
  }

  /** After removing the only full row below row 0, rows 1 .. k hold no full row. */
  lemma ShiftedRowsNotFull(rows: seq<Row>, k: nat)
    requires IsField(rows) && 1 <= k < H
    requires forall r :: 1 <= r < H && r != k ==> !Full(rows[r])
    ensures forall r :: 1 <= r <= k ==> !Full(ShiftDown(rows, k, 1)[r])
  {
    EmptyRowNotFull();
    var g := ShiftDown(rows, k, 1);
    forall r | 1 <= r <= k
      ensures !Full(g[r])
    {
      if r > 1 {
        assert g[r] == rows[r - 1];
      }
    }
  }

  /**
   * The edge case of the scan: when row 0 is the only full row it is met
   * with i == l == 0, so `l` becomes 1, no row moves, row 1 is overwritten
   * by an empty row and the full row 0 stays where it is.
   */
  lemma ClearFullTopRow(rows: seq<Row>, t: Tally)
    requires IsField(rows) && Full(rows[0])
    requires forall r :: 1 <= r < H ==> !Full(rows[r])
    ensures ClearRows(rows, t) == Outcome(rows[1 := EmptyRow()], 1, Removal(t, 1))
    ensures Full(ClearRows(rows, t).rows[0])
  {
    SweepSkip(rows, H - 1, 0, 0, t);
    assert ShiftDown(rows, 0, 1) == rows[1 := EmptyRow()];
  }

  /**
   * A full row 0 is never removed, so every later clear meets it again: it
   * is counted and scored once more and row 1 is emptied once more.
   */
  lemma ClearFullTopRowAgain(rows: seq<Row>, t: Tally, t': Tally)
    requires IsField(rows) && Full(rows[0])
    requires forall r :: 1 <= r < H ==> !Full(rows[r])
    ensures IsField(ClearRows(rows, t).rows)
    ensures ClearRows(ClearRows(rows, t).rows, t') == Outcome(rows[1 := EmptyRow()], 1, Removal(t', 1))
  {
    ClearFullTopRow(rows, t);
    var g := rows[1 := EmptyRow()];
    EmptyRowNotFull();
    ClearFullTopRow(g, t');
    assert g[1 := EmptyRow()] == g;
  }

  /**
   * A full row 0 is met only by a clear that removes nothing else: once
   * another full row has been removed the window bound is 1 and the scan
   * stops before row 0, which stays full and is not counted.
   */
  lemma ClearShadowsTopRow(rows: seq<Row>, k: nat, t: Tally)
    requires IsField(rows) && Full(rows[0]) && 1 <= k < H && Full(rows[k])
    requires forall r :: 1 <= r < H && r != k ==> !Full(rows[r])
    ensures ClearRows(rows, t).batch == 1 && ClearRows(rows, t).tally == Removal(t, 1)
    ensures |ClearRows(rows, t).rows| == H && Full(ClearRows(rows, t).rows[0])
  {
    ClearOneRow(rows, k, t);
  }

  /**
   * The first row ever cleared, from the start-up counters (no row cleared,
   * multiplier 1), scores W points and leaves the multiplier at 1.
   */
  lemma FirstRowScores(rows: seq<Row>, k: nat, s: nat)
    requires IsField(rows) && 1 <= k < H && Full(rows[k])
    requires forall r :: 0 <= r < H && r != k ==> !Full(rows[r])
    ensures ClearRows(rows, Tally(0, s, 1)).tally == Tally(1, s + W, 1)
  {
    ClearOneRow(rows, k, Tally(0, s, 1));
    var r := ScoreDelta(1, 1, 1);
    assert r * r <= 144 < (r + 1) * (r + 1);
    if r > 12 {
      SquareMono(13, r);
    }
  }
}
