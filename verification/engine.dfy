/**
 * The game engine: the playfield, the active and next pieces, the score
 * counters and the pause / game-over flags, with the operations that change
 * them. Drawing, timers and the keyboard are not part of it; one run of the
 * fall timer is the method FallTick.
 */
module Engine {
  import opened Grid
  import opened Pieces
  import opened Rotation
  import opened Fit
  import opened Locking
  import opened Scoring
  import opened Clearing

  /** The multiplier's square at start-up: `scoreMultiplier = 1`. */
  const INITIAL_MULTIPLIER_SQ: nat := 1

  class Game {
    /** The H x W playfield, hidden rows included; its rows are replaced, the array never is. */
    const field: array<seq<Cell>>
    /** The falling piece; absent until the first spawn. */
    var active: Option<Piece>
    /** The cells of the piece shown as next; absent until the first spawn. */
    var next: Option<Struct>
    var rowsCleared: nat
    var score: nat
    /** The square of `scoreMultiplier`. */
    var multiplierSq: nat
    var isPaused: bool
    var isStopped: bool

    /** Field dimensions and well-formed pieces. */
    ghost predicate Shaped()
      reads this, field
    {
      IsField(field[..]) &&
      (active.Some? ==> IsRect(active.value.struct) && next.Some?) &&
      (next.Some? ==> IsRect(next.value))
    }

    /** Shaped, and the active piece fits where it stands unless the game is over. */
    ghost predicate Valid()
      reads this, field
    {
      Shaped() &&
      (active.Some? && !isStopped ==> Fits(field[..], active.value, 0, 0))
    }

    ghost function Counters(): Tally
      reads this
    {
      Tally(rowsCleared, score, multiplierSq)
    }

    /** The state at load time: an empty field, zero counters, no pieces, running. */
    constructor ()
      ensures Valid() && fresh(field)
      ensures field[..] == EmptyField
      ensures active.None? && next.None?
      ensures rowsCleared == 0 && score == 0 && multiplierSq == INITIAL_MULTIPLIER_SQ
      ensures !isPaused && !isStopped
    {
      field := new seq<Cell>[H](_ => EmptyRow());
      active, next := None, None;
      rowsCleared, score, multiplierSq := 0, 0, INITIAL_MULTIPLIER_SQ;
      isPaused, isStopped := false, false;
    }

    /**
     * `move(oi, oj)`: shifts the active piece by the offset when the game is
     * running and the piece fits there; otherwise changes nothing.
     */
    method Move(oi: int, oj: int) returns (ok: bool)
      requires Valid() && active.Some?
      modifies this`active
      ensures Valid()
      ensures ok == (!isStopped && !isPaused && Fits(field[..], old(active.value), oi, oj))
      ensures active == if ok then Some(old(active.value).(i := old(active.value).i + oi, j := old(active.value).j + oj))
                        else old(active)
      ensures ok ==> Fits(field[..], active.value, 0, 0)
    {
      if isStopped || isPaused {
        return false;
      }
      var p := active.value;
      if !Fits(field[..], p, oi, oj) {
        return false;
      }
      active := Some(p.(i := p.i + oi, j := p.j + oj));
      ok := true;
    }

    method MoveLeft() returns (ok: bool)
      requires Valid() && active.Some?
      modifies this`active
      ensures Valid()
      ensures ok == (!isStopped && !isPaused && Fits(field[..], old(active.value), 0, -1))
      ensures active == if ok then Some(old(active.value).(j := old(active.value).j - 1)) else old(active)
    {
      ok := Move(0, -1);
    }

    method MoveRight() returns (ok: bool)
      requires Valid() && active.Some?
      modifies this`active
      ensures Valid()
      ensures ok == (!isStopped && !isPaused && Fits(field[..], old(active.value), 0, 1))
      ensures active == if ok then Some(old(active.value).(j := old(active.value).j + 1)) else old(active)
    {
      ok := Move(0, 1);
    }

    method MoveDown() returns (ok: bool)
      requires Valid() && active.Some?
      modifies this`active
      ensures Valid()
      ensures ok == (!isStopped && !isPaused && Fits(field[..], old(active.value), 1, 0))
      ensures active == if ok then Some(old(active.value).(i := old(active.value).i + 1)) else old(active)
    {
      ok := Move(1, 0);
    }

    /**
     * `rotate()`: turns the active piece clockwise in place when the game is
     * running and the turned piece fits at the same position (no wall kicks);
     * otherwise changes nothing.
     */
    method Rotate() returns (ok: bool)
      requires Valid() && active.Some?
      modifies this`active
      ensures Valid()
      ensures ok == (!isStopped && !isPaused &&
                     Fits(field[..], old(active.value).(struct := Rotated(old(active.value).struct)), 0, 0))
      ensures active == if ok then Some(old(active.value).(struct := Rotated(old(active.value).struct)))
                        else old(active)
    {
      if isStopped || isPaused {
        return false;
      }
      var p := active.value;
      var rotated := Rotated(p.struct);
      RotateAt(p.struct);
      if !Fits(field[..], Piece(rotated, p.i, p.j), 0, 0) {
        return false;
      }
      active := Some(p.(struct := rotated));
      ok := true;
    }

    /**
     * `createPiece(type, i, j)`: the next piece becomes the active one, placed
     * at row `i` (default 0) and column `j` (default centred), and a new next
     * piece is drawn; the game stops when the placed piece does not fit. With
     * no next piece yet, the first draw only fills `next` and the call
     * repeats itself with the draw `retry`.
     */
    method CreatePiece(d: Draw, retry: Draw, i: Option<int>, j: Option<int>)
      requires Shaped() && d.kind < |Structs| && retry.kind < |Structs|
      modifies this`active, this`next, this`isStopped
      ensures Valid() && active.Some?
      ensures old(next).Some? ==>
        active == Some(Spawned(old(next.value), i, j)) && next == Some(NewStruct(d))
      ensures old(next).None? ==>
        active == Some(Spawned(NewStruct(d), i, j)) && next == Some(NewStruct(retry))
      ensures isStopped == (old(isStopped) || !Fits(field[..], active.value, 0, 0))
      decreases if next.None? then 1 else 0
    {
      var p := next;
      next := Some(NewStruct(d));
      if p.None? {
        // no piece was waiting, so there is no active piece either
        CreatePiece(retry, retry, i, j);
        return;
      }
      var placed := Spawned(p.value, i, j);
      active := Some(placed);
      if !Fits(field[..], placed, 0, 0) {
        isStopped := true;
      }
    }

    /**
     * The lock step of `_fall`: every coloured cell of the active piece is
     * written into the field cell under it.
     */
    method Lock()
      requires Shaped() && active.Some? && Fits(field[..], active.value, 0, 0)
      modifies field
      ensures Shaped()
      ensures field[..] == Stamp(old(field[..]), active.value)
    {
      var p := active.value;
      ghost var f0 := field[..];
      FitsIff(f0, p, 0, 0);
      var a := 0;
      while a < |p.struct|
        invariant 0 <= a <= |p.struct|
        invariant forall r :: 0 <= r < H ==> field[r] == if r - p.i < a then StampedRow(f0[r], p, r) else f0[r]
      {
        LockRow(p, a);
        a := a + 1;
      }
      forall r | 0 <= r < H
        ensures field[r] == Stamp(f0, p)[r]
      {
        if r - p.i >= |p.struct| {
          assert StampedRow(f0[r], p, r) == f0[r];
        }
      }
      assert field[..] == Stamp(f0, p);
      LockWritesExactly(f0, p);
    }

    /** Row a of the piece (game.js:168-171): each of its coloured cells is written into field row p.i + a, column p.j + its own column. */
    method LockRow(p: Piece, a: nat)
      requires field.Length == H && a < |p.struct|
      requires forall r :: 0 <= r < H ==> |field[r]| == W
      requires forall b :: 0 <= b < |p.struct[a]| && p.struct[a][b].Color? ==>
        0 <= p.i + a < H && 0 <= p.j + b < W
      modifies field
      ensures forall r :: 0 <= r < H && r != p.i + a ==> field[r] == old(field[r])
      ensures 0 <= p.i + a < H ==> field[p.i + a] == StampedRow(old(field[p.i + a]), p, p.i + a)
    {
      var r := p.i + a;
      var b := 0;
      while b < |p.struct[a]|
        invariant 0 <= b <= |p.struct[a]|
        invariant forall r' :: 0 <= r' < H && r' != r ==> field[r'] == old(field[r'])
        invariant 0 <= r < H ==> |field[r]| == W && forall c :: 0 <= c < W ==>
          field[r][c] == if Covers(p, r, c) && c - p.j < b then p.struct[a][c - p.j] else old(field[r])[c]
      {
        if p.struct[a][b].Color? {
          field[r] := field[r][p.j + b := p.struct[a][b]];
        }
        b := b + 1;
      }
    }

    /**
     * `clear()`: the bottom-up scan that removes full rows, counts them and
     * scores them.
     */
    method Clear()
      requires Shaped()
      modifies field, this`rowsCleared, this`score, this`multiplierSq
      ensures Shaped()
      ensures field[..] == ClearRows(old(field[..]), old(Counters())).rows
      ensures Counters() == ClearRows(old(field[..]), old(Counters())).tally
    {
      ghost var f0, t0 := field[..], Counters();
      var batch := 0;
      var i, l := H - 1, 0;
      while i >= l
        invariant Sweepable(field[..], i, l)
        invariant batch == l
        invariant Sweep(field[..], i, l, Counters()) == ClearRows(f0, t0)
        decreases i - l
      {
        if !Full(field[i]) {
          i := i - 1;
        } else {
          SweepRemoves(field[..], i, l, Counters());
          TakeRow(i, l);
          batch := batch + 1;
          l := l + 1;
        }
      }
      ClearFacts(f0, t0);
    }

    /**
     * One full row found at index i while l rows have already gone: it
     * is counted, the rows above it move down, an empty row is put in at
     * index l + 1, and the score grows by the batch bonus.
     */
    method TakeRow(i: int, l: nat)
      requires field.Length == H && l <= i < H && l + 1 < H
      modifies field, this`rowsCleared, this`score, this`multiplierSq
      ensures field[..] == ShiftDown(old(field[..]), i, l + 1)
      ensures Counters() == Removal(old(Counters()), l + 1)
    {
      rowsCleared := rowsCleared + 1;
      RemoveRow(i, l + 1);
      score := score + ScoreDelta(rowsCleared, l + 1, multiplierSq);
      multiplierSq := rowsCleared;
    }

    /**
     * The body of one removal (game.js:200-204): from index i down to l + 1,
     * each array slot takes the row above it, then slot l gets a fresh
     * empty row.
     */
    method RemoveRow(i: int, l: nat)
      requires field.Length == H && 1 <= l <= i + 1 && l < H && i < H
      modifies field
      ensures field[..] == ShiftDown(old(field[..]), i, l)
    {
      ghost var before := field[..];
      var k := i;
      while k > l
        invariant k <= i && (l <= k || k == i)
        invariant forall r :: 0 <= r < H && (r <= k || i < r) ==> field[r] == before[r]
        invariant forall r :: k < r <= i && r < H ==> field[r] == before[r - 1]
      {
        field[k] := field[k - 1];
        k := k - 1;
      }
      field[l] := EmptyRow();
      forall r | 0 <= r < H
        ensures field[r] == ShiftDown(before, i, l)[r]
      {
      }
    }

    /**
     * `play()`: while the game runs, clears full rows and brings the next
     * piece into play at its default position; otherwise does nothing. The
     * timer it then arms is the caller's next FallTick. The active piece
     * need not fit on entry: after a lock it overlaps its own cells.
     */
    method Play(d: Draw, retry: Draw)
      requires Shaped() && d.kind < |Structs| && retry.kind < |Structs|
      modifies field, this`rowsCleared, this`score, this`multiplierSq, this`active, this`next, this`isStopped
      ensures Shaped()
      ensures old(isStopped || isPaused) ==> unchanged(this, field)
      ensures !old(isStopped || isPaused) ==> Valid() && Played(old(field[..]), old(next), old(Counters()), d, retry)
    {
      if isStopped || isPaused {
        return;
      }
      Clear();
      CreatePiece(d, retry, None, None);
    }

    /**
     * The state after a `play()` that ran from field f0, next piece n0 and
     * counters t0: the field and counters are those of the clear, the next
     * piece (or, before the first spawn, the draw d) is in play at the
     * default position, and the game is over exactly when it does not fit.
     */
    ghost predicate Played(f0: seq<Row>, n0: Option<Struct>, t0: Tally, d: Draw, retry: Draw)
      reads this, field
    {
      IsField(f0) && d.kind < |Structs| && retry.kind < |Structs| &&
      (n0.Some? ==> IsRect(n0.value)) &&
      var o := ClearRows(f0, t0);
      field[..] == o.rows && Counters() == o.tally &&
      active == Some(if n0.Some? then Spawned(n0.value, None, None) else Spawned(NewStruct(d), None, None)) &&
      next == Some(if n0.Some? then NewStruct(d) else NewStruct(retry)) &&
      isPaused == false &&
      isStopped == !Fits(o.rows, active.value, 0, 0)
    }

    /**
     * `_fall()`, one run of the fall timer: while the game runs, the active
     * piece moves one row down if it can; otherwise it is locked into the
     * field, the landing bonus floor(multiplier) is scored and `play()`
     * follows.
     */
    method FallTick(d: Draw)
      requires Valid() && active.Some? && d.kind < |Structs|
      modifies field, this`rowsCleared, this`score, this`multiplierSq, this`active, this`next, this`isStopped
      ensures Valid() && active.Some?
      ensures old(isStopped || isPaused) ==> unchanged(this, field)
      ensures !old(isStopped || isPaused) ==> Ticked(old(field[..]), old(active.value), old(next), old(Counters()), d)
      ensures old(score) <= score && old(rowsCleared) <= rowsCleared
    {
      if isStopped || isPaused {
        return;
      }
      var moved := MoveDown();
      if moved {
        return;
      }
      ghost var f0, p0, t0 := field[..], active.value, Counters();
      Lock();
      score := score + LandingBonus(multiplierSq);
      ghost var t1 := Counters();
      ClearFacts(field[..], t1);
      Play(d, d);
    }

    /**
     * The state after a `_fall()` that ran from field f0, active piece p0,
     * next piece n0 and counters t0: either the piece is one row lower and
     * nothing else changed, or it could not move, was locked, the landing
     * bonus was scored and `play()` ran.
     */
    ghost predicate Ticked(f0: seq<Row>, p0: Piece, n0: Option<Struct>, t0: Tally, d: Draw)
      reads this, field
    {
      if Fits(f0, p0, 1, 0) then
        field[..] == f0 && Counters() == t0 && next == n0 &&
        active == Some(p0.(i := p0.i + 1)) && !isStopped && !isPaused
      else
        n0.Some? &&
        Played(Stamp(f0, p0), n0, t0.(score := t0.score + LandingBonus(t0.multiplierSq)), d, d)
    }

    /**
     * `pause(force)`: once the game is over it does nothing; a running game,
     * or any game when forced, becomes paused; a paused game resumes and the
     * fall timer runs at once.
     */
    method Pause(force: bool, d: Draw)
      requires Valid() && active.Some? && d.kind < |Structs|
      modifies field, this`rowsCleared, this`score, this`multiplierSq, this`active, this`next, this`isStopped, this`isPaused
      ensures Valid() && active.Some?
      ensures old(isStopped) ==> unchanged(this, field)
      ensures !old(isStopped) && (!old(isPaused) || force) ==>
        isPaused && field[..] == old(field[..]) && active == old(active) && next == old(next) &&
        Counters() == old(Counters()) && !isStopped
      ensures !old(isStopped) && old(isPaused) && !force ==>
        Ticked(old(field[..]), old(active.value), old(next), old(Counters()), d)
    {
      if isStopped {
        return;
      }
      if !isPaused || force {
        isPaused := true;
      } else {
        isPaused := false;
        FallTick(d);
      }
    }
  }
}
