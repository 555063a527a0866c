# Falling-blocks game engine, modelled in Dafny

This project models the game state of `game.js`, a browser falling-blocks
game. It covers:

- the 22 x 12 playfield, whose top two rows are hidden;
- the catalog of seven shapes;
- the active and next pieces;
- the collision test `fits`;
- moves and clockwise rotation;
- locking a landed piece into the field;
- spawning a piece (`createPiece`);
- the bottom-up row clear and its scoring;
- the pause and game-over flags;
- one run of the fall timer (`_fall`) and `play()`.

Modules:

- `Grid`: cells, rows, the field's dimensions.
- `Pieces`: the shape catalog, tinting a shape with a colour, spawn placement.
- `Rotation`: the clockwise quarter turn and its properties.
- `Fit`: `fits` and its characterisation.
- `Locking`: the field after a piece is written into it.
- `Scoring`: the integer square root behind every `Math.floor(... * scoreMultiplier)`.
- `Clearing`: the row clear as a function of the field and the counters.
- `Engine`: the `Game` class. Its methods update the field array, the pieces, the counters and the flags in place. Each is proved against the functions above.

### Clearing, as written

The clear keeps a window bound `l`, which is the number of rows removed so
far in this call. A full row at index `i` is removed like this:

- rows `l .. i-1` move down by one;
- a fresh empty row is put in at index `l`, not at the top;
- row 0 is never written.

So the hidden top row keeps its contents, and the removed rows leave empty
rows at `1 .. batch`.

A full row at index 0 is the edge case. It is reached with `i = l = 0`:

- row 1 is replaced by an empty row;
- the full row 0 stays;
- one row is counted.

`Clearing.ClearFullTopRow` and `Clearing.ClearOneRow` state both behaviours.
Because a full row 0 is never removed, a later clear that finds no other
full row meets it again: it is counted and scored once more and row 1 is
emptied once more (`Clearing.ClearFullTopRowAgain`). A clear that removes
another full row first raises the window bound to 1 and stops before row 0,
which then stays full and is not counted (`Clearing.ClearShadowsTopRow`).

### Score multiplier

The source keeps `scoreMultiplier` as the float `sqrt(rowsCleared)`, starting
from 1. The model keeps its square, `multiplierSq`, exactly. Every
`Math.floor(k * scoreMultiplier)` is then the integer square root of
`k * k * multiplierSq`.

### Rows above the field

Rows above the field are closed: in `fits` (game.js:78) a cell above row 0
indexes a missing row and the test fails, so a piece cannot stick out upward
while spawning.

## Model

| member | source | states |
|---|---|---|
| Grid.EmptyRowNotFull | game.js:204 | the row a clear inserts has W cells and is never full, so a later scan never removes it |
| Grid.EmptyRow | game.js:204 | no contract of its own; a row of W empty cells, which Grid.EmptyRowNotFull characterises |
| Grid.Full | game.js:191 | no contract of its own; a row with no empty cell, the removal test that Grid.EmptyRowNotFull and Clearing.ClearLeavesNoFullRow are stated with |
| Pieces.CatalogShapes | game.js:25-61 | every catalog shape is a non-empty rectangle of at most 4 x 4 cells |
| Pieces.Structs | game.js:25-61 | no contract of its own; the seven shapes in source order, which Pieces.CatalogShapes characterises |
| Pieces.TintRow | game.js:105 | keeps the row's length; Pieces.TintAt characterises its cells |
| Pieces.Tint | game.js:105 | keeps the number of rows; Pieces.TintAt characterises its cells |
| Pieces.TintAt | game.js:103-106 | tinting keeps the shape's dimensions; a cell is empty exactly where the shape has 0 and holds the drawn colour elsewhere |
| Pieces.NewStruct | game.js:103-106 | a new next piece is a rectangle with the dimensions of the drawn catalog shape |
| Pieces.NewStructCells | game.js:103-106 | all filled cells of a new piece carry the one drawn colour; its empty cells are exactly the shape's zeros |
| Pieces.SpawnColumn | game.js:111 | no contract of its own; the default column floor((W - width) / 2), which Fit.DefaultSpawnFits places pieces at |
| Pieces.Spawned | game.js:110-111 | no contract of its own; the placement Engine.Game.CreatePiece uses, characterised by Fit.DefaultSpawnFits |
| Rotation.RotateAt | game.js:128 | the rotated struct is a rectangle with its dimensions swapped, and `rotated[a][b] == s[n-1-b][a]` (clockwise) |
| Rotation.Rotated | game.js:128 | no contract of its own; Rotation.RotateAt characterises it cell by cell |
| Rotation.RotateFourTimes | game.js:128 | four rotations give back the original struct |
| Rotation.RotateKeepsBlocks | game.js:128 | rotation keeps the number of filled cells |
| Fit.FitsIff | game.js:76-80 | a piece fits at an offset iff each coloured cell lands on a row in [0, H), a column in [0, W) and an empty field cell; gaps are never looked at |
| Fit.Fits | game.js:76-80 | no contract of its own; Fit.FitsIff characterises it |
| Fit.CellFree | game.js:78 | no contract of its own; the row exists, the column exists in it and the cell is empty, as used by Fit.FitsIff |
| Fit.RowFits | game.js:77-79 | no contract of its own; Fit.RowFitsIff characterises it |
| Fit.RowFitsIff | game.js:77-79 | one piece row fits iff each of its coloured cells lands on a free cell |
| Fit.StructFits | game.js:77-79 | no contract of its own; Fit.StructFitsIff characterises it |
| Fit.StructFitsIff | game.js:77-79 | the cells of a piece fit at a position iff each coloured cell lands on a free cell |
| Fit.EmptyField | game.js:15-18 | no contract of its own; H empty rows, the field Engine.Game.constructor builds and Fit.DefaultSpawnFits spawns on |
| Fit.CannotMoveLeftAtWall | game.js:76-80 | a piece at column 0 with a block in its first column does not fit at offset (0, -1) |
| Fit.CannotMoveDownAtFloor | game.js:76-80 | a piece with a block on the bottom row does not fit at offset (1, 0) |
| Fit.DefaultSpawnFits | game.js:110-111 | a new piece of any kind and colour, placed at row 0 and column floor((W - width) / 2), fits on an empty field |
| Locking.LockWritesExactly | game.js:166-171 | locking a fitting piece keeps the field H x W; each coloured cell lands in range on a cell that was empty and is written with that cell's colour; exactly the covered cells change |
| Locking.Stamp | game.js:166-171 | keeps the field's dimensions; Locking.LockWritesExactly characterises its cells |
| Locking.StampedRow | game.js:168-171 | keeps the row length; Locking.LockWritesExactly characterises its cells |
| Scoring.ISqrt | game.js:173 | the result is the largest r with r * r <= n |
| Scoring.LandingBonus | game.js:173 | the landing bonus is floor(sqrt(multiplierSq)), i.e. floor(scoreMultiplier) |
| Scoring.ScoreDeltaBounds | game.js:206 | a row's score is floor(W * rowsCleared * batch * sqrt(multiplierSq)), and at least W * rowsCleared * batch when the multiplier is at least 1 |
| Scoring.ScoreDelta | game.js:206 | no contract of its own; Scoring.ScoreDeltaBounds characterises it |
| Scoring.BatchBonus | game.js:206 | the second row of a batch scores strictly more than a row cleared alone with the same totals |
| Clearing.Removal | game.js:196-207 | no contract of its own; Clearing.SweepCounts and Clearing.ClearFacts state what the removals do to the counters |
| Clearing.ShiftDown | game.js:200-204 | no contract of its own; Engine.Game.RemoveRow is proved against it and Clearing.ClearOneRow shows its effect |
| Clearing.Sweep | game.js:190-211 | no contract of its own; Clearing.SweepShape, Clearing.SweepCounts, Clearing.SweepLeavesNoFullRow and Clearing.SweepSkip characterise it |
| Clearing.ClearRows | game.js:188-214 | no contract of its own; Clearing.ClearFacts, Clearing.ClearLeavesNoFullRow, Clearing.ClearIdle and Clearing.ClearTwice characterise it |
| Clearing.SweepShape | game.js:190-211 | a scan keeps the field H x W, never writes row 0 and leaves rows 1 .. batch empty |
| Clearing.SweepCounts | game.js:196-207 | a scan adds exactly its removals to rowsCleared, never lowers the score, changes no counter without a removal, and leaves the multiplier at sqrt(rowsCleared) after one |
| Clearing.SweepLeavesNoFullRow | game.js:190-194 | after a scan no row from the final `l` to the bottom is full |
| Clearing.SweepSkip | game.js:191-193 | rows that are not full are passed over without any change |
| Clearing.ClearFacts | game.js:188-211 | a clear keeps the field H x W and row 0, leaves rows 1 .. batch empty, adds batch to rowsCleared, never lowers the score, changes no counter when nothing is removed, and sets the multiplier to sqrt(rowsCleared) when something is |
| Clearing.ClearLeavesNoFullRow | game.js:190-211 | after a clear no row from index batch to the bottom is full |
| Clearing.ClearIdle | game.js:190-193 | on a field with no full row a clear changes neither the field nor any counter |
| Clearing.ClearTwice | game.js:188-211 | unless row 0 is full, a second clear right after a first changes nothing |
| Clearing.ClearOneRow | game.js:195-210 | a single full row `k >= 1` below row 0 is removed; row 0 stays whatever it holds, the rows above k move down below it, an empty row appears at 1, one row is counted and scored |
| Clearing.ClearFullTopRow | game.js:195-210 | a full row 0 alone makes the clear empty row 1, leave row 0 full and count one row |
| Clearing.FirstRowScores | game.js:196-207 | from the start-up counters (no row cleared, multiplier 1), clearing one full row scores W points and leaves rowsCleared and the multiplier at 1 |
| Clearing.ClearFullTopRowAgain | game.js:190-204 | a full row 0 is met again by the next clear: row 1 is emptied again and one more row is counted and scored |
| Clearing.ClearShadowsTopRow | game.js:190-204 | when row 0 and one other row are full, only the other row is removed and counted; the scan stops before row 0, which stays full |
| Engine.Game.constructor | game.js:15-23 | the game starts with an empty H x W field, zero counters, multiplier 1, no pieces, neither paused nor stopped |
| Engine.Game.Move | game.js:136-144 | `move` succeeds iff the game runs and the piece fits at the offset; on success only `i` and `j` change, by the offset, and the piece fits there; otherwise nothing changes |
| Engine.Game.MoveLeft | game.js:147-149 | a move by (0, -1) |
| Engine.Game.MoveRight | game.js:152-154 | a move by (0, 1) |
| Engine.Game.MoveDown | game.js:157-159 | a move by (1, 0) |
| Engine.Game.Rotate | game.js:124-133 | `rotate` succeeds iff the game runs and the rotated struct fits at the same position; on success only the struct changes, to its rotation; otherwise nothing changes |
| Engine.Game.CreatePiece | game.js:99-121 | the old next piece becomes active at row `i` (default 0) and column `j` (default centred); a new next piece is drawn; the game stops iff the placed piece does not fit; with no next piece the call repeats itself with a second draw |
| Engine.Game.Lock | game.js:166-171 | the field after locking is the field with the piece's coloured cells written in |
| Engine.Game.LockRow | game.js:168-171 | one piece row writes its coloured cells into its field row and changes no other row |
| Engine.Game.Clear | game.js:188-214 | the field and counters after the loop are those the clear function gives for the field and counters before it |
| Engine.Game.TakeRow | game.js:196-209 | one removal step: rows shift down, an empty row goes in, and the counters take one removal |
| Engine.Game.RemoveRow | game.js:200-204 | the row shift of one removal |
| Engine.Game.Play | game.js:298-304 | when stopped or paused nothing changes; otherwise the field is cleared, the next piece is brought into play and the game stops iff it does not fit |
| Engine.Game.FallTick | game.js:162-178 | when stopped or paused nothing changes; otherwise the piece moves down one row if it fits there, else it is locked, the landing bonus is scored and `play()` runs; score and rowsCleared never decrease |
| Engine.Game.Pause | game.js:307-316 | stopped: no change; running or forced: paused and nothing else changes; paused and not forced: resumed, and one fall tick runs |

## Left out

- Drawing the field and the preview (game.js:63-73, 217-295) and `requestAnimationFrame`: rendering only.
- The timers. `setTimeout` in `fall` and `clearTimeout` in `pause` are not modelled. One run of the timer is the method `FallTick`, which the environment calls. `fall()`, which `_fall` calls after a successful move down (game.js:164) and `play()` calls last (game.js:303), only arms the timer.
- The keyboard listener (game.js:319-339): event wiring. Its targets `Rotate`, `MoveDown`, `MoveRight`, `MoveLeft` and `Pause` are modelled.
- `getRandomStruct` and `randomColor` (game.js:83-96) use `Math.random`. A draw (shape index, non-empty colour token) is passed in instead. The self-call of `createPiece` takes a second draw.
- `fallInterval` (game.js:208): a float that only sets the timer delay.
- Floating-point rounding of `Math.sqrt` and of the float products in the score: the model uses exact arithmetic.
- `scoreSpan.innerText` and `console.log` (game.js:115, 174, 209-210): display output.
- Pieces are values in the game's fields rather than shared objects updated in place. The source never aliases the active and next pieces, so nothing observable is lost.
- Field rows are sequence values in an array. A row is replaced when a cell is written, not updated in place. After a clear, rows are never shared between array slots.
