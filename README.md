# Tic-tac-toe board engine in Dafny

This project models the board engine of a terminal tic-tac-toe game. That
engine is `src/cellstate.rs`, and the model covers:

- the cell marks (`Empty`, `Cross`, `Circle`, `Hover`) and their one-byte
  codes;
- the game outcomes (`Unfinished`, `Tie`, `Win`, `Loss`);
- the four cursor directions;
- the square board `GameMatrix` of size N.

The board operations modelled are creation, the size query, the
free-cell test, writing a mark, the cursor search for the next free cell,
and the outcome scan.

The source keeps all of this in the single file `src/cellstate.rs`. The
model splits that file by concern into these modules:

- `CellStates` (`cellstate.dfy`): the value types, the byte codes and the
  glyph of each mark. `u8` is a newtype over 0..255.
- `Grid` (`grid.dfy`): the abstract board `Cells`, a sequence of N rows of N
  marks, with writing and freeness on it.
- `Navigation` (`navigation.dfy`): the cursor.
  - Cells are numbered along a line of N*N positions. The order is
    row-major for Left and Right and column-major for Up and Down.
  - A move is one position forward (Right, Down) or backward (Up, Left),
    with wrap-around.
  - `Cursor` is the cell reached after k moves.
  - `Neighbour` names, in row and column terms, the cell a move reaches
    from a cell on the board; `StepNeighbour` proves that a move reaches it.
  - The lemmas prove that one lap of N*N moves visits every cell exactly
    once, and that for a start on the board the lap returns to the start.
- `Evaluation` (`evaluation.dfy`): the outcome as a function of the
  board.
  - The scan reads 2N+2 lines in this order: row 0, column 0, row 1,
    column 1, …, the main diagonal, then the anti-diagonal. Line 2i is
    row i, line 2i+1 is column i, line 2N is (j, j) and line 2N+1 is
    (j, N-1-j).
  - `Outcome` is decided by the first line that holds only one mark.
    That is a Win when the mark is Cross and a Loss when it is Circle.
  - Without such a line, the board is a Tie when every line holds both
    marks, and Unfinished otherwise.
- `Arith` (`arith.dfy`): facts about division and remainder that the
  cursor proofs use.
- `Board` (`board.dfy`): the class `GameMatrix`.
  - Its fields are the size `n` and the grid `array2<CellState>`. The grid
    is updated in place; a ghost `Contents` holds its abstract value.
  - `FirstFreeCell` and `CheckWin` are the source's loops, with
    invariants. `FirstFreeCell` is proved against `Cursor` and
    `PassedOver`, and `CheckWin` against `Outcome`.

Three readings of the code that the names and comments do not make
obvious:

- A line of Cross is a Win and a line of Circle is a Loss
  (`src/cellstate.rs:168-169`).
- The loop commented "Col" reads row i (`src/cellstate.rs:161-166`), and
  the loop commented "Row" reads column i (`src/cellstate.rs:183-187`). So
  the scan order is row 0, column 0, row 1, column 1, and so on.
- An outcome is Unfinished when some line lacks one of the two marks. It
  does not depend on whether empty cells remain, so a board that still
  has empty cells can be a Tie when every line holds both marks.

## Model

| member | source | states |
|---|---|---|
| CellStates.ToCode | src/cellstate.rs:29-38 | every mark has a code between 0 and 3 |
| CellStates.FromCode | src/cellstate.rs:40-50 | a code of at most 3 decodes to the mark whose code it is; larger codes are refused |
| CellStates.CodeRoundTrip | src/cellstate.rs:29-50 | decoding the code of any mark gives the mark back |
| CellStates.Glyph | src/cellstate.rs:52-65 | every mark is drawn as one of ' ', 'X', 'O', '@' |
| CellStates.GlyphInjective | src/cellstate.rs:57-62 | different marks are drawn as different characters |
| Grid.EmptyBoard | src/cellstate.rs:70-74 | the default board is N by N with every cell Empty |
| Grid.Write | src/cellstate.rs:142-148 | after a write the board is still N by N; an in-range target cell holds the new mark; every other cell is unchanged |
| Grid.Free | src/cellstate.rs:138-140 | a cell is free when it is on the board and holds Empty or Hover |
| Grid.WriteOutOfRange | src/cellstate.rs:143-145 | a write with the row or the column out of range leaves the board as it was |
| Grid.WriteThenFree | src/cellstate.rs:138-148 | after an in-range write the target is free exactly when the new mark is Empty or Hover; every other cell is as free as before |
| Board.GameMatrix.Default | src/cellstate.rs:70-74 | a new board of size N ≥ 1 is valid, freshly allocated and all Empty |
| Board.GameMatrix.Size | src/cellstate.rs:103-105 | the size is at least 1 and the board is that many rows of that many cells |
| Board.GameMatrix.CellFree | src/cellstate.rs:138-140 | true exactly when (r, c) is on the board and holds Empty or Hover; never true out of range |
| Board.GameMatrix.WriteToCell | src/cellstate.rs:142-148 | reports None exactly when the row or column is out of range; the new board is the old one with the mark written, so nothing changes on None |
| Board.GameMatrix.FirstFreeCell | src/cellstate.rs:107-136 | the returned cell is free; it is reached by some move k within one lap of N*N moves, and every cell reached before move k is occupied; when the result is the in-range start, the start is the board's only free cell |
| Board.GameMatrix.NextCell | src/cellstate.rs:115-128 | one loop iteration of the search moves the cursor one Step; from a cell on the board that is the neighbouring cell Neighbour names |
| Navigation.Advance | src/cellstate.rs:120-123 | the next linear position is below N*N |
| Navigation.Index | src/cellstate.rs:115-118 | the linear position of (r, c): r*N + c for Left and Right, c*N + r for Up and Down |
| Navigation.CoordOf | src/cellstate.rs:125-128 | the cell at a linear position: (idx / N, idx % N) for Left and Right, (idx % N, idx / N) for Up and Down |
| Navigation.Step | src/cellstate.rs:115-128 | one move from any cell, in range or not, lands on the board |
| Navigation.Neighbour | src/cellstate.rs:115-128 | the cell a move reaches in row and column terms: Right goes to the next column, then to the start of the next row, and from (N-1, N-1) to (0, 0); Left goes back the same way, from (0, 0) to (N-1, N-1); Down and Up do the same with rows and columns swapped |
| Navigation.StepNeighbour | src/cellstate.rs:115-128 | from every cell on the board, a move in each of the four directions reaches exactly the cell Neighbour names |
| Navigation.IndexRoundTrip | src/cellstate.rs:115-128 | the position of an in-range cell is below N*N and maps back to that cell, in both orders |
| Navigation.CoordRoundTrip | src/cellstate.rs:115-128 | every position below N*N is the position of an in-range cell |
| Navigation.StepUndo | src/cellstate.rs:115-128 | from an in-range cell, a move followed by a move in the opposite direction returns to the cell |
| Navigation.CursorPosition | src/cellstate.rs:113-133 | after k ≥ 1 moves the cursor is at linear position start ± k modulo N*N |
| Navigation.CursorCovers | src/cellstate.rs:113-133 | within N*N moves the cursor reaches every cell of the board |
| Navigation.CursorDistinct | src/cellstate.rs:113-133 | within one lap the cursor never visits the same cell twice |
| Navigation.CursorFullLap | src/cellstate.rs:113-133 | N*N moves in one direction return the cursor to an in-range start |
| Navigation.PassedOverNext | src/cellstate.rs:130-132 | a search that continues past an occupied cell has passed over every cell so far |
| Navigation.StartOnlyIfAlone | src/cellstate.rs:113-135 | if the search from an in-range start ends on the start itself, no other cell of the board is free |
| Navigation.SkipsOccupiedExample | src/cellstate.rs:113-135 | on a 3 by 3 board with (0, 1) occupied and (0, 2) free, the search from (0, 0) to the Right skips (0, 1) and stops at (0, 2) |
| Navigation.BackwardAsWritten | src/cellstate.rs:122 | the backward position as written fails exactly at position 0 and agrees with the intended move everywhere else |
| Navigation.BackwardFromOriginFails | src/cellstate.rs:122 | moving Left or Up from (0, 0) makes the subtraction as written fail |
| Navigation.BackwardWrapsAtOrigin | src/cellstate.rs:120-128 | the intended backward move from (0, 0) wraps to position N*N-1, the bottom-right cell, for both Left and Up |
| Evaluation.LineCell | src/cellstate.rs:160-237 | every cell of every scanned line (rows, columns, both diagonals) is on the board |
| Evaluation.FirstUniform | src/cellstate.rs:168-169 | the first line in scan order that holds only one mark, with no such line before it |
| Evaluation.Outcome | src/cellstate.rs:150-244 | the reference outcome: the first line in scan order that holds one mark only decides, Win for Cross and Loss for Circle; without such a line, Tie exactly when every line holds both marks, otherwise Unfinished |
| Evaluation.OutcomeMeaning | src/cellstate.rs:150-244 | Tie exactly when every line holds both marks; Win or Loss exactly when some line holds one mark only; a Win has a line of Cross, a Loss a line of Circle |
| Evaluation.OutcomeAtFirstUniform | src/cellstate.rs:168-169 | the first line in scan order holding one mark decides: Win for Cross, Loss for Circle |
| Evaluation.OutcomeWithoutUniform | src/cellstate.rs:178-243 | with no single-mark line, the outcome is Tie when every line is mixed and Unfinished otherwise |
| Evaluation.EmptyBoardUnfinished | src/cellstate.rs:159-243 | the empty board is Unfinished |
| Evaluation.FullBoardDecided | src/cellstate.rs:159-243 | a board full of Cross and Circle is never Unfinished, and is a Tie exactly when no line holds one mark only |
| Evaluation.OutcomeIgnoresHover | src/cellstate.rs:151-157 | replacing Empty by Hover or the reverse anywhere does not change the outcome |
| Evaluation.CrossTopRowWins | src/cellstate.rs:165-169 | a 3 by 3 board with a top row of Cross is a Win |
| Evaluation.ScanOrderDecides | src/cellstate.rs:160-169 | a top row of Circle is scanned before a middle row of Cross, so that board is a Loss |
| Evaluation.FullBoardTieExample | src/cellstate.rs:159-243 | a full 3 by 3 board with no single-mark line is a Tie |
| Evaluation.LineScanStep | src/cellstate.rs:165-172 | after counting cell j, the counters are the counts over the first j+1 cells; a full counter means the line holds that mark only; two positive counters mean the line holds both marks |
| Evaluation.TentativeNext | src/cellstate.rs:178-181 | a scanned line without a verdict keeps the running result when it holds both marks and makes it Unfinished otherwise |
| Evaluation.NoUniformNext | src/cellstate.rs:160-241 | a scanned line without a verdict extends the run of lines without one |
| Board.GameMatrix.CheckWin | src/cellstate.rs:150-244 | the scan returns exactly the Outcome of the board |
| Board.GameMatrix.CheckLine | src/cellstate.rs:162-181 | one line of the scan: a verdict exactly when the line holds one mark only, and then it is the board's outcome; otherwise the running result after one more line |
| Board.GameMatrix.ScanLine | src/cellstate.rs:162-177 | the counting loop over one line returns Win exactly for a line of Cross, Loss exactly for a line of Circle, and otherwise positive counters exactly when the line holds both marks |

## Left out

- The program entry point, the input loop and terminal drawing are not
  part of this model. The board's `Display` rendering
  (`src/cellstate.rs:76-100`) is left out; only the glyph of each mark is
  modelled.
- The const generic size N is modelled as a field `n` with N ≥ 1. With
  N = 0 the source divides by zero, so that case is not modelled.
- Board.GameMatrix.FirstFreeCell requires a free cell on the board. On a
  full board the source loops forever, and the model does not capture
  that non-termination.
- Board.GameMatrix.FirstFreeCell models the backward step as
  `(idx + N*N - 1) % (N*N)`. That is the release-build result of the
  source expression, which wraps. The debug-build failure at position 0
  is shown by Navigation.BackwardAsWritten under Findings.
- CellStates.FromCode turns the source's panic on codes above 3 into a
  precondition.
- Board.GameMatrix.FirstFreeCell uses unbounded integers instead of
  `usize`. So it does not capture an overflow of `r * N + c` for a start
  cell far outside the board; for starts on the board, no expression
  other than the backward step overflows.
- Board.GameMatrix.CheckWin changes nothing, so calling it again gives
  the same result. This follows from its `ensures` and is not stated as a
  separate lemma.

## Findings

| source | as written | input that shows it | evidently intended | confidence | as-written member | corrected member |
|---|---|---|---|---|---|---|
| src/cellstate.rs:122 | `(idx - 1 + N * N) % (N * N)` in `usize` subtracts first, which overflows at position 0 and panics in a debug build | `first_free_cell(0, 0, Direction::Left)` or `Direction::Up`, on any N and any board | the move wraps to position N*N-1, the bottom-right cell | not executed; follows from the checked subtraction of debug builds | Navigation.BackwardFromOriginFails | Navigation.BackwardWrapsAtOrigin |
