/** The abstract value of a board: N rows of N marks, row-major, so that
    b[r][c] is the cell in row r and column c. */
module Grid {
  import opened CellStates

  type Cells = seq<seq<CellState>>

  /** b has n rows of n cells each. */
  predicate IsSquare(b: Cells, n: nat) {
    |b| == n && forall i :: 0 <= i < n ==> |b[i]| == n
  }

  /** The board a game starts from: every cell Empty. */
  function EmptyBoard(n: nat): (b: Cells)
    ensures IsSquare(b, n)
    ensures forall r, c :: 0 <= r < n && 0 <= c < n ==> b[r][c] == Empty
  {
    seq(n, _ => seq(n, _ => Empty))
  }

  /** Cell (r, c) exists and holds Empty or Hover. */
  predicate Free(b: Cells, r: nat, c: nat) {
    r < |b| && c < |b[r]| && b[r][c].IsFree()
  }

  /** The board after writing v to cell (r, c); out-of-range writes change
      nothing. */
  function Write(b: Cells, n: nat, r: nat, c: nat, v: CellState): (b': Cells)
    requires IsSquare(b, n)
    ensures IsSquare(b', n)
    ensures r < n && c < n ==> b'[r][c] == v
    ensures forall i, j :: 0 <= i < n && 0 <= j < n && (i != r || j != c) ==> b'[i][j] == b[i][j]
  {
    if r < n && c < n then b[r := b[r][c := v]] else b
  }

  /** A write outside the board leaves it as it was. */
  lemma WriteOutOfRange(b: Cells, n: nat, r: nat, c: nat, v: CellState)
    requires IsSquare(b, n)
    requires r >= n || c >= n
    ensures Write(b, n, r, c, v) == b
  {
  }

  /** After writing v to an in-range cell, that cell is free exactly when v
      is Empty or Hover, and every other cell is as free as before. */
  lemma WriteThenFree(b: Cells, n: nat, r: nat, c: nat, v: CellState, i: nat, j: nat)
    requires IsSquare(b, n) && r < n && c < n
    ensures Free(Write(b, n, r, c, v), i, j) ==
            if i == r && j == c then v.IsFree() else Free(b, i, j)
  {
  }
}
