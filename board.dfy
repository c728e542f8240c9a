/** The board object: an N x N grid of marks updated in place, with the
    cursor search and the outcome scan that read it. */
module Board {
  import opened CellStates
  import opened Grid
  import opened Navigation
  import opened Evaluation

  class GameMatrix {
    const n: nat
    const grid: array2<CellState>
    /** The abstract value of the grid. */
    ghost var Contents: Cells

    ghost predicate Valid()
      reads this, grid
    {
      n >= 1 && grid.Length0 == n && grid.Length1 == n && IsSquare(Contents, n) &&
      forall r, c :: 0 <= r < n && 0 <= c < n ==> grid[r, c] == Contents[r][c]
    }

    /** A board of the given size with every cell Empty. */
    constructor Default(size: nat)
      requires size >= 1
      ensures Valid() && fresh(grid)
      ensures n == size && Contents == EmptyBoard(size)
    {
      n := size;
      grid := new CellState[size, size]((_, _) => Empty);
      Contents := EmptyBoard(size);
    }

    /** The dimension N of the board. */
    function Size(): (s: nat)
      reads this, grid
      requires Valid()
      ensures s >= 1 && IsSquare(Contents, s)
    {
      n
    }

    /** Whether (r, c) is on the board and holds Empty or Hover; false for
        every out-of-range pair. */
    function CellFree(r: nat, c: nat): (free: bool)
      reads this, grid
      requires Valid()
      ensures free == Free(Contents, r, c)
      ensures free ==> r < n && c < n
    {
      c < n && r < n && (grid[r, c] == Empty || grid[r, c] == Hover)
    }

    /** Writes v to (r, c) when it is on the board, over whatever the cell
        held; reports None and changes nothing otherwise. */
    method WriteToCell(r: nat, c: nat, v: CellState) returns (res: Option<()>)
      requires Valid()
      modifies this, grid
      ensures Valid()
      ensures res == None <==> r >= n || c >= n
      ensures Contents == Write(old(Contents), n, r, c, v)
    {
      if c >= n || r >= n {
        return None;
      }
      grid[r, c] := v;
      Contents := Contents[r := Contents[r][c := v]];
      return Some(());
    }

    /** Moves the cursor from (rIn, cIn) in the given direction until it
        is on a free cell. Returns the first free cell after the start in
        that direction's cyclic order, reached within N*N moves; the start
        is tested last, after a full lap. */
    method FirstFreeCell(rIn: nat, cIn: nat, direction: Direction) returns (r: nat, c: nat)
      requires Valid()
      requires exists fr: nat, fc: nat :: Free(Contents, fr, fc)
      ensures Free(Contents, r, c)
      ensures exists k :: 1 <= k <= n * n && Cursor(n, rIn, cIn, direction, k) == (r, c) &&
                          PassedOver(Contents, n, rIn, cIn, direction, k)
      ensures rIn < n && cIn < n && r == rIn && c == cIn ==>
              forall fr: nat, fc: nat :: Free(Contents, fr, fc) ==> fr == rIn && fc == cIn
    {
      ghost var fr: nat, fc: nat :| Free(Contents, fr, fc);
      CursorCovers(n, rIn, cIn, direction, fr, fc);
      ghost var target :| 1 <= target <= n * n && Cursor(n, rIn, cIn, direction, target) == (fr, fc);
      r, c := rIn, cIn;
      ghost var k := 0;
      while true
        invariant k < target
        invariant (r, c) == Cursor(n, rIn, cIn, direction, k)
        invariant PassedOver(Contents, n, rIn, cIn, direction, k + 1)
        decreases target - k
      {
        r, c := NextCell(r, c, direction);
        k := k + 1;
        if CellFree(r, c) {
          break;
        }
        assert !Free(Contents, r, c);
        assert k != target;
        PassedOverNext(Contents, n, rIn, cIn, direction, k);
      }
      if rIn < n && cIn < n && r == rIn && c == cIn {
        StartOnlyIfAlone(Contents, n, rIn, cIn, direction, k);
      }
    }

    /** One move of the cursor: the cell's linear position in the
        direction's order, one step forward or backward modulo N*N, and
        back to a cell. */
    method NextCell(r: nat, c: nat, direction: Direction) returns (r': nat, c': nat)
      requires n >= 1
      ensures (r', c') == Step(n, r, c, direction)
      ensures r < n && c < n ==> (r', c') == Neighbour(n, r, c, direction)
    {
      var idx := match direction
        case Right | Left => r * n + c
        case Up | Down => c * n + r;
      idx := match direction
        case Right | Down => (idx + 1) % (n * n)
        case Up | Left => (idx + n * n - 1) % (n * n);
      var next := match direction
        case Right | Left => (idx / n, idx % n)
        case Up | Down => (idx % n, idx / n);
      assert next == Step(n, r, c, direction);
      r', c' := next.0, next.1;
      if r < n && c < n {
        StepNeighbour(n, r, c, direction);
      }
    }

    /** Scans row 0, column 0, row 1, column 1, ..., the main diagonal and
        the anti-diagonal. A line that holds only Cross returns Win at
        once, one that holds only Circle returns Loss; a line that lacks
        Cross or Circle makes the result Unfinished instead of Tie. */
    method CheckWin() returns (w: WinState)
      requires Valid()
      ensures w == Outcome(Contents, n)
    {
      var out := Tie;
      var verdict: Option<WinState>;
      for i := 0 to n
        invariant NoUniformBefore(Contents, n, 2 * i)
        invariant out == Tentative(Contents, n, 2 * i)
      {
        // Row i (line 2i), then column i (line 2i + 1); both reset their
        // counters after the last cell.
        verdict, out := CheckLine(2 * i, true, out);
        if verdict.Some? {
          return verdict.value;
        }
        verdict, out := CheckLine(2 * i + 1, true, out);
        if verdict.Some? {
          return verdict.value;
        }
      }
      // The main diagonal (line 2N) and the anti-diagonal (line 2N + 1)
      // keep their counters.
      verdict, out := CheckLine(2 * n, false, out);
      if verdict.Some? {
        return verdict.value;
      }
      verdict, out := CheckLine(2 * n + 1, false, out);
      if verdict.Some? {
        return verdict.value;
      }
      OutcomeWithoutUniform(Contents, n);
      return out;
    }

    /** Line k of the scan, given that no earlier line was Uniform and out
        is the tentative result of the earlier lines: a Win or a Loss
        found on the line is the outcome of the board; otherwise out
        becomes Unfinished when one of the line's counters is 0. */
    method CheckLine(k: nat, reset: bool, out: WinState) returns (verdict: Option<WinState>, tentative: WinState)
      requires Valid() && k < LineCount(n)
      requires NoUniformBefore(Contents, n, k)
      requires out == Tentative(Contents, n, k)
      ensures verdict.Some? <==> Uniform(LineAt(Contents, n, k))
      ensures verdict.Some? ==> verdict.value == Outcome(Contents, n)
      ensures verdict.None? ==> NoUniformBefore(Contents, n, k + 1) && tentative == Tentative(Contents, n, k + 1)
    {
      var foundCircle, foundCross;
      verdict, foundCircle, foundCross := ScanLine(k, reset);
      if verdict.Some? {
        OutcomeAtFirstUniform(Contents, n, k);
        return verdict, out;
      }
      TentativeNext(Contents, n, k);
      NoUniformNext(Contents, n, k);
      tentative := out;
      if foundCircle == 0 || foundCross == 0 {
        tentative := Unfinished;
      }
    }

    /** Counts Circle and Cross along line k cell by cell, stops with Win
        as soon as every cell is Cross and with Loss as soon as every cell
        is Circle, and leaves the line as soon as both marks are seen.
        With reset, both counters are set back to 0 after the last cell
        (rows and columns do this, the diagonals do not). Without a
        verdict, both counters are positive exactly when the line holds
        both marks. */
    method ScanLine(k: nat, reset: bool) returns (verdict: Option<WinState>, foundCircle: nat, foundCross: nat)
      requires Valid() && k < LineCount(n)
      ensures verdict.Some? <==> Uniform(LineAt(Contents, n, k))
      ensures verdict == Some(Win) <==> AllOf(LineAt(Contents, n, k), Cross)
      ensures verdict == Some(Loss) <==> AllOf(LineAt(Contents, n, k), Circle)
      ensures verdict.None? ==> (foundCircle > 0 && foundCross > 0 <==> Mixed(LineAt(Contents, n, k)))
    {
      ghost var line := LineAt(Contents, n, k);
      foundCircle, foundCross := 0, 0;
      for j := 0 to n
        invariant !reset || j < n ==> foundCircle == Count(line[..j], Circle) && foundCross == Count(line[..j], Cross)
        invariant reset && j == n ==> foundCircle == 0 && foundCross == 0
        invariant j == n ==> !Uniform(line)
        invariant !Mixed(line[..j])
      {
        var cell := LineCell(n, k, j);
        assert grid[cell.0, cell.1] == line[j];
        match grid[cell.0, cell.1] {
          case Circle => foundCircle := foundCircle + 1;
          case Cross => foundCross := foundCross + 1;
          case _ =>
        }
        LineScanStep(line, j, foundCircle, foundCross);
        if foundCross == n {
          return Some(Win), foundCircle, foundCross;
        }
        if foundCircle == n {
          return Some(Loss), foundCircle, foundCross;
        }
        if foundCircle > 0 && foundCross > 0 {
          break;
        }
        if reset && j == n - 1 {
          foundCircle, foundCross := 0, 0;
        }
      }
      assert line[..n] == line;
      CountZero(line, Circle);
      CountZero(line, Cross);
      verdict := None;
    }
  }
}
