/** The cursor search of the board: cells are laid out on a line of N*N
    positions (row-major for Left and Right, column-major for Up and Down),
    the cursor moves one position forward or backward with wrap-around,
    and the search repeats that step until it lands on a free cell. */
module Navigation {
  import opened CellStates
  import opened Grid
  import Arith

  /** The linear position of (r, c) in the traversal order of d. */
  function Index(n: nat, d: Direction, r: nat, c: nat): nat {
    match d
    case Right | Left => r * n + c
    case Up | Down => c * n + r
  }

  /** One position forward (Right, Down) or backward (Up, Left), modulo
      N*N; the backward step adds N*N - 1 so that it never goes below 0. */
  function Advance(n: nat, d: Direction, idx: nat): (next: nat)
    requires n >= 1
    ensures next < n * n
  {
    Arith.MulAtLeast(n, n);
    match d
    case Right | Down => (idx + 1) % (n * n)
    case Up | Left => (idx + n * n - 1) % (n * n)
  }

  /** The cell at linear position idx in the traversal order of d. */
  function CoordOf(n: nat, d: Direction, idx: nat): (nat, nat)
    requires n >= 1
  {
    match d
    case Right | Left => (idx / n, idx % n)
    case Up | Down => (idx % n, idx / n)
  }

  /** One move of the cursor from (r, c) in direction d. */
  function Step(n: nat, r: nat, c: nat, d: Direction): (p: (nat, nat))
    requires n >= 1
    ensures p.0 < n && p.1 < n
  {
    var next := Advance(n, d, Index(n, d, r, c));
    CoordRoundTrip(n, d, next);
    CoordOf(n, d, next)
  }

  /** Where the cursor is after k moves from (r0, c0). */
  function Cursor(n: nat, r0: nat, c0: nat, d: Direction, k: nat): (nat, nat)
    requires n >= 1
  {
    if k == 0 then (r0, c0)
    else
      var p := Cursor(n, r0, c0, d, k - 1);
      Step(n, p.0, p.1, d)
  }

  /** The linear position k moves from start on a line of m positions. */
  function Shift(d: Direction, start: int, k: int, m: int): int
    requires m > 0
  {
    match d
    case Right | Down => (start + k) % m
    case Up | Left => (start - k) % m
  }

  /** The linear position after k moves, in closed form. */
  function Position(n: nat, r0: nat, c0: nat, d: Direction, k: nat): int
    requires n >= 1
  {
    Arith.MulAtLeast(n, n);
    Shift(d, Index(n, d, r0, c0), k, n * n)
  }

  /** Every position of [0, m) is reached within m moves. */
  lemma ShiftCovers(d: Direction, start: int, p: int, m: int)
    requires m > 0 && 0 <= p < m
    ensures exists k :: 1 <= k <= m && Shift(d, start, k, m) == p
  {
    Arith.ModSmall(p, m);
    match d
    case Right | Down =>
      var k := (p - start - 1) % m + 1;
      Arith.ModAddLeft(p - start - 1, start + 1, m);
      assert Shift(d, start, k, m) == p;
    case Up | Left =>
      var k := (start - p - 1) % m + 1;
      Arith.ModSubLeft(start - p - 1, start - 1, m);
      assert Shift(d, start, k, m) == p;
  }

  /** Different move counts within one lap give different positions. */
  lemma ShiftDistinct(d: Direction, start: int, j: int, k: int, m: int)
    requires m > 0 && 1 <= j < k <= m
    ensures Shift(d, start, j, m) != Shift(d, start, k, m)
  {
    match d
    case Right | Down =>
      Arith.ModDistinct(start + j, k - j, m);
    case Up | Left =>
      Arith.ModDistinct(start - k, k - j, m);
  }

  /** m moves return to an in-range start. */
  lemma ShiftFullLap(d: Direction, start: int, m: int)
    requires 0 <= start < m
    ensures Shift(d, start, m, m) == start
  {
    Arith.ModSmall(start, m);
    match d
    case Right | Down =>
      Arith.ModAddMultiple(start, 1, m);
    case Up | Left =>
      Arith.ModAddMultiple(start, -1, m);
  }

  /** One more move is one more Advance. */
  lemma ShiftNext(d: Direction, start: int, k: int, m: int)
    requires m > 0
    ensures 0 <= Shift(d, start, k, m) < m
    ensures Shift(d, start, k + 1, m) ==
            if d == Right || d == Down then (Shift(d, start, k, m) + 1) % m
            else (Shift(d, start, k, m) + m - 1) % m
  {
    if d == Right || d == Down {
      assert Shift(d, start, k + 1, m) == (start + k + 1) % m;
      Arith.ModAddLeft(start + k, 1, m);
    } else {
      assert Shift(d, start, k + 1, m) == (start - k - 1) % m;
      BackwardNext(start - k, m);
    }
  }

  lemma BackwardNext(x: int, m: int)
    requires m > 0
    ensures (x - 1) % m == (x % m + m - 1) % m
  {
    Arith.ModAddLeft(x, m - 1, m);
    Arith.ModAddMultiple(x - 1, 1, m);
  }

  /** The backward position exactly as the search computes it, idx - 1 +
      N*N, in checked unsigned arithmetic: the subtraction is evaluated
      first, so at position 0 it fails (a panic in a debug build) instead
      of wrapping. Everywhere else it agrees with Advance. */
  function BackwardAsWritten(n: nat, idx: nat): (next: Option<nat>)
    requires n >= 1
    ensures next.None? <==> idx == 0
    ensures idx > 0 ==> next == Some(Advance(n, Left, idx)) && next == Some(Advance(n, Up, idx))
  {
    if idx == 0 then None else Some((idx - 1 + n * n) % (n * n))
  }

  /** Moving Left or Up from the top-left cell reaches position 0 of the
      traversal, where the subtraction as written fails. */
  lemma BackwardFromOriginFails(n: nat)
    requires n >= 1
    ensures BackwardAsWritten(n, Index(n, Left, 0, 0)) == None
    ensures BackwardAsWritten(n, Index(n, Up, 0, 0)) == None
  {
  }

  /** The intended backward move from the top-left cell wraps to the last
      position, which is the bottom-right cell in both orders. */
  lemma BackwardWrapsAtOrigin(n: nat)
    requires n >= 1
    ensures Advance(n, Left, Index(n, Left, 0, 0)) == n * n - 1
    ensures Step(n, 0, 0, Left) == (n - 1, n - 1) && Step(n, 0, 0, Up) == (n - 1, n - 1)
  {
    Arith.LinearRoundTrip(n - 1, n - 1, n);
    assert (n - 1) * n + (n - 1) == n * n - 1;
    Arith.ModSmall(n * n - 1, n * n);
  }

  /** The move that undoes a move in direction d. */
  function Opposite(d: Direction): Direction {
    match d
    case Up => Down
    case Down => Up
    case Left => Right
    case Right => Left
  }

  /** Row-major and column-major numbering are bijections from the cells
      onto [0, N*N): the position of an in-range cell is in range and maps
      back to the cell. */
  lemma IndexRoundTrip(n: nat, d: Direction, r: nat, c: nat)
    requires n >= 1 && r < n && c < n
    ensures Index(n, d, r, c) < n * n
    ensures CoordOf(n, d, Index(n, d, r, c)) == (r, c)
  {
    match d
    case Right | Left =>
      Arith.LinearRoundTrip(r, c, n);
    case Up | Down =>
      Arith.LinearRoundTrip(c, r, n);
  }

  /** ... and every position in [0, N*N) is the position of an in-range
      cell. */
  lemma CoordRoundTrip(n: nat, d: Direction, idx: nat)
    requires n >= 1 && idx < n * n
    ensures CoordOf(n, d, idx).0 < n && CoordOf(n, d, idx).1 < n
    ensures Index(n, d, CoordOf(n, d, idx).0, CoordOf(n, d, idx).1) == idx
  {
    var q := idx / n;
    if q >= n {
      Arith.MulMonotone(n, q, n);
    }
  }

  /** A move followed by the opposite move returns to an in-range start:
      Right undoes Left, Down undoes Up, and the other way round. */
  lemma StepUndo(n: nat, r: nat, c: nat, d: Direction)
    requires n >= 1 && r < n && c < n
    ensures var p := Step(n, r, c, d); Step(n, p.0, p.1, Opposite(d)) == (r, c)
  {
    var m := n * n;
    Arith.MulAtLeast(n, n);
    var idx := Index(n, d, r, c);
    IndexRoundTrip(n, d, r, c);
    var next := Advance(n, d, idx);
    CoordRoundTrip(n, d, next);
    assert Index(n, Opposite(d), CoordOf(n, d, next).0, CoordOf(n, d, next).1) == next;
    match d
    case Right | Down =>
      assert next == (idx + 1) % m;
      Arith.ModAddLeft(idx + 1, m - 1, m);
      Arith.ModAddMultiple(idx, 1, m);
      Arith.ModSmall(idx, m);
      assert Advance(n, Opposite(d), next) == idx;
    case Up | Left =>
      assert next == (idx + m - 1) % m;
      Arith.ModAddLeft(idx + m - 1, 1, m);
      Arith.ModAddMultiple(idx, 1, m);
      Arith.ModSmall(idx, m);
      assert Advance(n, Opposite(d), next) == idx;
  }

  /** The cell a move reaches, read off the board: Right goes to the next
      column and wraps to the start of the next row, Left to the previous
      column and wraps to the end of the previous row; Down and Up do the
      same with rows and columns swapped. The last cell of the order wraps
      to (0, 0) and (0, 0) backwards to (N-1, N-1). */
  function Neighbour(n: nat, r: nat, c: nat, d: Direction): (nat, nat)
    requires n >= 1
  {
    match d
    case Right =>
      if c + 1 < n then (r, c + 1) else if r + 1 < n then (r + 1, 0) else (0, 0)
    case Left =>
      if c > 0 then (r, c - 1) else if r > 0 then (r - 1, n - 1) else (n - 1, n - 1)
    case Down =>
      if r + 1 < n then (r + 1, c) else if c + 1 < n then (0, c + 1) else (0, 0)
    case Up =>
      if r > 0 then (r - 1, c) else if c > 0 then (n - 1, c - 1) else (n - 1, n - 1)
  }

  /** One position forward in row-major order from (a, b). */
  lemma ForwardNeighbour(n: nat, a: nat, b: nat)
    requires n >= 1 && a < n && b < n
    ensures var next := (a * n + b + 1) % (n * n);
            (next / n, next % n) ==
            if b + 1 < n then (a, b + 1) else if a + 1 < n then (a + 1, 0) else (0, 0)
  {
    if b + 1 < n {
      LandsOn(n, a * n + b + 1, a, b + 1);
    } else if a + 1 < n {
      ForwardToNextRow(n, a, b);
    } else {
      ForwardFromLast(n, a, b);
    }
  }

  lemma ForwardToNextRow(n: nat, a: nat, b: nat)
    requires n >= 1 && a + 1 < n && b + 1 == n
    ensures (a * n + b + 1) % (n * n) == (a + 1) * n
    ensures (a + 1) * n / n == a + 1 && (a + 1) * n % n == 0
  {
    assert a * n + b + 1 == (a + 1) * n + 0;
    LandsOn(n, (a + 1) * n, a + 1, 0);
  }

  lemma ForwardFromLast(n: nat, a: nat, b: nat)
    requires n >= 1 && a + 1 == n && b + 1 == n
    ensures (a * n + b + 1) % (n * n) == 0
  {
    assert a * n + b + 1 == 0 + 1 * (n * n);
    Arith.ModAddMultiple(0, 1, n * n);
  }

  /** One position backward in row-major order from (a, b). */
  lemma BackwardNeighbour(n: nat, a: nat, b: nat)
    requires n >= 1 && a < n && b < n
    ensures var next := (a * n + b + n * n - 1) % (n * n);
            (next / n, next % n) ==
            if b > 0 then (a, b - 1) else if a > 0 then (a - 1, n - 1) else (n - 1, n - 1)
  {
    if b > 0 {
      BackwardWithinRow(n, a, b);
    } else if a > 0 {
      BackwardToPreviousRow(n, a, b);
    } else {
      assert a * n + b + n * n - 1 == n * n - 1;
      BackwardFromFirst(n);
    }
  }

  lemma BackwardWithinRow(n: nat, a: nat, b: nat)
    requires n >= 1 && a < n && 0 < b < n
    ensures (a * n + b + n * n - 1) % (n * n) == a * n + (b - 1)
    ensures (a * n + (b - 1)) / n == a && (a * n + (b - 1)) % n == b - 1
  {
    assert a * n + b + n * n - 1 == (a * n + (b - 1)) + 1 * (n * n);
    Arith.ModAddMultiple(a * n + (b - 1), 1, n * n);
    LandsOn(n, a * n + (b - 1), a, b - 1);
  }

  lemma BackwardToPreviousRow(n: nat, a: nat, b: nat)
    requires n >= 1 && 0 < a < n && b == 0
    ensures (a * n + b + n * n - 1) % (n * n) == (a - 1) * n + (n - 1)
    ensures ((a - 1) * n + (n - 1)) / n == a - 1 && ((a - 1) * n + (n - 1)) % n == n - 1
  {
    assert a * n + b + n * n - 1 == ((a - 1) * n + (n - 1)) + 1 * (n * n);
    Arith.ModAddMultiple((a - 1) * n + (n - 1), 1, n * n);
    LandsOn(n, (a - 1) * n + (n - 1), a - 1, n - 1);
  }

  lemma BackwardFromFirst(n: nat)
    requires n >= 1
    ensures (n * n - 1) % (n * n) == n * n - 1
    ensures (n * n - 1) / n == n - 1 && (n * n - 1) % n == n - 1
  {
    var x := (n - 1) * n + (n - 1);
    assert x == n * n - 1;
    LandsOn(n, x, n - 1, n - 1);
  }

  /** Position x = a*N + b of a cell (a, b) on the board is its own
      remainder modulo N*N and splits back into a and b. */
  lemma LandsOn(n: nat, x: int, a: nat, b: nat)
    requires n >= 1 && a < n && b < n && x == a * n + b
    ensures x % (n * n) == x && x / n == a && x % n == b
  {
    Arith.LinearRoundTrip(a, b, n);
    Arith.ModSmall(x, n * n);
  }

  /** On the board, a move reaches exactly the neighbouring cell
      Neighbour names, in each of the four directions. */
  lemma StepNeighbour(n: nat, r: nat, c: nat, d: Direction)
    requires n >= 1 && r < n && c < n
    ensures Step(n, r, c, d) == Neighbour(n, r, c, d)
  {
    match d
    case Right => ForwardNeighbour(n, r, c);
    case Down => ForwardNeighbour(n, c, r);
    case Left => BackwardNeighbour(n, r, c);
    case Up => BackwardNeighbour(n, c, r);
  }

  /** After k >= 1 moves the cursor is at linear position start +/- k,
      modulo N*N. */
  lemma {:induction false} CursorPosition(n: nat, r0: nat, c0: nat, d: Direction, k: nat)
    requires n >= 1 && k >= 1
    ensures 0 <= Position(n, r0, c0, d, k) < n * n
    ensures Cursor(n, r0, c0, d, k) == CoordOf(n, d, Position(n, r0, c0, d, k))
  {
    Arith.MulAtLeast(n, n);
    var start := Index(n, d, r0, c0);
    ShiftNext(d, start, k - 1, n * n);
    if k == 1 {
      match d
      case Right | Down =>
      case Up | Left =>
        Arith.ModAddMultiple(start as int - 1, 1, n * n);
    } else {
      CursorPosition(n, r0, c0, d, k - 1);
      var prev := Position(n, r0, c0, d, k - 1);
      CoordRoundTrip(n, d, prev);
    }
  }

  /** Within one lap of N*N moves the cursor reaches every cell of the
      board. */
  lemma CursorCovers(n: nat, r0: nat, c0: nat, d: Direction, r: nat, c: nat)
    requires n >= 1 && r < n && c < n
    ensures exists k :: 1 <= k <= n * n && Cursor(n, r0, c0, d, k) == (r, c)
  {
    Arith.MulAtLeast(n, n);
    IndexRoundTrip(n, d, r, c);
    ShiftCovers(d, Index(n, d, r0, c0), Index(n, d, r, c), n * n);
    var k :| 1 <= k <= n * n && Shift(d, Index(n, d, r0, c0), k, n * n) == Index(n, d, r, c);
    CursorPosition(n, r0, c0, d, k);
  }

  /** Within one lap the cursor never visits a cell twice. */
  lemma CursorDistinct(n: nat, r0: nat, c0: nat, d: Direction, j: nat, k: nat)
    requires n >= 1 && 1 <= j < k <= n * n
    ensures Cursor(n, r0, c0, d, j) != Cursor(n, r0, c0, d, k)
  {
    CursorPosition(n, r0, c0, d, j);
    CursorPosition(n, r0, c0, d, k);
    ShiftDistinct(d, Index(n, d, r0, c0), j, k, n * n);
    CoordRoundTrip(n, d, Position(n, r0, c0, d, j));
    CoordRoundTrip(n, d, Position(n, r0, c0, d, k));
  }

  /** N*N moves in one direction bring the cursor back to an in-range
      start. */
  lemma CursorFullLap(n: nat, r0: nat, c0: nat, d: Direction)
    requires n >= 1 && r0 < n && c0 < n
    ensures Cursor(n, r0, c0, d, n * n) == (r0, c0)
  {
    Arith.MulAtLeast(n, n);
    IndexRoundTrip(n, d, r0, c0);
    ShiftFullLap(d, Index(n, d, r0, c0), n * n);
    CursorPosition(n, r0, c0, d, n * n);
  }

  /** None of the cells visited by moves 1 .. k-1 is free. */
  predicate PassedOver(b: Cells, n: nat, r0: nat, c0: nat, d: Direction, k: nat)
    requires n >= 1
  {
    forall j :: 1 <= j < k ==> !Free(b, Cursor(n, r0, c0, d, j).0, Cursor(n, r0, c0, d, j).1)
  }

  /** A search that passes over the cell reached by move k has passed
      over moves 1 .. k. */
  lemma PassedOverNext(b: Cells, n: nat, r0: nat, c0: nat, d: Direction, k: nat)
    requires n >= 1
    requires PassedOver(b, n, r0, c0, d, k)
    requires !Free(b, Cursor(n, r0, c0, d, k).0, Cursor(n, r0, c0, d, k).1)
    ensures PassedOver(b, n, r0, c0, d, k + 1)
  {
  }

  /** If the search from an in-range start ends on the start itself, the
      start is the only free cell of the board. */
  lemma StartOnlyIfAlone(b: Cells, n: nat, r0: nat, c0: nat, d: Direction, k: nat)
    requires n >= 1 && IsSquare(b, n) && r0 < n && c0 < n
    requires 1 <= k <= n * n && Cursor(n, r0, c0, d, k) == (r0, c0)
    requires PassedOver(b, n, r0, c0, d, k)
    ensures forall r: nat, c: nat :: Free(b, r, c) ==> r == r0 && c == c0
  {
    CursorFullLap(n, r0, c0, d);
    if k < n * n {
      CursorDistinct(n, r0, c0, d, k, n * n);
    }
    forall r: nat, c: nat | Free(b, r, c)
      ensures r == r0 && c == c0
    {
      CursorCovers(n, r0, c0, d, r, c);
      var j :| 1 <= j <= n * n && Cursor(n, r0, c0, d, j) == (r, c);
    }
  }

  /** From (0, 0) on a 3x3 board, with (0, 1) occupied and (0, 2) free,
      the search to the Right visits (0, 1) and stops at (0, 2). */
  lemma SkipsOccupiedExample(b: Cells)
    requires IsSquare(b, 3) && !b[0][1].IsFree() && b[0][2].IsFree()
    ensures Cursor(3, 0, 0, Right, 1) == (0, 1) && !Free(b, 0, 1)
    ensures Cursor(3, 0, 0, Right, 2) == (0, 2) && Free(b, 0, 2)
    ensures PassedOver(b, 3, 0, 0, Right, 2)
  {
  }
}
