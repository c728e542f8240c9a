/** The classification of a board. The board's 2N + 2 lines are scanned
    in a fixed order: row 0, column 0, row 1, column 1, ..., row N-1,
    column N-1, the main diagonal (i, i), the anti-diagonal (i, N-1-i).
    The first line that holds only Cross decides Win, the first that holds
    only Circle decides Loss. Without such a line the board is a Tie when
    every line holds both a Cross and a Circle, and Unfinished otherwise.
    Empty and Hover cells are not counted towards a line. */
module Evaluation {
  import opened CellStates
  import opened Grid

  type Line = seq<CellState>

  /** The number of cells of s holding x. */
  function Count(s: Line, x: CellState): (k: nat)
    ensures k <= |s|
  {
    if s == [] then 0
    else Count(s[..|s| - 1], x) + (if s[|s| - 1] == x then 1 else 0)
  }

  predicate AllOf(s: Line, x: CellState) {
    forall i :: 0 <= i < |s| ==> s[i] == x
  }

  /** A line that gives the game to one side. */
  predicate Uniform(s: Line) {
    AllOf(s, Cross) || AllOf(s, Circle)
  }

  /** A line that can no longer be completed by either side. */
  predicate Mixed(s: Line) {
    Cross in s && Circle in s
  }

  /** Extending a prefix by one cell adds that cell to the count. */
  lemma CountSnoc(s: Line, j: nat, x: CellState)
    requires j < |s|
    ensures Count(s[..j + 1], x) == Count(s[..j], x) + (if s[j] == x then 1 else 0)
  {
    assert s[..j + 1][..j] == s[..j];
  }

  /** No cell is counted exactly when x does not occur. */
  lemma {:induction false} CountZero(s: Line, x: CellState)
    ensures Count(s, x) == 0 <==> x !in s
  {
    if s != [] {
      var init := s[..|s| - 1];
      CountZero(init, x);
      assert s == init + [s[|s| - 1]];
    }
  }

  /** Every cell is counted exactly when the line holds only x. */
  lemma {:induction false} CountFull(s: Line, x: CellState)
    ensures Count(s, x) == |s| <==> AllOf(s, x)
  {
    if s != [] {
      var init := s[..|s| - 1];
      CountFull(init, x);
      assert forall i :: 0 <= i < |init| ==> s[i] == init[i];
    }
  }

  /** A line that holds both marks gives the game to nobody. */
  lemma MixedNotUniform(s: Line)
    requires Mixed(s)
    ensures !Uniform(s)
  {
    var i :| 0 <= i < |s| && s[i] == Cross;
    var j :| 0 <= j < |s| && s[j] == Circle;
  }

  /** A mark found in a prefix is found in the line. */
  lemma PrefixMixed(s: Line, j: nat)
    requires j <= |s| && Mixed(s[..j])
    ensures Mixed(s)
  {
    var a :| 0 <= a < j && s[..j][a] == Cross;
    var b :| 0 <= b < j && s[..j][b] == Circle;
    assert s[a] == Cross && s[b] == Circle;
  }

  function LineCount(n: nat): nat {
    2 * n + 2
  }

  /** The cell at position j of line k in scan order: line 2i is row i,
      line 2i+1 is column i, line 2N is the main diagonal (j, j) and line
      2N+1 the anti-diagonal (j, N-1-j). */
  function LineCell(n: nat, k: nat, j: nat): (p: (nat, nat))
    requires k < LineCount(n) && j < n
    ensures p.0 < n && p.1 < n
  {
    if k < 2 * n then
      if k % 2 == 0 then (k / 2, j) else (j, k / 2)
    else if k == 2 * n then (j, j)
    else (j, n - 1 - j)
  }

  /** Line k in scan order. */
  function LineAt(b: Cells, n: nat, k: nat): (l: Line)
    requires IsSquare(b, n) && k < LineCount(n)
    ensures |l| == n
    ensures forall j :: 0 <= j < n ==> l[j] == b[LineCell(n, k, j).0][LineCell(n, k, j).1]
  {
    seq(n, j requires 0 <= j < n => b[LineCell(n, k, j).0][LineCell(n, k, j).1])
  }

  /** The first line at or after from that is Uniform, or LineCount(n)
      when there is none. */
  function FirstUniform(b: Cells, n: nat, from: nat): (k: nat)
    requires IsSquare(b, n) && from <= LineCount(n)
    decreases LineCount(n) - from
    ensures from <= k <= LineCount(n)
    ensures forall j :: from <= j < k ==> !Uniform(LineAt(b, n, j))
    ensures k < LineCount(n) ==> Uniform(LineAt(b, n, k))
  {
    if from == LineCount(n) then from
    else if Uniform(LineAt(b, n, from)) then from
    else FirstUniform(b, n, from + 1)
  }

  /** None of the first m lines is Uniform. */
  predicate NoUniformBefore(b: Cells, n: nat, m: nat)
    requires IsSquare(b, n) && m <= LineCount(n)
  {
    forall k :: 0 <= k < m ==> !Uniform(LineAt(b, n, k))
  }

  lemma NoUniformNext(b: Cells, n: nat, m: nat)
    requires IsSquare(b, n) && m < LineCount(n)
    requires NoUniformBefore(b, n, m) && !Uniform(LineAt(b, n, m))
    ensures NoUniformBefore(b, n, m + 1)
  {
  }

  /** Each of the first m lines holds both marks. */
  predicate AllMixed(b: Cells, n: nat, m: nat)
    requires IsSquare(b, n) && m <= LineCount(n)
  {
    forall k :: 0 <= k < m ==> Mixed(LineAt(b, n, k))
  }

  /** The outcome of a board. */
  function Outcome(b: Cells, n: nat): WinState
    requires n >= 1 && IsSquare(b, n)
  {
    var k := FirstUniform(b, n, 0);
    if k < LineCount(n) then
      if AllOf(LineAt(b, n, k), Cross) then Win else Loss
    else if AllMixed(b, n, LineCount(n)) then Tie
    else Unfinished
  }

  /** What each outcome says about the lines of the board: a Tie exactly
      when every line holds both marks, a Win or a Loss exactly when some
      line holds only one mark (only Cross for a Win, only Circle for a
      Loss), and Unfinished otherwise. */
  lemma OutcomeMeaning(b: Cells, n: nat)
    requires n >= 1 && IsSquare(b, n)
    ensures Outcome(b, n) == Tie <==> AllMixed(b, n, LineCount(n))
    ensures Outcome(b, n) == Win || Outcome(b, n) == Loss <==>
            exists k :: 0 <= k < LineCount(n) && Uniform(LineAt(b, n, k))
    ensures Outcome(b, n) == Win ==> exists k :: 0 <= k < LineCount(n) && AllOf(LineAt(b, n, k), Cross)
    ensures Outcome(b, n) == Loss ==> exists k :: 0 <= k < LineCount(n) && AllOf(LineAt(b, n, k), Circle)
  {
    var k := FirstUniform(b, n, 0);
    if k < LineCount(n) {
      if Mixed(LineAt(b, n, k)) {
        MixedNotUniform(LineAt(b, n, k));
      }
    } else if AllMixed(b, n, LineCount(n)) {
      forall j | 0 <= j < LineCount(n) ensures !Uniform(LineAt(b, n, j)) {
        MixedNotUniform(LineAt(b, n, j));
      }
    }
  }

  /** The first Uniform line in scan order decides: Win when it holds only
      Cross, Loss when it holds only Circle. */
  lemma OutcomeAtFirstUniform(b: Cells, n: nat, m: nat)
    requires n >= 1 && IsSquare(b, n) && m < LineCount(n)
    requires NoUniformBefore(b, n, m)
    requires Uniform(LineAt(b, n, m))
    ensures Outcome(b, n) == if AllOf(LineAt(b, n, m), Cross) then Win else Loss
  {
    var k := FirstUniform(b, n, 0);
    assert k == m;
  }

  /** Without a Uniform line the board is a Tie exactly when every line is
      Mixed, and Unfinished otherwise. */
  lemma OutcomeWithoutUniform(b: Cells, n: nat)
    requires n >= 1 && IsSquare(b, n)
    requires NoUniformBefore(b, n, LineCount(n))
    ensures Outcome(b, n) == Tentative(b, n, LineCount(n))
  {
  }

  /** The empty board is Unfinished. */
  lemma EmptyBoardUnfinished(n: nat)
    requires n >= 1
    ensures Outcome(EmptyBoard(n), n) == Unfinished
  {
    var b := EmptyBoard(n);
    forall k | 0 <= k < LineCount(n)
      ensures !Uniform(LineAt(b, n, k)) && !Mixed(LineAt(b, n, k))
    {
      var l := LineAt(b, n, k);
      assert l[0] == Empty;
      assert forall j :: 0 <= j < n ==> l[j] == Empty;
    }
    assert !Mixed(LineAt(b, n, 0));
  }

  /** A board whose every cell holds Cross or Circle is never Unfinished:
      it is a Tie exactly when no line is Uniform. */
  lemma FullBoardDecided(b: Cells, n: nat)
    requires n >= 1 && IsSquare(b, n)
    requires forall r, c :: 0 <= r < n && 0 <= c < n ==> b[r][c] == Cross || b[r][c] == Circle
    ensures Outcome(b, n) != Unfinished
    ensures Outcome(b, n) == Tie <==> forall k :: 0 <= k < LineCount(n) ==> !Uniform(LineAt(b, n, k))
  {
    forall k | 0 <= k < LineCount(n) && !Uniform(LineAt(b, n, k))
      ensures Mixed(LineAt(b, n, k))
    {
      var l := LineAt(b, n, k);
      var a :| 0 <= a < n && l[a] != Cross;
      var c :| 0 <= c < n && l[c] != Circle;
      assert l[a] == Circle && l[c] == Cross;
    }
  }

  /** b and b' differ at most in which free mark (Empty or Hover) a cell
      holds. */
  predicate SameMarks(b: Cells, b': Cells, n: nat)
    requires IsSquare(b, n) && IsSquare(b', n)
  {
    forall r, c :: 0 <= r < n && 0 <= c < n ==>
      b[r][c] == b'[r][c] || (b[r][c].IsFree() && b'[r][c].IsFree())
  }

  lemma SameMarksLine(s: Line, t: Line)
    requires |s| == |t|
    requires forall j :: 0 <= j < |s| ==> s[j] == t[j] || (s[j].IsFree() && t[j].IsFree())
    ensures AllOf(s, Cross) == AllOf(t, Cross) && AllOf(s, Circle) == AllOf(t, Circle)
    ensures Mixed(s) == Mixed(t)
  {
    assert forall j :: 0 <= j < |s| ==> (s[j] == Cross <==> t[j] == Cross);
    assert forall j :: 0 <= j < |s| ==> (s[j] == Circle <==> t[j] == Circle);
    if Cross in s {
      var j :| 0 <= j < |s| && s[j] == Cross;
      assert t[j] == Cross;
    }
    if Cross in t {
      var j :| 0 <= j < |t| && t[j] == Cross;
      assert s[j] == Cross;
    }
    if Circle in s {
      var j :| 0 <= j < |s| && s[j] == Circle;
      assert t[j] == Circle;
    }
    if Circle in t {
      var j :| 0 <= j < |t| && t[j] == Circle;
      assert s[j] == Circle;
    }
  }

  /** Empty and Hover count alike: turning one into the other anywhere on
      the board does not change its outcome. */
  lemma OutcomeIgnoresHover(b: Cells, b': Cells, n: nat)
    requires n >= 1 && IsSquare(b, n) && IsSquare(b', n) && SameMarks(b, b', n)
    ensures Outcome(b, n) == Outcome(b', n)
  {
    SameMarksLines(b, b', n);
    assert FirstUniform(b, n, 0) == FirstUniform(b', n, 0);
    assert AllMixed(b, n, LineCount(n)) == AllMixed(b', n, LineCount(n));
  }

  /** Boards with the same marks agree, line by line, on which lines are
      all Cross, all Circle or Mixed. */
  lemma SameMarksLines(b: Cells, b': Cells, n: nat)
    requires IsSquare(b, n) && IsSquare(b', n) && SameMarks(b, b', n)
    ensures forall k :: 0 <= k < LineCount(n) ==>
      AllOf(LineAt(b, n, k), Cross) == AllOf(LineAt(b', n, k), Cross) &&
      AllOf(LineAt(b, n, k), Circle) == AllOf(LineAt(b', n, k), Circle) &&
      Mixed(LineAt(b, n, k)) == Mixed(LineAt(b', n, k))
  {
    forall k | 0 <= k < LineCount(n)
      ensures AllOf(LineAt(b, n, k), Cross) == AllOf(LineAt(b', n, k), Cross)
      ensures AllOf(LineAt(b, n, k), Circle) == AllOf(LineAt(b', n, k), Circle)
      ensures Mixed(LineAt(b, n, k)) == Mixed(LineAt(b', n, k))
    {
      SameMarksLine(LineAt(b, n, k), LineAt(b', n, k));
    }
  }

  /** A 3x3 board whose top row holds only Cross is a Win. */
  lemma CrossTopRowWins()
    ensures Outcome([[Cross, Cross, Cross], [Circle, Circle, Empty], [Empty, Empty, Empty]], 3) == Win
  {
    var b := [[Cross, Cross, Cross], [Circle, Circle, Empty], [Empty, Empty, Empty]];
    assert AllOf(LineAt(b, 3, 0), Cross);
    OutcomeAtFirstUniform(b, 3, 0);
  }

  /** Lines are decided in scan order: the top row (all Circle) comes
      before the middle row (all Cross), so this board is a Loss. */
  lemma ScanOrderDecides()
    ensures Outcome([[Circle, Circle, Circle], [Cross, Cross, Cross], [Empty, Empty, Empty]], 3) == Loss
  {
    var b := [[Circle, Circle, Circle], [Cross, Cross, Cross], [Empty, Empty, Empty]];
    assert AllOf(LineAt(b, 3, 0), Circle);
    assert LineAt(b, 3, 0)[0] != Cross;
    OutcomeAtFirstUniform(b, 3, 0);
  }

  /** A full 3x3 board with no three in a line is a Tie. */
  lemma FullBoardTieExample()
    ensures Outcome([[Cross, Circle, Cross], [Circle, Cross, Circle], [Circle, Cross, Circle]], 3) == Tie
  {
    var b := [[Cross, Circle, Cross], [Circle, Cross, Circle], [Circle, Cross, Circle]];
    forall k | 0 <= k < LineCount(3)
      ensures Mixed(LineAt(b, 3, k))
    {
      var l := LineAt(b, 3, k);
      if k == 0 { assert l[0] == Cross && l[1] == Circle; }
      else if k == 1 { assert l[0] == Cross && l[1] == Circle; }
      else if k == 2 { assert l[1] == Cross && l[0] == Circle; }
      else if k == 3 { assert l[1] == Cross && l[0] == Circle; }
      else if k == 4 { assert l[1] == Cross && l[0] == Circle; }
      else if k == 5 { assert l[0] == Cross && l[1] == Circle; }
      else if k == 6 { assert l[0] == Cross && l[2] == Circle; }
      else { assert l[0] == Cross && l[2] == Circle; }
    }
  }

  /** What the counters say after cell j of a line has been counted: the
      line is Uniform when a counter reaches its length, the prefix is
      Mixed when both counters are positive. */
  lemma LineScanStep(line: Line, j: nat, circles: nat, crosses: nat)
    requires j < |line|
    requires circles == Count(line[..j], Circle) + (if line[j] == Circle then 1 else 0)
    requires crosses == Count(line[..j], Cross) + (if line[j] == Cross then 1 else 0)
    ensures circles == Count(line[..j + 1], Circle) && crosses == Count(line[..j + 1], Cross)
    ensures crosses == |line| ==> AllOf(line, Cross) && Uniform(line)
    ensures circles == |line| ==> AllOf(line, Circle) && !AllOf(line, Cross) && Uniform(line)
    ensures circles > 0 && crosses > 0 <==> Mixed(line[..j + 1])
    ensures circles > 0 && crosses > 0 ==> Mixed(line) && !Uniform(line)
    ensures j + 1 == |line| && crosses != |line| && circles != |line| ==> !Uniform(line)
  {
    CountSnoc(line, j, Circle);
    CountSnoc(line, j, Cross);
    CountZero(line[..j + 1], Circle);
    CountZero(line[..j + 1], Cross);
    if j + 1 == |line| {
      assert line[..j + 1] == line;
      CountFull(line, Cross);
      CountFull(line, Circle);
    }
    if crosses == |line| || circles == |line| {
      assert j + 1 == |line|;
      assert line[..j + 1] == line;
      CountFull(line, Cross);
      CountFull(line, Circle);
      assert line[0] == Cross || line[0] == Circle;
    }
    if circles > 0 && crosses > 0 {
      PrefixMixed(line, j + 1);
      MixedNotUniform(line);
    }
  }

  /** The result the scan holds after the first m lines when none of
      them was Uniform. */
  ghost function Tentative(b: Cells, n: nat, m: nat): WinState
    requires IsSquare(b, n) && m <= LineCount(n)
  {
    if AllMixed(b, n, m) then Tie else Unfinished
  }

  /** Scanning one more line keeps the result when that line is Mixed and
      makes it Unfinished otherwise. */
  lemma TentativeNext(b: Cells, n: nat, k: nat)
    requires IsSquare(b, n) && k < LineCount(n)
    ensures Tentative(b, n, k + 1) ==
            if Mixed(LineAt(b, n, k)) then Tentative(b, n, k) else Unfinished
  {
  }
}
