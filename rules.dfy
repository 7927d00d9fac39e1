/** The rules of the 3x3 game: marks, boards, the eight winning lines, the
    winner search, the coordinates shown in the move list, and the status
    line derived from a board. Everything here is a value; nothing is
    updated in place. */
module TicTacToeRules {

  datatype Option<T> = None | Some(value: T)

  /** The two marks a player can place. */
  datatype Mark = X | O

  /** One square: empty (null in the widget) or holding a mark. */
  datatype Cell = Empty | Filled(mark: Mark)

  /** A square index, row-major, 0 to 8. */
  type Index = i: int | 0 <= i < 9

  /** A column or row number, 0 to 2. */
  type Axis = n: int | 0 <= n < 3

  /** A board always has exactly nine squares. */
  type Board = s: seq<Cell> | |s| == 9
    witness [Empty, Empty, Empty, Empty, Empty, Empty, Empty, Empty, Empty]

  const EmptyBoard: Board := [Empty, Empty, Empty, Empty, Empty, Empty, Empty, Empty, Empty]

  /** A winning line: three square indices. */
  datatype Line = Line(a: Index, b: Index, c: Index)

  /** The winning lines, in the order they are searched: the rows top to
      bottom, the columns left to right, then the two diagonals. */
  const Lines: seq<Line> := [
    Line(0, 1, 2),
    Line(3, 4, 5),
    Line(6, 7, 8),
    Line(0, 3, 6),
    Line(1, 4, 7),
    Line(2, 5, 8),
    Line(0, 4, 8),
    Line(2, 4, 6)
  ]

  /** What the winner search reports: no winner (the pair [null, null]), or
      the winning mark together with the line it completed. */
  datatype Outcome = NoWinner | Win(mark: Mark, line: Line)

  /** The three squares of `l` hold the same mark. */
  predicate Completes(b: Board, l: Line)
  {
    b[l.a] != Empty && b[l.a] == b[l.b] && b[l.a] == b[l.c]
  }

  /** Some winning line is complete on `b`. */
  predicate HasLine(b: Board)
  {
    exists j :: 0 <= j < |Lines| && Completes(b, Lines[j])
  }

  /** The position in `Lines` of the first complete line at or after `k`,
      or |Lines| when there is none. */
  function FirstLine(b: Board, k: nat): (j: nat)
    requires k <= |Lines|
    ensures k <= j <= |Lines|
    ensures j < |Lines| ==> Completes(b, Lines[j])
    ensures forall t :: k <= t < j ==> !Completes(b, Lines[t])
    decreases |Lines| - k
  {
    if k == |Lines| then k
    else if Completes(b, Lines[k]) then k
    else FirstLine(b, k + 1)
  }

  /** The winner of a board, as the search reports it: the first complete
      line in the order of `Lines` decides. */
  function OutcomeOf(b: Board): (r: Outcome)
    ensures r.Win? <==> HasLine(b)
    ensures r.Win? ==> r.line in Lines && Completes(b, r.line) && b[r.line.a] == Filled(r.mark)
  {
    var j := FirstLine(b, 0);
    if j < |Lines| then Win(b[Lines[j].a].mark, Lines[j]) else NoWinner
  }

  /** The reported line is the first complete one: any line that comes
      earlier in the search order is not complete. */
  lemma {:induction false} OutcomeIsFirstLine(b: Board, j: nat)
    requires j < |Lines| && Completes(b, Lines[j])
    requires forall t :: 0 <= t < j ==> !Completes(b, Lines[t])
    ensures OutcomeOf(b) == Win(b[Lines[j].a].mark, Lines[j])
  {
  }

  /** The search loop of the widget: walks `Lines` in order and stops at the
      first complete line. */
  method CalculateWinner(b: Board) returns (r: Outcome)
    ensures r == OutcomeOf(b)
    ensures r == NoWinner <==> forall t :: 0 <= t < |Lines| ==> !Completes(b, Lines[t])
  {
    var i := 0;
    while i < |Lines|
      invariant 0 <= i <= |Lines|
      invariant forall t :: 0 <= t < i ==> !Completes(b, Lines[t])
    {
      var l := Lines[i];
      if b[l.a] != Empty && b[l.a] == b[l.b] && b[l.a] == b[l.c] {
        OutcomeIsFirstLine(b, i);
        return Win(b[l.a].mark, l);
      }
      i := i + 1;
    }
    r := NoWinner;
    assert FirstLine(b, 0) == |Lines|;
  }

  /** The column and row shown for square `i` in the move list: the column
      is `i % 3` and the row `(i - col) / 3`. */
  function Coordinates(i: Index): (p: (Axis, Axis))
    ensures p.1 * 3 + p.0 == i
  {
    var col := i % 3;
    (col, (i - col) / 3)
  }

  /** The square at a column and row. */
  function CellAt(col: Axis, row: Axis): Index
  {
    row * 3 + col
  }

  /** Coordinates and CellAt are inverse to each other. */
  lemma CoordinatesRoundTrip(col: Axis, row: Axis, i: Index)
    ensures Coordinates(CellAt(col, row)) == (col, row)
    ensures CellAt(Coordinates(i).0, Coordinates(i).1) == i
  {
  }

  /** The mark that moves when `xIsNext` is as given. */
  function MarkFor(xIsNext: bool): Mark
  {
    if xIsNext then X else O
  }

  /** A click on square `i` is accepted: no line is complete yet and the
      square is empty. */
  predicate Legal(b: Board, i: Index)
    ensures Legal(b, i) <==> !HasLine(b) && b[i] == Empty
  {
    OutcomeOf(b).NoWinner? && b[i] == Empty
  }

  /** A copy of `b` with `m` written into square `i`. */
  function Place(b: Board, i: Index, m: Mark): (r: Board)
    ensures r[i] == Filled(m)
    ensures forall j :: 0 <= j < 9 && j != i ==> r[j] == b[j]
  {
    b[i := Filled(m)]
  }

  /** Every square holds a mark. */
  predicate Full(b: Board)
    ensures Full(b) <==> Count(b, Empty) == 0
  {
    CountEmptyZero(b);
    forall j :: 0 <= j < 9 ==> b[j] != Empty
  }

  /** The status line above the move list. */
  datatype Status = WinnerIs(mark: Mark) | Draw | NextPlayer(mark: Mark)
  {
    /** The text the widget shows for this status. */
    function Text(): (t: string)
      ensures WinnerIs? <==> |t| >= 8 && t[..8] == "Winner: "
      ensures NextPlayer? <==> |t| >= 13 && t[..13] == "Next player: "
      ensures Draw? <==> t == "Draw"
      ensures !Draw? ==> t[|t| - 1..] == MarkText(mark)
    {
      match this
      case WinnerIs(m) => "Winner: " + MarkText(m)
      case Draw => "Draw"
      case NextPlayer(m) =>
        var t := "Next player: " + MarkText(m);
        assert t[..8] != "Winner: " by { assert t[..8][0] == 'N'; }
        t
    }
  }

  function MarkText(m: Mark): string
  {
    if m == X then "X" else "O"
  }

  /** The status of a board: the winner if a line is complete, otherwise a
      draw when the board is full, otherwise whose turn it is. */
  function StatusOf(b: Board, xIsNext: bool): (s: Status)
    ensures s.WinnerIs? <==> HasLine(b)
    ensures s.WinnerIs? ==> s.mark == OutcomeOf(b).mark
    ensures s.Draw? <==> !HasLine(b) && Full(b)
    ensures s.NextPlayer? ==> s.mark == MarkFor(xIsNext)
  {
    var o := OutcomeOf(b);
    if o.Win? then WinnerIs(o.mark)
    else if Full(b) then Draw
    else NextPlayer(MarkFor(xIsNext))
  }

  /** The status says whose turn it is exactly when some click would be
      accepted; after a win or a draw every click is refused. */
  lemma StatusNextIffMoveAvailable(b: Board, xIsNext: bool)
    ensures StatusOf(b, xIsNext).NextPlayer? <==> exists i: Index :: Legal(b, i)
  {
    if StatusOf(b, xIsNext).NextPlayer? {
      var i :| 0 <= i < 9 && b[i] == Empty;
      assert Legal(b, i);
    }
  }

  /** Distinct statuses show distinct texts. */
  lemma StatusTextDistinct(s: Status, t: Status)
    requires s != t
    ensures s.Text() != t.Text()
  {
  }

  /** The number of squares of `s` that hold `c`. */
  function Count(s: seq<Cell>, c: Cell): (n: nat)
    ensures n <= |s|
  {
    if s == [] then 0 else (if s[0] == c then 1 else 0) + Count(s[1..], c)
  }

  /** Writing one square changes the count of each cell value by at most
      the one square written. */
  lemma {:induction false} CountUpdate(s: seq<Cell>, i: nat, v: Cell, c: Cell)
    requires i < |s|
    ensures Count(s[i := v], c)
      == Count(s, c) - (if s[i] == c then 1 else 0) + (if v == c then 1 else 0)
  {
    if i > 0 {
      CountUpdate(s[1..], i - 1, v, c);
      assert s[i := v][1..] == s[1..][i - 1 := v];
    }
  }

  /** No empty square is counted exactly when every square holds a mark. */
  lemma {:induction false} CountEmptyZero(s: seq<Cell>)
    ensures Count(s, Empty) == 0 <==> forall j :: 0 <= j < |s| ==> s[j] != Empty
  {
    if s != [] {
      CountEmptyZero(s[1..]);
      assert forall j :: 1 <= j < |s| ==> s[j] == s[1..][j - 1];
    }
  }

  /** Three distinct squares holding a mark count at least three times. */
  lemma CountAtLeastThree(s: seq<Cell>, a: nat, b: nat, c: nat, m: Mark)
    requires a < |s| && b < |s| && c < |s| && a != b && a != c && b != c
    requires s[a] == Filled(m) && s[b] == Filled(m) && s[c] == Filled(m)
    ensures Count(s, Filled(m)) >= 3
  {
    var s1 := s[a := Empty];
    var s2 := s1[b := Empty];
    CountUpdate(s, a, Empty, Filled(m));
    CountUpdate(s1, b, Empty, Filled(m));
    CountUpdate(s2, c, Empty, Filled(m));
  }

  lemma EmptyBoardCounts()
    ensures Count(EmptyBoard, Empty) == 9
    ensures Count(EmptyBoard, Filled(X)) == 0 && Count(EmptyBoard, Filled(O)) == 0
    ensures OutcomeOf(EmptyBoard) == NoWinner
  {
  }
}
