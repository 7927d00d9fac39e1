/** The game component's state: the list of recorded steps, the step on
    display, and whose turn it is; the click and time-travel handlers that
    update them; and what can be proved about every history those handlers
    build. */
module TicTacToeGame {
  import opened TicTacToeRules

  /** One entry of the history: the board after a move, and the column and
      row of the square that move filled (absent for the opening entry). */
  datatype Step = Step(squares: Board, coord: Option<(Axis, Axis)>)

  const Start: Step := Step(EmptyBoard, None)

  /** The mark that moves from step `k`: X from even steps, O from odd ones. */
  function MarkAt(k: nat): Mark
  {
    MarkFor(k % 2 == 0)
  }

  /** `next` records an accepted click by `m` on the board of `prev`: the
      square at its coordinates was legal to play and now holds `m`. */
  predicate Follows(prev: Step, next: Step, m: Mark)
  {
    next.coord.Some? &&
    var i := CellAt(next.coord.value.0, next.coord.value.1);
    Legal(prev.squares, i) && next.squares == Place(prev.squares, i, m)
  }

  /** A history as the handlers build it: it starts with the empty board and
      every later entry follows its predecessor by one accepted click of the
      player whose turn it was. */
  predicate WellFormed(h: seq<Step>)
  {
    |h| >= 1 && h[0] == Start &&
    forall k :: 1 <= k < |h| ==> Follows(h[k - 1], h[k], MarkAt(k - 1))
  }

  /** After k moves of a well-formed history, k squares are filled: the
      first mover X holds (k + 1) / 2 of them and O holds k / 2. */
  lemma {:induction false} StepCounts(h: seq<Step>, k: nat)
    requires WellFormed(h) && k < |h|
    ensures Count(h[k].squares, Empty) == 9 - k
    ensures Count(h[k].squares, Filled(X)) == (k + 1) / 2
    ensures Count(h[k].squares, Filled(O)) == k / 2
  {
    if k == 0 {
      EmptyBoardCounts();
    } else {
      StepCounts(h, k - 1);
      assert Follows(h[k - 1], h[k], MarkAt(k - 1));
      var prev := h[k - 1].squares;
      var i := CellAt(h[k].coord.value.0, h[k].coord.value.1);
      var m := MarkAt(k - 1);
      assert h[k].squares == prev[i := Filled(m)];
      CountUpdate(prev, i, Filled(m), Empty);
      CountUpdate(prev, i, Filled(m), Filled(X));
      CountUpdate(prev, i, Filled(m), Filled(O));
    }
  }

  /** A history never holds more than the opening entry and nine moves. */
  lemma HistoryAtMostTen(h: seq<Step>)
    requires WellFormed(h)
    ensures |h| <= 10
  {
    StepCounts(h, |h| - 1);
  }

  /** The board of step k is full exactly at step 9. */
  lemma FullExactlyAtNine(h: seq<Step>, k: nat)
    requires WellFormed(h) && k < |h|
    ensures Full(h[k].squares) <==> k == 9
  {
    StepCounts(h, k);
    CountEmptyZero(h[k].squares);
  }

  /** Once a line is complete nothing more is recorded: only the last entry
      of a history can have a winner. */
  lemma WinOnlyAtEnd(h: seq<Step>, k: nat)
    requires WellFormed(h) && k + 1 < |h|
    ensures OutcomeOf(h[k].squares) == NoWinner
  {
    assert Follows(h[k], h[k + 1], MarkAt(k));
  }

  /** Cutting a well-formed history after step `s` and appending an entry
      that follows step `s` gives a well-formed history. */
  lemma TruncateAppend(h: seq<Step>, s: nat, next: Step)
    requires WellFormed(h) && s < |h|
    requires Follows(h[s], next, MarkAt(s))
    ensures WellFormed(h[..s + 1] + [next])
  {
  }

  /** Every complete line on a recorded board belongs to the player who made
      the last move, so on a reachable board the winning mark is never in
      doubt, whatever order the lines are searched in. */
  lemma WinnerIsLastMover(h: seq<Step>, k: nat, j: nat)
    requires WellFormed(h) && k < |h| && j < |Lines|
    requires Completes(h[k].squares, Lines[j])
    ensures k >= 1
    ensures h[k].squares[Lines[j].a] == Filled(MarkAt(k - 1))
  {
  }

  /** The last mover holds at least the three squares of a complete line. */
  lemma LastMoverHoldsLine(h: seq<Step>, k: nat, j: nat)
    requires WellFormed(h) && k < |h| && j < |Lines|
    requires Completes(h[k].squares, Lines[j])
    ensures k >= 1 && Count(h[k].squares, Filled(MarkAt(k - 1))) >= 3
  {
    var l := Lines[j];
    WinnerIsLastMover(h, k, j);
    CountAtLeastThree(h[k].squares, l.a, l.b, l.c, MarkAt(k - 1));
  }

  /** No line can be complete before the fifth move: the last mover holds
      at most two squares until then. */
  lemma NoWinnerBeforeFive(h: seq<Step>, k: nat)
    requires WellFormed(h) && k < |h| && k < 5
    ensures OutcomeOf(h[k].squares) == NoWinner
  {
    var b := h[k].squares;
    StepCounts(h, k);
    forall j | 0 <= j < |Lines|
      ensures !Completes(b, Lines[j])
    {
      if Completes(b, Lines[j]) {
        LastMoverHoldsLine(h, k, j);
        assert false;
      }
    }
  }

  /** The state of one game. */
  class Game {
    var history: seq<Step>
    var stepNumber: nat
    var xIsNext: bool

    /** The history is well formed, the step on display exists, and the
        stored turn flag agrees with the parity of that step. */
    ghost predicate Valid()
      reads this
    {
      WellFormed(history) && stepNumber < |history| && xIsNext == (stepNumber % 2 == 0)
    }

    /** A new game: only the empty board, on display, X to move. */
    constructor ()
      ensures Valid()
      ensures history == [Start] && stepNumber == 0 && xIsNext
    {
      history := [Start];
      stepNumber := 0;
      xIsNext := true;
    }

    /** The entry on display. */
    function Current(): (s: Step)
      reads this
      requires Valid()
      ensures s == history[stepNumber] && s in history
    {
      history[stepNumber]
    }

    /** The status line for the board on display. */
    function Status(): (s: TicTacToeRules.Status)
      reads this
      requires Valid()
      ensures s.NextPlayer? <==> exists i: Index :: Legal(Current().squares, i)
      ensures s.NextPlayer? ==> s.mark == MarkAt(stepNumber)
      ensures s.Draw? ==> stepNumber == 9
    {
      var s := StatusOf(Current().squares, xIsNext);
      StatusNextIffMoveAvailable(Current().squares, xIsNext);
      FullExactlyAtNine(history, stepNumber);
      s
    }

    /** A click on square `i`. When the board on display has no winner and
        the square is empty, the steps after the one on display are dropped,
        a copy of the board with the mover's mark in square `i` is appended
        with the square's column and row, and the turn passes. Otherwise
        nothing changes. */
    method HandleClick(i: Index)
      requires Valid()
      modifies this
      ensures Valid()
      ensures var before := old(history[stepNumber].squares);
        if Legal(before, i) then
          history == old(history[..stepNumber + 1])
            + [Step(Place(before, i, MarkFor(old(xIsNext))), Some(Coordinates(i)))]
          && stepNumber == old(stepNumber) + 1
          && xIsNext == !old(xIsNext)
        else
          history == old(history) && stepNumber == old(stepNumber) && xIsNext == old(xIsNext)
    {
      var hist := history[..stepNumber + 1];
      var current := hist[|hist| - 1];
      var squares := new Cell[9](j requires 0 <= j < 9 => current.squares[j]);
      assert squares[..] == current.squares;
      var winner := CalculateWinner(squares[..]);
      if winner.Win? || squares[i] != Empty {
        assert !Legal(current.squares, i);
        return;
      }
      assert Legal(current.squares, i);
      squares[i] := Filled(if xIsNext then X else O);
      var coord := Coordinates(i);
      var step := Step(squares[..], Some(coord));
      CoordinatesRoundTrip(coord.0, coord.1, i);
      assert step.squares == Place(current.squares, i, MarkAt(stepNumber));
      assert Follows(current, step, MarkAt(stepNumber));
      TruncateAppend(history, stepNumber, step);
      history := hist + [step];
      stepNumber := |hist|;
      xIsNext := !xIsNext;
    }

    /** Show step `step` of the history: the history is kept, and the turn
        is recomputed from the parity of the step. */
    method JumpTo(step: nat)
      requires Valid() && step < |history|
      modifies this
      ensures Valid()
      ensures history == old(history) && stepNumber == step
      ensures xIsNext == (step % 2 == 0)
      ensures Current() == history[step]
    {
      stepNumber := step;
      xIsNext := step % 2 == 0;
    }
  }

  /** A client: X, O, X click squares 0, 4, 1. */
  method OpeningGame() returns (g: Game)
    ensures fresh(g) && g.Valid()
    ensures |g.history| == 4 && g.stepNumber == 3
    ensures g.Current().squares
      == [Filled(X), Filled(X), Empty, Empty, Filled(O), Empty, Empty, Empty, Empty]
    ensures g.history[1] == Step(EmptyBoard[0 := Filled(X)], Some((0, 0)))
  {
    g := new Game();
    NoWinnerBeforeFive(g.history, g.stepNumber);
    g.HandleClick(0);
    ghost var first := g.Current();
    assert first == Step(EmptyBoard[0 := Filled(X)], Some((0, 0)));
    NoWinnerBeforeFive(g.history, g.stepNumber);
    g.HandleClick(4);
    assert g.history[1] == first;
    NoWinnerBeforeFive(g.history, g.stepNumber);
    g.HandleClick(1);
    assert g.history[1] == first;
  }

  /** A client: the opening continues with O on 3 and X on 2, and X takes
      the top row. */
  method TopRowGame() returns (g: Game)
    ensures fresh(g) && g.Valid()
    ensures |g.history| == 6 && g.stepNumber == 5
    ensures g.Current().squares
      == [Filled(X), Filled(X), Filled(X), Filled(O), Filled(O), Empty, Empty, Empty, Empty]
    ensures g.history[1] == Step(EmptyBoard[0 := Filled(X)], Some((0, 0)))
  {
    g := OpeningGame();
    ghost var first := g.history[1];
    NoWinnerBeforeFive(g.history, g.stepNumber);
    g.HandleClick(3);
    assert g.history[1] == first;
    NoWinnerBeforeFive(g.history, g.stepNumber);
    g.HandleClick(2);
    assert g.history[1] == first;
  }

  /** A client: after the top row is taken, further clicks are refused;
      going back to step 1 makes it O's turn again, and a click there drops
      the recorded future. */
  method TimeTravelAfterWin()
  {
    var g := TopRowGame();
    var top := g.Current().squares;
    OutcomeIsFirstLine(top, 0);
    assert g.Status() == WinnerIs(X);
    g.HandleClick(5);
    assert |g.history| == 6 && g.stepNumber == 5;
    g.JumpTo(1);
    NoWinnerBeforeFive(g.history, g.stepNumber);
    assert g.Status() == NextPlayer(O);
    g.HandleClick(5);
    assert |g.history| == 3 && g.stepNumber == 2;
    assert g.Current().squares[5] == Filled(O) && g.Current().coord == Some((2, 1));
  }
}
