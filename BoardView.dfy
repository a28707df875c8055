/**
 * The logic of the `Board` component: what a click on a square produces,
 * the status line and the highlighting of the winning squares.
 */
module BoardView {
  import opened Boards

  /** The mark the player to move writes: "X" when `xIsNext`, "O" otherwise. */
  function Mark(xIsNext: bool): (m: Cell)
    ensures m != Empty
    ensures m == X <==> xIsNext
  {
    if xIsNext then X else O
  }

  /**
   * The board a click on square `i` hands to `onPlay`, or `None` when the click
   * is ignored because the square is filled or the game is already won.
   */
  function Click(squares: Board, xIsNext: bool, i: Index): (r: Option<Board>)
    ensures r.None? <==> squares[i] != Empty || Winner(squares).Some?
    ensures r.Some? ==> r.value[i] == Mark(xIsNext)
    ensures r.Some? ==> forall j :: 0 <= j < 9 && j != i ==> r.value[j] == squares[j]
  {
    if squares[i] != Empty || Winner(squares).Some? then None
    else
      var next: Board := squares[i := Mark(xIsNext)];
      Some(next)
  }

  /** `handleClick`: copy the nine squares and write the mover's mark at `i`. */
  method HandleClick(squares: Board, xIsNext: bool, i: Index) returns (next: Option<Board>)
    ensures next == Click(squares, xIsNext, i)
  {
    var winner := CalculateWinner(squares);
    if squares[i] != Empty || winner.Some? {
      return None;
    }
    var nextSquares := new Cell[9](j requires 0 <= j < 9 => squares[j]);
    if xIsNext {
      nextSquares[i] := X;
    } else {
      nextSquares[i] := O;
    }
    assert nextSquares[..] == squares[i := Mark(xIsNext)];
    next := Some(nextSquares[..]);
  }

  /** A legal click fills exactly one empty square with the mover's mark. */
  lemma ClickCounts(squares: Board, xIsNext: bool, i: Index)
    requires Click(squares, xIsNext, i).Some?
    ensures var next := Click(squares, xIsNext, i).value;
      Count(next, Mark(xIsNext)) == Count(squares, Mark(xIsNext)) + 1 &&
      Count(next, Mark(!xIsNext)) == Count(squares, Mark(!xIsNext)) &&
      Count(next, Empty) + 1 == Count(squares, Empty)
  {
    var m := Mark(xIsNext);
    CountUpdate(squares, i, m, m);
    CountUpdate(squares, i, m, Mark(!xIsNext));
    CountUpdate(squares, i, m, Empty);
  }

  /** The status line, without its string formatting. */
  datatype Status = Won(mark: Cell) | Draw | NextPlayer(mark: Cell)

  /**
   * The status of a board: a win takes precedence (even on a full board),
   * then a draw when no square is empty, then whose turn it is.
   */
  function StatusOf(squares: Board, xIsNext: bool): (s: Status)
    ensures s.Won? <==> Winner(squares).Some?
    ensures s.Won? ==> s.mark == Winner(squares).value.mark && s.mark != Empty
    ensures s.Draw? <==> Winner(squares).None? && Empty !in squares
    ensures s.NextPlayer? <==> Winner(squares).None? && Empty in squares
    ensures s.NextPlayer? ==> s.mark == Mark(xIsNext)
  {
    var winner := Winner(squares);
    if winner.Some? then
      WinnerSound(squares);
      Won(winner.value.mark)
    else if Empty !in squares then Draw
    else NextPlayer(Mark(xIsNext))
  }

  /** Whether square `index` is drawn as part of the winning line. */
  function Highlight(winner: Option<Win>, index: Index): bool {
    match winner
    case None => false
    case Some(w) => index == w.line.a || index == w.line.b || index == w.line.c
  }

  /**
   * No square is highlighted without a winner. A highlighted square lies on a
   * listed line that the winning mark fills, and holds that mark itself.
   */
  lemma HighlightedHoldWinningMark(squares: Board, index: Index)
    ensures Winner(squares).None? ==> !Highlight(Winner(squares), index)
    ensures Highlight(Winner(squares), index) ==>
      var w := Winner(squares).value;
      w.line in Lines && LineWins(squares, w.line) && squares[index] == w.mark != Empty
  {
    if Winner(squares).Some? {
      WinnerSound(squares);
    }
  }
}
