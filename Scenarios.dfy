/**
 * Concrete games: a win as a legal history, a drawn full board, one move that
 * completes two lines, and client code of `Game` showing what callers can
 * conclude from the contracts alone (branching discards the future, sorting
 * only reorders).
 */
module Scenarios {
  import opened Boards
  import opened BoardView
  import opened Timeline
  import opened GameState

  /** A click on an empty square of an unwon board writes the mover's mark there. */
  lemma ClickOnto(squares: Board, xIsNext: bool, i: Index, next: Board)
    requires squares[i] == Empty && Winner(squares).None? && next == squares[i := Mark(xIsNext)]
    ensures Click(squares, xIsNext, i) == Some(next)
  {
  }

  /** X plays 0, 4 (for O), 1, 7 (for O), 2: the snapshots of the game. */
  const TopRowGame: seq<Board> := [
    EmptyBoard,
    [X, Empty, Empty, Empty, Empty, Empty, Empty, Empty, Empty],
    [X, Empty, Empty, Empty, O, Empty, Empty, Empty, Empty],
    [X, X, Empty, Empty, O, Empty, Empty, Empty, Empty],
    [X, X, Empty, Empty, O, Empty, Empty, O, Empty],
    [X, X, X, Empty, O, Empty, Empty, O, Empty]]

  /** Each snapshot of the game above is a legal click on its predecessor. */
  lemma TopRowSteps()
    ensures LegalStep(TopRowGame[0], true, TopRowGame[1])
    ensures LegalStep(TopRowGame[1], false, TopRowGame[2])
    ensures LegalStep(TopRowGame[2], true, TopRowGame[3])
    ensures LegalStep(TopRowGame[3], false, TopRowGame[4])
    ensures LegalStep(TopRowGame[4], true, TopRowGame[5])
  {
    var h := TopRowGame;
    assert LegalStep(h[0], true, h[1]) by { ClickOnto(h[0], true, 0, h[1]); }
    assert LegalStep(h[1], false, h[2]) by { ClickOnto(h[1], false, 4, h[2]); }
    assert LegalStep(h[2], true, h[3]) by { ClickOnto(h[2], true, 1, h[3]); }
    assert LegalStep(h[3], false, h[4]) by { ClickOnto(h[3], false, 7, h[4]); }
    assert LegalStep(h[4], true, h[5]) by { ClickOnto(h[4], true, 2, h[5]); }
  }

  /** Five legal clicks from the empty board, X first, make a legal history. */
  lemma FiveLegalClicks(b1: Board, b2: Board, b3: Board, b4: Board, b5: Board)
    requires LegalStep(EmptyBoard, true, b1) && LegalStep(b1, false, b2) && LegalStep(b2, true, b3)
    requires LegalStep(b3, false, b4) && LegalStep(b4, true, b5)
    ensures LegalHistory([EmptyBoard, b1, b2, b3, b4, b5])
  {
    // Each step of LegalHistory is one of the five requires.
  }

  /** The game above is one the program can build. */
  lemma TopRowGameIsLegal()
    ensures LegalHistory(TopRowGame)
  {
    var h := TopRowGame;
    TopRowSteps();
    FiveLegalClicks(h[1], h[2], h[3], h[4], h[5]);
    assert h == [EmptyBoard, h[1], h[2], h[3], h[4], h[5]];
  }

  /** It ends with the top row won by X, and a further click is ignored. */
  lemma TopRowWin()
    ensures Winner(TopRowGame[5]) == Some(Win(X, Line(0, 1, 2)))
    ensures StatusOf(TopRowGame[5], XMovesAt(5)) == Won(X)
    ensures Click(TopRowGame[5], XMovesAt(5), 8).None?
  {
  }

  /** A full board with no line reads as a draw. */
  lemma FullBoardDraw()
    ensures var b: Board := [X, O, X, X, O, O, O, X, X];
      Winner(b).None? && Empty !in b && StatusOf(b, XMovesAt(9)) == Draw
  {
  }

  /**
   * A click by X on a board with no winner completes two lines at once and fills
   * the board: the status is a win, and the top row is reported because rows
   * are scanned first.
   */
  lemma DoubleLineOnFullBoard()
    ensures var before: Board := [X, X, Empty, O, X, O, X, O, O];
      var after: Board := [X, X, X, O, X, O, X, O, O];
      Winner(before).None? &&
      Click(before, XMovesAt(8), 2) == Some(after) &&
      LineWins(after, Lines[0]) && LineWins(after, Lines[7]) && Empty !in after &&
      Winner(after) == Some(Win(X, Line(0, 1, 2))) &&
      StatusOf(after, XMovesAt(9)) == Won(X)
  {
    var before: Board := [X, X, Empty, O, X, O, X, O, O];
    var after: Board := [X, X, X, O, X, O, X, O, O];
    ClickOnto(before, true, 2, after);
  }

  /** Jumping back and playing discards the later snapshots. */
  method BranchDiscardsFuture() {
    var g := new Game();
    var b1: Board := [X, Empty, Empty, Empty, Empty, Empty, Empty, Empty, Empty];
    var b2: Board := [X, Empty, Empty, Empty, O, Empty, Empty, Empty, Empty];
    var b2': Board := [X, Empty, O, Empty, Empty, Empty, Empty, Empty, Empty];
    ClickOnto(EmptyBoard, true, 0, b1);
    g.ClickSquare(0);
    ClickOnto(b1, false, 4, b2);
    g.ClickSquare(4);
    assert g.history == [EmptyBoard, b1, b2];
    g.JumpToMove(1);
    assert !g.XIsNext() && g.CurrentSquares() == b1;
    ClickOnto(b1, false, 2, b2');
    g.ClickSquare(2);
    assert g.history == [EmptyBoard, b1, b2'] && g.currentMove == 2;
  }

  /** After X takes the centre and O the top-left corner, the entries name (1, 1) and (0, 0). */
  lemma CenterThenCornerLabels()
    ensures var b1: Board := [Empty, Empty, Empty, Empty, X, Empty, Empty, Empty, Empty];
      var b2: Board := [O, Empty, Empty, Empty, X, Empty, Empty, Empty, Empty];
      Entries([EmptyBoard, b1, b2], 2) == [Entry(0, Start, false), Entry(1, At(1, 1), false), Entry(2, At(0, 0), true)]
  {
    var b1: Board := [Empty, Empty, Empty, Empty, X, Empty, Empty, Empty, Empty];
    var b2: Board := [O, Empty, Empty, Empty, X, Empty, Empty, Empty, Empty];
    var h := [EmptyBoard, b1, b2];
    assert FirstDifference(EmptyBoard, b1) == Some(4);
    assert FirstDifference(b1, b2) == Some(0);
    assert Entries(h, 2)[1] == EntryFor(h, 2, 1) == Entry(1, At(1, 1), false);
    assert Entries(h, 2)[2] == EntryFor(h, 2, 2) == Entry(2, At(0, 0), true);
  }

  /** Toggling the sort flag on any game reverses the list and leaves the game alone. */
  method SortToggle(g: Game)
    requires g.Valid()
    modifies g
  {
    var history, currentMove := g.history, g.currentMove;
    g.SetDescending(false);
    var ascending := g.MoveList();
    g.SetDescending(true);
    var descending := g.MoveList();
    assert g.history == history && g.currentMove == currentMove;
    DisplayedAt(ascending, true, 0);
    assert |descending| == |ascending| == |history|;
    forall k | 0 <= k < |ascending| ensures descending[k] == ascending[|ascending| - 1 - k] {
      DisplayedAt(ascending, true, k);
    }
  }
}
