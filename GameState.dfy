/**
 * The `Game` component's state: the history of snapshots, the cursor into it
 * and the sort flag of the move list, with the operations that change them.
 */
module GameState {
  import opened Boards
  import opened BoardView
  import opened Timeline

  class Game {
    var history: seq<Board>
    var currentMove: nat
    var isDescending: bool

    /** The cursor always names a snapshot of the history. */
    ghost predicate Valid()
      reads this
    {
      |history| >= 1 && currentMove < |history|
    }

    /** A new game: only the empty board, X to move, ascending list. */
    constructor ()
      ensures Valid() && LegalHistory(history)
      ensures history == [EmptyBoard] && currentMove == 0 && !isDescending
    {
      history := [EmptyBoard];
      currentMove := 0;
      isDescending := false;
    }

    /** `xIsNext`: X is to move when the cursor is even. */
    function XIsNext(): bool
      reads this
    {
      XMovesAt(currentMove)
    }

    /** `currentSquares`: the snapshot the cursor names. */
    function CurrentSquares(): Board
      reads this
      requires Valid()
    {
      history[currentMove]
    }

    /**
     * On a game grown by legal clicks, the parity rule for `xIsNext` names X
     * exactly when the board on display holds as many X marks as O marks.
     */
    lemma XIsNextMatchesBoard()
      requires Valid() && LegalHistory(history)
      ensures XIsNext() <==> Count(CurrentSquares(), X) == Count(CurrentSquares(), O)
    {
      TurnMatchesMarks(history, currentMove);
    }

    /**
     * `handlePlay`: keep the snapshots up to the cursor, drop the later ones,
     * append the new board and move the cursor onto it.
     */
    method HandlePlay(nextSquares: Board)
      requires Valid()
      modifies this
      ensures Valid() && isDescending == old(isDescending)
      ensures history == old(history[..currentMove + 1]) + [nextSquares]
      ensures currentMove == |history| - 1 == old(currentMove) + 1
    {
      var nextHistory := history[..currentMove + 1] + [nextSquares];
      history := nextHistory;
      currentMove := |nextHistory| - 1;
    }

    /** `jumpToMove`: move the cursor only; the history is untouched. */
    method JumpToMove(nextMove: nat)
      requires Valid() && nextMove < |history|
      modifies this`currentMove
      ensures Valid() && currentMove == nextMove
      ensures history == old(history) && isDescending == old(isDescending)
    {
      currentMove := nextMove;
    }

    /** The sort checkbox: sets the flag and nothing else. */
    method SetDescending(checked: bool)
      modifies this`isDescending
      ensures isDescending == checked
      ensures history == old(history) && currentMove == old(currentMove)
    {
      isDescending := checked;
    }

    /**
     * A click on square `i` of the board on display: `handleClick` wired to
     * `handlePlay`. An ignored click changes nothing; a legal one appends the
     * clicked board after the cursor, flips the turn and keeps the history legal.
     */
    method ClickSquare(i: Index)
      requires Valid()
      modifies this
      ensures Valid() && isDescending == old(isDescending)
      ensures old(Click(CurrentSquares(), XIsNext(), i)).None? ==>
        history == old(history) && currentMove == old(currentMove)
      ensures old(Click(CurrentSquares(), XIsNext(), i)).Some? ==>
        history == old(history[..currentMove + 1]) + [old(Click(CurrentSquares(), XIsNext(), i)).value] &&
        currentMove == old(currentMove) + 1 && XIsNext() == !old(XIsNext())
      ensures old(LegalHistory(history)) ==> LegalHistory(history)
    {
      var nextSquares := HandleClick(history[currentMove], XMovesAt(currentMove), i);
      if nextSquares.Some? {
        ghost var before, cursor := history, currentMove;
        HandlePlay(nextSquares.value);
        if LegalHistory(before) {
          LegalPlay(before, cursor, i);
        }
      }
    }

    /**
     * The move list as rendered: one entry per snapshot, labelled by the first
     * square where it differs from its predecessor, reversed in descending mode.
     */
    method MoveList() returns (moves: seq<Entry>)
      requires Valid()
      ensures moves == Displayed(Entries(history, currentMove), isDescending)
    {
      moves := [];
      for move := 0 to |history|
        invariant moves == Entries(history, currentMove)[..move]
      {
        var position := Start;
        if move > 0 {
          var index := FindFirstDifference(history[move - 1], history[move]);
          match index
          case None => position := Unknown;
          case Some(k) => position := Coordinates(k);
        }
        moves := moves + [Entry(move, position, move == currentMove)];
      }
      assert moves == Entries(history, currentMove);
      if isDescending {
        moves := Reverse(moves);
      }
    }
  }
}
