/**
 * The history of board snapshots kept by the `Game` component, seen as values:
 * which histories the game can build, the first-difference search behind each
 * move-list label, and the order in which the list is shown.
 */
module Timeline {
  import opened Boards
  import opened BoardView

  /** `after` is what a legal click on some square of `before` produces for the given mover. */
  ghost predicate LegalStep(before: Board, xIsNext: bool, after: Board) {
    exists i: Index :: Click(before, xIsNext, i) == Some(after)
  }

  /** X moves from the snapshots with an even index (`currentMove % 2 === 0`). */
  predicate XMovesAt(move: nat) {
    move % 2 == 0
  }

  /**
   * A history the game can build: it starts from the empty board and every
   * snapshot comes from its predecessor by one legal click, X moving first.
   */
  ghost predicate LegalHistory(history: seq<Board>) {
    |history| >= 1 && history[0] == EmptyBoard &&
    forall m :: 0 < m < |history| ==> LegalStep(history[m - 1], XMovesAt(m - 1), history[m])
  }

  /** Truncating at the cursor and appending a legal click keeps a history legal. */
  lemma LegalPlay(history: seq<Board>, currentMove: nat, i: Index)
    requires LegalHistory(history) && currentMove < |history|
    requires Click(history[currentMove], XMovesAt(currentMove), i).Some?
    ensures LegalHistory(history[..currentMove + 1] + [Click(history[currentMove], XMovesAt(currentMove), i).value])
  {
    var next := Click(history[currentMove], XMovesAt(currentMove), i).value;
    var h := history[..currentMove + 1] + [next];
    forall m | 0 < m < |h| ensures LegalStep(h[m - 1], XMovesAt(m - 1), h[m]) {
      if m < currentMove + 1 {
        assert LegalStep(history[m - 1], XMovesAt(m - 1), history[m]);
      } else {
        assert h[m - 1] == history[currentMove] && h[m] == next;
      }
    }
  }

  lemma EmptyBoardCounts()
    ensures Count(EmptyBoard, X) == 0 && Count(EmptyBoard, O) == 0 && Count(EmptyBoard, Empty) == 9
  {
    CountZero(EmptyBoard, X);
    CountZero(EmptyBoard, O);
    CountTotal(EmptyBoard);
  }

  /**
   * Snapshot `k` of a legal history holds (k+1)/2 X marks, k/2 O marks and
   * 9-k empty squares: the marks alternate X, O, X, ... along the history.
   */
  lemma {:induction false} LegalCounts(history: seq<Board>, k: nat)
    requires LegalHistory(history) && k < |history|
    ensures Count(history[k], X) == (k + 1) / 2
    ensures Count(history[k], O) == k / 2
    ensures Count(history[k], Empty) == 9 - k
  {
    if k == 0 {
      EmptyBoardCounts();
    } else {
      LegalCounts(history, k - 1);
      assert LegalStep(history[k - 1], XMovesAt(k - 1), history[k]);
      var i: Index :| Click(history[k - 1], XMovesAt(k - 1), i) == Some(history[k]);
      ClickCounts(history[k - 1], XMovesAt(k - 1), i);
    }
  }

  /** A legal history has at most ten snapshots: nine moves fill the board. */
  lemma LegalLength(history: seq<Board>)
    requires LegalHistory(history)
    ensures |history| <= 10
  {
    LegalCounts(history, |history| - 1);
  }

  /** On a legal history, X is to move exactly when X and O have placed equally many marks. */
  lemma TurnMatchesMarks(history: seq<Board>, k: nat)
    requires LegalHistory(history) && k < |history|
    ensures k % 2 == 0 <==> Count(history[k], X) == Count(history[k], O)
  {
    LegalCounts(history, k);
  }

  /** On a legal history, the board is full exactly at move nine. */
  lemma FullExactlyAtNine(history: seq<Board>, k: nat)
    requires LegalHistory(history) && k < |history|
    ensures Empty !in history[k] <==> k == 9
  {
    LegalCounts(history, k);
    CountZero(history[k], Empty);
  }

  /**
   * On a legal history, every line that wins on snapshot `k` holds the mark of
   * the player who made move `k`; the empty start has no winning line.
   */
  lemma WinningLineIsLastMover(history: seq<Board>, k: nat, p: nat)
    requires LegalHistory(history) && k < |history|
    requires p < |Lines| && LineWins(history[k], Lines[p])
    ensures k > 0 && history[k][Lines[p].a] == Mark(XMovesAt(k - 1))
  {
    if k > 0 {
      assert LegalStep(history[k - 1], XMovesAt(k - 1), history[k]);
      var i: Index :| Click(history[k - 1], XMovesAt(k - 1), i) == Some(history[k]);
      var l := Lines[p];
      assert Winner(history[k - 1]).None?;
      assert !LineWins(history[k - 1], l);
      assert i == l.a || i == l.b || i == l.c;
    }
  }

  /** On a legal history, the reported winner is the player who made the last move. */
  lemma WinnerIsLastMover(history: seq<Board>, k: nat)
    requires LegalHistory(history) && k < |history|
    requires Winner(history[k]).Some?
    ensures k > 0 && Winner(history[k]).value.mark == Mark(XMovesAt(k - 1))
  {
    var w := Winner(history[k]).value;
    var j :| 0 <= j < |Lines| && Lines[j] == w.line && LineWins(history[k], Lines[j]) &&
      w.mark == history[k][Lines[j].a];
    WinningLineIsLastMover(history, k, j);
  }

  /**
   * On a legal history, no move follows a win: every snapshot that has a
   * successor has no winner, so a won board is always the last snapshot.
   */
  lemma NoMoveAfterWin(history: seq<Board>, k: nat)
    requires LegalHistory(history) && k + 1 < |history|
    ensures Winner(history[k]).None?
  {
    assert LegalStep(history[k], XMovesAt(k), history[k + 1]);
  }

  /**
   * The status line along a legal history: a win is always the last mover's,
   * a draw only appears at move nine, and the announced next player is X
   * exactly when both players have placed equally many marks.
   */
  lemma StatusOfLegalSnapshot(history: seq<Board>, k: nat)
    requires LegalHistory(history) && k < |history|
    ensures var s := StatusOf(history[k], XMovesAt(k));
      (s.Won? ==> k > 0 && s.mark == Mark(XMovesAt(k - 1))) &&
      (s.Draw? ==> k == 9) &&
      (s.NextPlayer? ==> (s.mark == X <==> Count(history[k], X) == Count(history[k], O)))
  {
    LegalCounts(history, k);
    FullExactlyAtNine(history, k);
    if Winner(history[k]).Some? {
      WinnerIsLastMover(history, k);
    }
  }

  /** The first index from `k` on where the two snapshots differ. */
  function FirstDifferenceFrom(previous: Board, present: Board, k: nat): (r: Option<Index>)
    requires k <= 9
    ensures r.None? <==> forall j :: k <= j < 9 ==> previous[j] == present[j]
    ensures r.Some? ==> k <= r.value && previous[r.value] != present[r.value]
    ensures r.Some? ==> forall j :: k <= j < r.value ==> previous[j] == present[j]
    decreases 9 - k
  {
    if k == 9 then None
    else if previous[k] != present[k] then Some(k)
    else FirstDifferenceFrom(previous, present, k + 1)
  }

  /** The first index where the two snapshots differ, if any. */
  function FirstDifference(previous: Board, present: Board): Option<Index> {
    FirstDifferenceFrom(previous, present, 0)
  }

  /** The label loop of the move list: the first index where consecutive snapshots differ. */
  method FindFirstDifference(previous: Board, present: Board) returns (index: Option<Index>)
    ensures index == FirstDifference(previous, present)
  {
    index := None;
    for i := 0 to 9
      invariant FirstDifferenceFrom(previous, present, i) == FirstDifference(previous, present)
    {
      if previous[i] != present[i] {
        index := Some(i);
        break;
      }
    }
    if index.None? {
      assert FirstDifferenceFrom(previous, present, 9) == None;
    }
  }

  /** The first difference between a board and its legal successor is the square just played. */
  lemma DifferenceOfClick(squares: Board, xIsNext: bool, i: Index)
    requires Click(squares, xIsNext, i).Some?
    ensures FirstDifference(squares, Click(squares, xIsNext, i).value) == Some(i)
  {
    var next := Click(squares, xIsNext, i).value;
    assert squares[i] != next[i];
  }

  /** The grid position a move-list entry names. `Unknown` is the program's NaN row and column. */
  datatype Position = Start | At(row: nat, col: nat) | Unknown

  /** Row and column of a square index (`Math.floor(index / 3)`, `index % 3`). */
  function Coordinates(index: Index): (p: Position)
    ensures p.At? && p.row < 3 && p.col < 3 && 3 * p.row + p.col == index
  {
    At(index / 3, index % 3)
  }

  /** One item of the move list, without its string formatting. */
  datatype Entry = Entry(move: nat, position: Position, isCurrent: bool)

  /**
   * The entry for snapshot `move`: the start has no position; a later move is
   * labelled with the first square where it differs from its predecessor.
   */
  function EntryFor(history: seq<Board>, currentMove: nat, move: nat): (e: Entry)
    requires move < |history|
    ensures e.move == move && (e.isCurrent <==> move == currentMove)
    ensures e.position.Start? <==> move == 0
    ensures e.position.Unknown? <==> move > 0 && history[move - 1] == history[move]
    ensures e.position.At? ==>
      move > 0 && FirstDifference(history[move - 1], history[move]).Some? &&
      e.position == Coordinates(FirstDifference(history[move - 1], history[move]).value)
  {
    var position :=
      if move == 0 then Start
      else (match FirstDifference(history[move - 1], history[move])
        case None => Unknown
        case Some(index) => Coordinates(index));
    assert position.Unknown? ==> history[move - 1] == history[move];
    Entry(move, position, move == currentMove)
  }

  /** The move list in ascending order: one entry per snapshot. */
  function Entries(history: seq<Board>, currentMove: nat): (es: seq<Entry>)
    ensures |es| == |history|
    ensures forall m :: 0 <= m < |history| ==> es[m] == EntryFor(history, currentMove, m)
  {
    seq(|history|, m requires 0 <= m < |history| => EntryFor(history, currentMove, m))
  }

  /** On a legal history every entry after the start names the square played at that move. */
  lemma LabelIsPlayedSquare(history: seq<Board>, currentMove: nat, m: nat)
    requires LegalHistory(history) && 0 < m < |history|
    ensures exists i: Index ::
      Click(history[m - 1], XMovesAt(m - 1), i) == Some(history[m]) &&
      Entries(history, currentMove)[m].position == At(i / 3, i % 3)
  {
    assert LegalStep(history[m - 1], XMovesAt(m - 1), history[m]);
    var i: Index :| Click(history[m - 1], XMovesAt(m - 1), i) == Some(history[m]);
    DifferenceOfClick(history[m - 1], XMovesAt(m - 1), i);
    assert Entries(history, currentMove)[m] == EntryFor(history, currentMove, m);
    assert EntryFor(history, currentMove, m).position == Coordinates(i);
  }

  /** `Array.prototype.reverse` on a list, as a value. */
  function Reverse<T>(s: seq<T>): seq<T> {
    if s == [] then [] else Reverse(s[1..]) + [s[0]]
  }

  /** Element `k` of the reversed sequence is element `|s| - 1 - k` of the original. */
  lemma {:induction false} ReverseAt<T>(s: seq<T>, k: nat)
    requires k < |s|
    ensures |Reverse(s)| == |s| && Reverse(s)[k] == s[|s| - 1 - k]
  {
    ReverseLength(s);
    if k < |s| - 1 {
      ReverseAt(s[1..], k);
    }
  }

  lemma {:induction false} ReverseLength<T>(s: seq<T>)
    ensures |Reverse(s)| == |s|
  {
    if s != [] {
      ReverseLength(s[1..]);
    }
  }

  /** The list as shown: reversed in descending mode, as built otherwise. */
  function Displayed(entries: seq<Entry>, isDescending: bool): seq<Entry> {
    if isDescending then Reverse(entries) else entries
  }

  /** Descending mode only reverses the list: entry `k` shown is ascending entry `|entries| - 1 - k`. */
  lemma DisplayedAt(entries: seq<Entry>, isDescending: bool, k: nat)
    requires k < |entries|
    ensures |Displayed(entries, isDescending)| == |entries|
    ensures Displayed(entries, isDescending)[k] == entries[if isDescending then |entries| - 1 - k else k]
  {
    if isDescending {
      ReverseAt(entries, k);
    }
  }
}
