/**
 * The board of the game and the winner evaluation (`calculateWinner`).
 * A square holds `null`, "X" or "O" in the program; here it is a `Cell`.
 */
module Boards {

  datatype Option<+T> = None | Some(value: T)

  /** The content of one square; `Empty` stands for the program's `null`. */
  datatype Cell = Empty | X | O

  /** A square index of the 3x3 grid, in row-major order. */
  type Index = i: int | 0 <= i < 9

  /** A board snapshot: exactly nine cells. */
  type Board = s: seq<Cell> | |s| == 9 witness [Empty, Empty, Empty, Empty, Empty, Empty, Empty, Empty, Empty]

  const EmptyBoard: Board := [Empty, Empty, Empty, Empty, Empty, Empty, Empty, Empty, Empty]

  /** An index triple that wins when uniformly occupied. */
  datatype Line = Line(a: Index, b: Index, c: Index)

  /** The eight lines, in the order they are scanned: rows, columns, then the two diagonals. */
  const Lines: seq<Line> := [
    Line(0, 1, 2), Line(3, 4, 5), Line(6, 7, 8),
    Line(0, 3, 6), Line(1, 4, 7), Line(2, 5, 8),
    Line(0, 4, 8), Line(2, 4, 6)
  ]

  /** What `calculateWinner` returns when it finds a line: the mark and the triple. */
  datatype Win = Win(mark: Cell, line: Line)

  /** The line is occupied by one non-empty mark in all three squares. */
  predicate LineWins(squares: Board, l: Line) {
    squares[l.a] != Empty && squares[l.a] == squares[l.b] && squares[l.a] == squares[l.c]
  }

  /** The number of cells of `s` that hold `c`. */
  function Count(s: seq<Cell>, c: Cell): nat {
    if s == [] then 0 else (if s[0] == c then 1 else 0) + Count(s[1..], c)
  }

  /**
   * The first winning line among `Lines[k..]`, as the scan from line `k` on
   * would report it.
   */
  function WinnerFrom(squares: Board, k: nat): (r: Option<Win>)
    requires k <= |Lines|
    ensures r.None? <==> forall p :: k <= p < |Lines| ==> !LineWins(squares, Lines[p])
    ensures r.Some? ==>
      exists j :: k <= j < |Lines| && Lines[j] == r.value.line && LineWins(squares, Lines[j]) &&
        r.value.mark == squares[Lines[j].a] &&
        forall p :: k <= p < j ==> !LineWins(squares, Lines[p])
    decreases |Lines| - k
  {
    if k == |Lines| then None
    else if LineWins(squares, Lines[k]) then Some(Win(squares[Lines[k].a], Lines[k]))
    else WinnerFrom(squares, k + 1)
  }

  /** The result of `calculateWinner(squares)`: the first winning line in scan order, or none. */
  function Winner(squares: Board): Option<Win> {
    WinnerFrom(squares, 0)
  }

  /**
   * `calculateWinner`: scan the lines in order and stop at the first that is
   * uniformly occupied by a mark.
   */
  method CalculateWinner(squares: Board) returns (r: Option<Win>)
    ensures r == Winner(squares)
  {
    var i := 0;
    while i < |Lines|
      invariant 0 <= i <= |Lines|
      invariant WinnerFrom(squares, i) == Winner(squares)
    {
      var l := Lines[i];
      if squares[l.a] != Empty && squares[l.a] == squares[l.b] && squares[l.a] == squares[l.c] {
        return Some(Win(squares[l.a], l));
      }
      i := i + 1;
    }
    return None;
  }

  /** A reported winner is a listed line, uniformly holding the reported (non-empty) mark. */
  lemma WinnerSound(squares: Board)
    requires Winner(squares).Some?
    ensures var w := Winner(squares).value;
      w.line in Lines && w.mark != Empty &&
      squares[w.line.a] == w.mark && squares[w.line.b] == w.mark && squares[w.line.c] == w.mark
  {
    // The line WinnerFrom reports is one of the listed lines that wins.
  }

  /** Any winning line makes the scan report a line no later than it in the listed order. */
  lemma WinnerFirst(squares: Board, p: nat)
    requires p < |Lines| && LineWins(squares, Lines[p])
    ensures Winner(squares).Some?
    ensures exists j :: 0 <= j <= p && Lines[j] == Winner(squares).value.line && LineWins(squares, Lines[j])
  {
    var w := Winner(squares);
    var j :| 0 <= j < |Lines| && Lines[j] == w.value.line && LineWins(squares, Lines[j]) &&
      forall q :: 0 <= q < j ==> !LineWins(squares, Lines[q]);
    assert j <= p;
  }

  /** No winner is reported exactly when no line is uniformly occupied. */
  lemma WinnerNoneIff(squares: Board)
    ensures Winner(squares).None? <==> forall l :: l in Lines ==> !LineWins(squares, l)
  {
    if Winner(squares).None? {
      forall l | l in Lines ensures !LineWins(squares, l) {
        var p :| 0 <= p < |Lines| && Lines[p] == l;
      }
    }
  }

  /** The count of a mark changes by one at most when one cell is overwritten. */
  lemma {:induction false} CountUpdate(s: seq<Cell>, i: nat, c: Cell, d: Cell)
    requires i < |s|
    ensures Count(s[i := c], d) == Count(s, d) - (if s[i] == d then 1 else 0) + (if c == d then 1 else 0)
  {
    if i == 0 {
      assert s[i := c][1..] == s[1..];
    } else {
      CountUpdate(s[1..], i - 1, c, d);
      assert s[i := c][1..] == s[1..][i - 1 := c];
    }
  }

  /** `Count` is zero exactly when the value does not occur. */
  lemma {:induction false} CountZero(s: seq<Cell>, c: Cell)
    ensures Count(s, c) == 0 <==> c !in s
  {
    if s != [] {
      CountZero(s[1..], c);
      assert s == [s[0]] + s[1..];
    }
  }

  /** The three counts partition the board. */
  lemma {:induction false} CountTotal(s: seq<Cell>)
    ensures Count(s, Empty) + Count(s, X) + Count(s, O) == |s|
  {
    if s != [] {
      CountTotal(s[1..]);
    }
  }
}
