/** The board of a 3x3 tic-tac-toe game and the two terminal tests the engine and the
    search share: the first complete line (`checkWinner`) and the full-board test
    (`isBoardFull`). */
module Rules {
  import opened Options

  /** A player's symbol. */
  datatype Mark = X | O {
    /** The player who moves after this one. */
    function Other(): Mark {
      if this == X then O else X
    }
  }

  /** One square: the empty string `''` of the JavaScript game, or a placed mark. */
  datatype Cell = Empty | Filled(mark: Mark)

  /** A square's position, row-major: row r, column c is 3 * r + c. */
  type Index = i: nat | i < 9

  /** Nine cells in row-major order. */
  type Board = b: seq<Cell> | |b| == 9 witness EmptyBoard

  const EmptyBoard: seq<Cell> := [Empty, Empty, Empty, Empty, Empty, Empty, Empty, Empty, Empty]

  /** Three positions that win when they hold the same mark. */
  datatype Line = Line(a: Index, b: Index, c: Index)

  /** The fixed table of winning lines, in the order `checkWinner` scans it:
      three rows, three columns, two diagonals. */
  const Lines: seq<Line> := [
    Line(0, 1, 2), Line(3, 4, 5), Line(6, 7, 8),
    Line(0, 3, 6), Line(1, 4, 7), Line(2, 5, 8),
    Line(0, 4, 8), Line(2, 4, 6)
  ]

  /** The test `checkWinner` applies to one line: the first cell is non-empty and the
      other two equal it. */
  predicate Complete(b: Board, k: nat)
    requires k < |Lines|
  {
    var l := Lines[k];
    b[l.a] != Empty && b[l.a] == b[l.b] && b[l.a] == b[l.c]
  }

  /** All three cells of `l` hold mark `m`. */
  predicate Holds(b: Board, l: Line, m: Mark) {
    b[l.a] == Filled(m) && b[l.b] == Filled(m) && b[l.c] == Filled(m)
  }

  /** Reference definition of a win: some line of the table is all `m`. */
  predicate HasLine(b: Board, m: Mark) {
    exists k :: 0 <= k < |Lines| && Holds(b, Lines[k], m)
  }

  /** A line is complete exactly when one of the two marks holds all of it. */
  lemma CompleteIffHeld(b: Board, k: nat)
    requires k < |Lines|
    ensures Complete(b, k) <==> Holds(b, Lines[k], X) || Holds(b, Lines[k], O)
  {
    match b[Lines[k].a]
    case Empty =>
    case Filled(X) =>
    case Filled(O) =>
  }

  /** The position in `Lines` of the first complete line at or after `k`, scanning in
      table order. */
  function FirstCompleteFrom(b: Board, k: nat): (r: Option<nat>)
    requires k <= |Lines|
    ensures r.Some? ==> k <= r.value < |Lines| && Complete(b, r.value)
    ensures r.Some? ==> forall j :: k <= j < r.value ==> !Complete(b, j)
    ensures r.None? <==> forall j :: k <= j < |Lines| ==> !Complete(b, j)
    decreases |Lines| - k
  {
    if k == |Lines| then None
    else if Complete(b, k) then Some(k)
    else FirstCompleteFrom(b, k + 1)
  }

  /** The line `checkWinner` (and the highlighting of the winning cells) stops at. */
  function WinningLine(b: Board): (r: Option<nat>)
    ensures r.Some? ==> r.value < |Lines| && Complete(b, r.value)
    ensures r.Some? ==> forall j :: 0 <= j < r.value ==> !Complete(b, j)
    ensures r.None? <==> forall j :: 0 <= j < |Lines| ==> !Complete(b, j)
  {
    FirstCompleteFrom(b, 0)
  }

  /** `checkWinner`: the mark on the first complete line of the table, or `None`
      (JavaScript's `null`) when no line is complete. */
  function Winner(b: Board): (r: Option<Mark>)
    ensures r.None? <==> !HasLine(b, X) && !HasLine(b, O)
    ensures r.Some? ==> HasLine(b, r.value)
    ensures r.Some? ==> exists k :: 0 <= k < |Lines| && Holds(b, Lines[k], r.value)
                                    && forall j :: 0 <= j < k ==> !Complete(b, j)
  {
    match WinningLine(b)
    case None =>
      assert forall m: Mark, k :: 0 <= k < |Lines| && Holds(b, Lines[k], m) ==> Complete(b, k);
      None
    case Some(k) =>
      var m := b[Lines[k].a].mark;
      assert Holds(b, Lines[k], m);
      assert HasLine(b, m);
      assert HasLine(b, X) || HasLine(b, O) by {
        if m == X { } else { assert m == O; }
      }
      Some(m)
  }

  /** When only one mark holds a line, that mark is the winner, whatever the order of
      the table. */
  lemma WinnerOfOneSidedBoard(b: Board, m: Mark)
    requires HasLine(b, m) && !HasLine(b, m.Other())
    ensures Winner(b) == Some(m)
  {
  }

  /** `isBoardFull`: no cell is empty. */
  predicate IsFull(b: Board) {
    forall i :: 0 <= i < |b| ==> b[i] != Empty
  }

  /** The number of cells of `s` equal to `c`. */
  function Count(s: seq<Cell>, c: Cell): (r: nat)
    ensures r <= |s|
  {
    if s == [] then 0 else (if s[0] == c then 1 else 0) + Count(s[1..], c)
  }

  /** The number of empty cells: the measure the search recursion decreases. */
  function CountEmpty(b: Board): nat {
    Count(b, Empty)
  }

  /** No occurrence is counted exactly when there is none. */
  lemma {:induction false} CountZeroIffAbsent(s: seq<Cell>, c: Cell)
    ensures Count(s, c) == 0 <==> forall i :: 0 <= i < |s| ==> s[i] != c
  {
    if s != [] {
      CountZeroIffAbsent(s[1..], c);
      assert forall i :: 1 <= i < |s| ==> s[i] == s[1..][i - 1];
    }
  }

  /** The full-board test agrees with the empty-cell count. */
  lemma FullIffNoEmptyCell(b: Board)
    ensures IsFull(b) <==> CountEmpty(b) == 0
  {
    CountZeroIffAbsent(b, Empty);
  }

  /** Overwriting one cell moves one unit of count from the old value to the new. */
  lemma {:induction false} CountAfterUpdate(s: seq<Cell>, i: nat, v: Cell, c: Cell)
    requires i < |s|
    ensures Count(s[i := v], c)
            == Count(s, c) - (if s[i] == c then 1 else 0) + (if v == c then 1 else 0)
  {
    if i > 0 {
      assert s[i := v][1..] == s[1..][i - 1 := v];
      CountAfterUpdate(s[1..], i - 1, v, c);
    } else {
      assert s[i := v][1..] == s[1..];
    }
  }

  /** Marking an empty cell leaves one fewer empty cell. */
  lemma PlacingUsesOneEmptyCell(b: Board, i: Index, m: Mark)
    requires b[i] == Empty
    ensures CountEmpty(b[i := Filled(m)]) == CountEmpty(b) - 1
    ensures Count(b[i := Filled(m)], Filled(m)) == Count(b, Filled(m)) + 1
    ensures Count(b[i := Filled(m)], Filled(m.Other())) == Count(b, Filled(m.Other()))
  {
    CountAfterUpdate(b, i, Filled(m), Empty);
    CountAfterUpdate(b, i, Filled(m), Filled(m));
    CountAfterUpdate(b, i, Filled(m), Filled(m.Other()));
  }

  /** On a board without a complete line, marking an empty cell with `m` can only
      complete lines of `m`: the winner afterwards is `m` or nobody. */
  lemma PlacingOnOpenBoard(b: Board, i: Index, m: Mark)
    requires Winner(b).None? && b[i] == Empty
    ensures Winner(b[i := Filled(m)]) == None || Winner(b[i := Filled(m)]) == Some(m)
    ensures !HasLine(b[i := Filled(m)], m.Other())
  {
  }
}
