/** The computer player's exhaustive, unpruned minimax search (`minimax`). O is
    always the maximiser; the search scores a finished board from O's side and
    prefers faster wins and slower losses by subtracting the depth. */
module Search {
  import opened Options
  import opened Rules

  /** What one call of the search returns: a finished board yields only a score
      (`{score}` in `TicTacToe.minimax`); an open board yields the chosen cell and its score
      (`{index, score}`). */
  datatype Evaluation = Leaf(score: int) | Choice(index: Index, score: int)

  /** One entry of the list of moves the search builds: a candidate cell and the
      score of the board after playing it. */
  datatype Candidate = Candidate(index: Index, score: int)

  /** The mark the side to move places: O when maximising, X otherwise. */
  function Mover(maximizing: bool): Mark {
    if maximizing then O else X
  }

  /** The board is finished: somebody holds a line or no cell is empty. */
  predicate Terminal(b: Board) {
    Winner(b).Some? || IsFull(b)
  }

  /** Score `s` replaces the best so far `t`: strictly greater for the maximiser,
      strictly smaller for the minimiser. Equal scores never replace, so the first
      best candidate stays. */
  predicate Beats(s: int, t: int, maximizing: bool) {
    if maximizing then s > t else s < t
  }

  /** `minimax(board, depth, isMaximizing)`. */
  function Minimax(b: Board, depth: nat, maximizing: bool): (r: Evaluation)
    ensures Winner(b) == Some(O) ==> r == Leaf(10 - depth)
    ensures Winner(b) == Some(X) ==> r == Leaf(depth - 10)
    ensures Winner(b).None? && IsFull(b) ==> r == Leaf(0)
    ensures !Terminal(b) ==> r.Choice? && b[r.index] == Empty
    ensures depth + CountEmpty(b) <= 9 ==> depth - 10 <= r.score <= 10 - depth
    ensures depth + CountEmpty(b) <= 9 && !Terminal(b) ==> depth - 9 <= r.score <= 9 - depth
    decreases CountEmpty(b), 10
  {
    var w := Winner(b);
    if w == Some(O) then Leaf(10 - depth)
    else if w == Some(X) then Leaf(depth - 10)
    else if IsFull(b) then Leaf(0)
    else
      var moves := Candidates(b, depth, maximizing, EmptyCellsFrom(b, 0));
      var best := PickBest(moves, maximizing, 0, None).value;
      Choice(moves[best].index, moves[best].score)
  }

  /** The cells the loop of `minimax` tries, from `i` up to 8: the empty ones, in
      increasing order. */
  function EmptyCellsFrom(b: Board, i: nat): (r: seq<Index>)
    requires i <= 9
    ensures |r| <= 9 - i
    ensures forall k :: 0 <= k < |r| ==> i <= r[k] && b[r[k]] == Empty
    ensures forall k, l :: 0 <= k < l < |r| ==> r[k] < r[l]
    ensures forall j: Index :: i <= j && b[j] == Empty ==> j in r
    decreases 9 - i
  {
    if i == 9 then []
    else if b[i] == Empty then [i as Index] + EmptyCellsFrom(b, i + 1)
    else EmptyCellsFrom(b, i + 1)
  }

  /** The body of the loop of `minimax` over the tried cells: each is marked for the
      side to move and scored by a recursive search one ply deeper for the other
      side; the board itself is never changed. */
  function Candidates(b: Board, depth: nat, maximizing: bool, cells: seq<Index>): (r: seq<Candidate>)
    requires |cells| <= 9
    requires forall k :: 0 <= k < |cells| ==> b[cells[k]] == Empty
    ensures |r| == |cells|
    ensures forall k :: 0 <= k < |r| ==> r[k].index == cells[k]
    ensures depth + CountEmpty(b) <= 9 ==>
              forall k :: 0 <= k < |r| ==> depth - 9 <= r[k].score <= 9 - depth
    decreases CountEmpty(b), |cells|
  {
    if cells == [] then []
    else
      PlacingUsesOneEmptyCell(b, cells[0], Mover(maximizing));
      var result := Minimax(b[cells[0] := Filled(Mover(maximizing))], depth + 1, !maximizing);
      [Candidate(cells[0], result.score)] + Candidates(b, depth, maximizing, cells[1..])
  }

  /** The selection loop of `minimax`: scans `moves` from position `k`, keeping in
      `best` the position of the best candidate so far. `None` stands for the
      JavaScript game's `-Infinity`/`Infinity` starting score, which every real score beats. */
  function PickBest(moves: seq<Candidate>, maximizing: bool, k: nat, best: Option<nat>): (r: Option<nat>)
    requires k <= |moves|
    requires best.Some? ==> best.value < k
    ensures r.Some? <==> best.Some? || k < |moves|
    ensures r.Some? ==> r.value < |moves|
    ensures r.Some? && best.Some? ==> r.value == best.value || k <= r.value
    decreases |moves| - k
  {
    if k == |moves| then best
    else if best.None? || Beats(moves[k].score, moves[best.value].score, maximizing) then
      PickBest(moves, maximizing, k + 1, Some(k))
    else
      PickBest(moves, maximizing, k + 1, best)
  }

  /** Position `j` holds the first best of the first `n` candidates: nobody among
      them beats it, and it beats everyone before it. */
  ghost predicate BestAmong(moves: seq<Candidate>, maximizing: bool, j: nat, n: nat)
    requires n <= |moves|
  {
    && j < n
    && (forall k :: 0 <= k < n ==> !Beats(moves[k].score, moves[j].score, maximizing))
    && (forall k :: 0 <= k < j ==> Beats(moves[j].score, moves[k].score, maximizing))
  }

  /** The strict comparison makes the selection loop return the first candidate of
      best score: the highest for the maximiser, the lowest for the minimiser. */
  lemma {:induction false} PickBestFindsFirstBest(moves: seq<Candidate>, maximizing: bool, k: nat, best: Option<nat>)
    requires k <= |moves|
    requires best.None? ==> k == 0
    requires best.Some? ==> BestAmong(moves, maximizing, best.value, k)
    requires |moves| > 0
    ensures PickBest(moves, maximizing, k, best).Some?
    ensures BestAmong(moves, maximizing, PickBest(moves, maximizing, k, best).value, |moves|)
    decreases |moves| - k
  {
    if k < |moves| {
      if best.None? || Beats(moves[k].score, moves[best.value].score, maximizing) {
        PickBestFindsFirstBest(moves, maximizing, k + 1, Some(k));
      } else {
        PickBestFindsFirstBest(moves, maximizing, k + 1, best);
      }
    }
  }

  /** The score the search gives to playing cell `j` for the side to move. */
  function ChildScore(b: Board, depth: nat, maximizing: bool, j: Index): int {
    Minimax(b[j := Filled(Mover(maximizing))], depth + 1, !maximizing).score
  }

  /** Each candidate carries the score of the recursive search from its cell. */
  lemma {:induction false} CandidateScores(b: Board, depth: nat, maximizing: bool, cells: seq<Index>)
    requires |cells| <= 9
    requires forall k :: 0 <= k < |cells| ==> b[cells[k]] == Empty
    ensures forall k :: 0 <= k < |cells| ==>
              Candidates(b, depth, maximizing, cells)[k].score
              == ChildScore(b, depth, maximizing, cells[k])
    decreases |cells|
  {
    if cells != [] {
      CandidateScores(b, depth, maximizing, cells[1..]);
    }
  }

  /** On an open board the search plays an empty cell whose score is the best over
      all empty cells (highest when maximising, lowest when minimising), and among
      equally good cells it plays the lowest-numbered one. */
  lemma MinimaxChoosesFirstBest(b: Board, depth: nat, maximizing: bool)
    requires !Terminal(b)
    ensures Minimax(b, depth, maximizing).Choice?
    ensures b[Minimax(b, depth, maximizing).index] == Empty
    ensures Minimax(b, depth, maximizing).score
            == ChildScore(b, depth, maximizing, Minimax(b, depth, maximizing).index)
    ensures forall j: Index :: b[j] == Empty ==>
              !Beats(ChildScore(b, depth, maximizing, j), Minimax(b, depth, maximizing).score, maximizing)
    ensures forall j: Index :: j < Minimax(b, depth, maximizing).index && b[j] == Empty ==>
              Beats(Minimax(b, depth, maximizing).score, ChildScore(b, depth, maximizing, j), maximizing)
  {
    var cells := EmptyCellsFrom(b, 0);
    var moves := Candidates(b, depth, maximizing, cells);
    var best := PickBest(moves, maximizing, 0, None).value;
    var r := Minimax(b, depth, maximizing);
    assert r == Choice(moves[best].index, moves[best].score);
    PickBestFindsFirstBest(moves, maximizing, 0, None);
    CandidateScores(b, depth, maximizing, cells);
    FirstBestOverEmptyCells(b, depth, maximizing, cells, moves, best);
  }

  /** The first best candidate is no worse than any empty cell and strictly better
      than every empty cell before it. */
  lemma FirstBestOverEmptyCells(b: Board, depth: nat, maximizing: bool, cells: seq<Index>,
                                moves: seq<Candidate>, best: nat)
    requires cells == EmptyCellsFrom(b, 0)
    requires |moves| == |cells|
    requires forall k :: 0 <= k < |cells| ==> moves[k].index == cells[k]
    requires forall k :: 0 <= k < |cells| ==>
               moves[k].score == ChildScore(b, depth, maximizing, cells[k])
    requires BestAmong(moves, maximizing, best, |moves|)
    ensures forall j: Index :: b[j] == Empty ==>
              !Beats(ChildScore(b, depth, maximizing, j), moves[best].score, maximizing)
    ensures forall j: Index :: j < moves[best].index && b[j] == Empty ==>
              Beats(moves[best].score, ChildScore(b, depth, maximizing, j), maximizing)
  {
    forall j: Index | b[j] == Empty
      ensures !Beats(ChildScore(b, depth, maximizing, j), moves[best].score, maximizing)
      ensures j < moves[best].index ==> Beats(moves[best].score, ChildScore(b, depth, maximizing, j), maximizing)
    {
      var k := PositionOf(cells, j);
      assert !Beats(moves[k].score, moves[best].score, maximizing);
      if j < moves[best].index {
        AscendingPositions(cells, k, best);
      }
    }
  }

  /** The position of cell `j` in a list of cells that contains it. */
  function PositionOf(cells: seq<Index>, j: Index): (k: nat)
    requires j in cells
    ensures k < |cells| && cells[k] == j
  {
    if cells[0] == j then 0 else 1 + PositionOf(cells[1..], j)
  }

  /** In a strictly ascending list, a smaller cell sits at an earlier position. */
  lemma AscendingPositions(cells: seq<Index>, k: nat, l: nat)
    requires forall p, q :: 0 <= p < q < |cells| ==> cells[p] < cells[q]
    requires k < |cells| && l < |cells| && cells[k] < cells[l]
    ensures k < l
  {
  }

  /** The best score the side to move can get: a win on its next ply. */
  function QuickWinScore(depth: nat, maximizing: bool): int {
    if maximizing then 9 - depth else depth - 9
  }

  /** Playing a cell that completes a line of the mover's mark scores a win one ply
      deeper; any other cell scores strictly worse for the mover. */
  lemma ChildScoreOfWin(b: Board, depth: nat, maximizing: bool, j: Index)
    requires !Terminal(b) && depth + CountEmpty(b) <= 9 && b[j] == Empty
    ensures Winner(b[j := Filled(Mover(maximizing))]) == Some(Mover(maximizing)) ==>
              ChildScore(b, depth, maximizing, j) == QuickWinScore(depth, maximizing)
    ensures Winner(b[j := Filled(Mover(maximizing))]) != Some(Mover(maximizing)) ==>
              Beats(QuickWinScore(depth, maximizing), ChildScore(b, depth, maximizing, j), maximizing)
  {
    var m := Mover(maximizing);
    var b' := b[j := Filled(m)];
    PlacingUsesOneEmptyCell(b, j, m);
    PlacingOnOpenBoard(b, j, m);
    FullIffNoEmptyCell(b);
    assert depth + 1 + CountEmpty(b') <= 9;
  }

  /** When the side to move can complete a line at once, the search does so: it
      scores the position as that quick win and plays the lowest-numbered cell
      that wins immediately. */
  lemma MinimaxTakesImmediateWin(b: Board, depth: nat, maximizing: bool, w: Index)
    requires !Terminal(b) && depth + CountEmpty(b) <= 9
    requires b[w] == Empty && Winner(b[w := Filled(Mover(maximizing))]) == Some(Mover(maximizing))
    ensures Minimax(b, depth, maximizing).Choice?
    ensures Minimax(b, depth, maximizing).score == QuickWinScore(depth, maximizing)
    ensures var i := Minimax(b, depth, maximizing).index;
              Winner(b[i := Filled(Mover(maximizing))]) == Some(Mover(maximizing))
    ensures forall j: Index :: j < Minimax(b, depth, maximizing).index && b[j] == Empty ==>
              Winner(b[j := Filled(Mover(maximizing))]) != Some(Mover(maximizing))
  {
    MinimaxChoosesFirstBest(b, depth, maximizing);
    var r := Minimax(b, depth, maximizing);
    QuickWinIsChosen(b, depth, maximizing, w, r.index, r.score);
    NoEarlierQuickWin(b, depth, maximizing, r.index);
  }

  /** Cells whose score is strictly worse than the quick win do not win at once. */
  lemma NoEarlierQuickWin(b: Board, depth: nat, maximizing: bool, i: Index)
    requires !Terminal(b) && depth + CountEmpty(b) <= 9
    requires forall j: Index :: j < i && b[j] == Empty ==>
               Beats(QuickWinScore(depth, maximizing), ChildScore(b, depth, maximizing, j), maximizing)
    ensures forall j: Index :: j < i && b[j] == Empty ==>
              Winner(b[j := Filled(Mover(maximizing))]) != Some(Mover(maximizing))
  {
  }

  /** The arithmetic step of the lemma above: a cell whose score no empty cell beats,
      on a board where cell `w` wins at once, scores the quick win and wins at once. */
  lemma QuickWinIsChosen(b: Board, depth: nat, maximizing: bool, w: Index, i: Index, score: int)
    requires !Terminal(b) && depth + CountEmpty(b) <= 9
    requires b[w] == Empty && Winner(b[w := Filled(Mover(maximizing))]) == Some(Mover(maximizing))
    requires b[i] == Empty && score == ChildScore(b, depth, maximizing, i)
    requires !Beats(ChildScore(b, depth, maximizing, w), score, maximizing)
    ensures score == QuickWinScore(depth, maximizing)
    ensures Winner(b[i := Filled(Mover(maximizing))]) == Some(Mover(maximizing))
  {
    ChildScoreOfWin(b, depth, maximizing, w);
    ChildScoreOfWin(b, depth, maximizing, i);
  }

  /** `minimax` as the JavaScript game runs it: on one shared, mutable board. Each tried cell
      is marked, searched from and set back to empty, so the caller sees the board
      unchanged, and the result is the one `Minimax` defines. */
  method SearchInPlace(a: array<Cell>, depth: nat, maximizing: bool) returns (e: Evaluation)
    requires a.Length == 9
    modifies a
    ensures a[..] == old(a[..])
    ensures e == Minimax(old(a[..]), depth, maximizing)
    decreases CountEmpty(a[..]), 2
  {
    var b: Board := a[..];
    var w := Winner(b);
    if w == Some(O) { return Leaf(10 - depth); }
    if w == Some(X) { return Leaf(depth - 10); }
    if IsFull(b) { return Leaf(0); }
    var moves := ScoreEmptyCells(a, depth, maximizing);
    var best := SelectBest(moves, maximizing);
    e := Choice(moves[best.value].index, moves[best.value].score);
  }

  /** The first loop of `minimax`: every empty cell, in increasing order, becomes a
      candidate scored by a recursive search. */
  method ScoreEmptyCells(a: array<Cell>, depth: nat, maximizing: bool) returns (moves: seq<Candidate>)
    requires a.Length == 9
    modifies a
    ensures a[..] == old(a[..])
    ensures moves == Candidates(old(a[..]), depth, maximizing, EmptyCellsFrom(old(a[..]), 0))
    decreases CountEmpty(a[..]), 1
  {
    var b: Board := a[..];
    moves := [];
    var i := 0;
    while i < 9
      invariant 0 <= i <= 9
      invariant a[..] == b
      invariant moves + Candidates(b, depth, maximizing, EmptyCellsFrom(b, i))
                == Candidates(b, depth, maximizing, EmptyCellsFrom(b, 0))
    {
      if a[i] == Empty {
        ghost var rest := Candidates(b, depth, maximizing, EmptyCellsFrom(b, i + 1));
        CandidatesStep(b, depth, maximizing, i);
        var c := TryCell(a, b, depth, maximizing, i);
        AppendAssociates(moves, [c], rest);
        moves := moves + [c];
      }
      i := i + 1;
    }
  }

  /** The body of the first loop for one empty cell: make the move, score it one ply
      deeper for the other side, undo the move. */
  method TryCell(a: array<Cell>, ghost b: Board, depth: nat, maximizing: bool, i: Index)
    returns (c: Candidate)
    requires a.Length == 9 && a[..] == b && b[i] == Empty
    modifies a
    ensures a[..] == b
    ensures c == Candidate(i, ChildScore(b, depth, maximizing, i))
    decreases CountEmpty(b), 0
  {
    var m := Mover(maximizing);
    PlacingUsesOneEmptyCell(b, i, m);
    a[i] := Filled(m);
    assert a[..] == b[i := Filled(m)];
    var result := SearchInPlace(a, depth + 1, !maximizing);
    a[i] := Empty;
    assert a[..] == b;
    c := Candidate(i, result.score);
  }

  /** Concatenation regroups freely. */
  lemma AppendAssociates<T>(s: seq<T>, t: seq<T>, u: seq<T>)
    ensures (s + t) + u == s + (t + u)
  {
  }

  /** One step of the first loop: an empty cell `i` contributes its candidate in
      front of those of the later cells. */
  lemma CandidatesStep(b: Board, depth: nat, maximizing: bool, i: Index)
    requires b[i] == Empty
    ensures Candidates(b, depth, maximizing, EmptyCellsFrom(b, i))
            == [Candidate(i, ChildScore(b, depth, maximizing, i))]
               + Candidates(b, depth, maximizing, EmptyCellsFrom(b, i + 1))
  {
  }

  /** The second loop of `minimax`: keep the first candidate whose score beats the
      best so far, starting from the infinite sentinel. */
  method SelectBest(moves: seq<Candidate>, maximizing: bool) returns (best: Option<nat>)
    ensures best == PickBest(moves, maximizing, 0, None)
  {
    best := None;
    var k := 0;
    while k < |moves|
      invariant 0 <= k <= |moves|
      invariant best.Some? ==> best.value < k
      invariant PickBest(moves, maximizing, k, best) == PickBest(moves, maximizing, 0, None)
    {
      if best.None? || Beats(moves[k].score, moves[best.value].score, maximizing) {
        best := Some(k);
      }
      k := k + 1;
    }
  }
}
