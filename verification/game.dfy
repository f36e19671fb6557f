/** The game-state machine of the `TicTacToe` class: the board, the player to move,
    the `gameActive` flag, the mode and the X/O/ties tally, with one pure transition
    per operation of the class. Rendering, event wiring, timers and storage are not
    part of this model; a click reaches it as a cell number and a timer firing as a
    call of `AIMove`. */
module Game {
  import opened Options
  import opened Rules
  import opened Search

  /** `gameMode`: `'pvp'` or `'ai'`. In computer mode the AI plays O. */
  datatype Mode = PlayerVsPlayer | PlayerVsComputer

  /** The `scores` object. */
  datatype Scores = Scores(x: nat, o: nat, ties: nat)

  /** What `endGame` is told: the winning mark, or `'tie'`. */
  datatype Result = Win(winner: Mark) | Tie

  datatype State = State(board: Board, current: Mark, mode: Mode, active: bool, scores: Scores)

  const NoScores := Scores(0, 0, 0)

  /** The counter of the tally that `res` bumps. */
  function Tally(sc: Scores, res: Result): nat {
    match res
    case Tie => sc.ties
    case Win(X) => sc.x
    case Win(O) => sc.o
  }

  /** Games counted so far. */
  function Total(sc: Scores): nat {
    sc.x + sc.o + sc.ties
  }

  /** The counter for `res` went up by one and no other counter moved. */
  ghost predicate BumpedOnce(before: Scores, after: Scores, res: Result) {
    && Tally(after, res) == Tally(before, res) + 1
    && forall other: Result :: other != res ==> Tally(after, other) == Tally(before, other)
  }

  /** A bump of one counter adds one game to the total. */
  lemma BumpAddsOneGame(before: Scores, after: Scores, res: Result)
    requires BumpedOnce(before, after, res)
    ensures Total(after) == Total(before) + 1
  {
    match res
    case Tie =>
      assert Tally(after, Win(X)) == Tally(before, Win(X));
      assert Tally(after, Win(O)) == Tally(before, Win(O));
    case Win(X) =>
      assert Tally(after, Win(O)) == Tally(before, Win(O));
      assert Tally(after, Tie) == Tally(before, Tie);
    case Win(O) =>
      assert Tally(after, Win(X)) == Tally(before, Win(X));
      assert Tally(after, Tie) == Tally(before, Tie);
  }

  /** The start of a game: nine empty cells, X to move, moves accepted. */
  predicate AtStart(s: State) {
    && (forall i: Index :: s.board[i] == Empty)
    && s.current == X
    && s.active
  }

  /** The constructor followed by `loadScores`: a fresh game in player-vs-player
      mode, with the saved tally when storage has one and zeros otherwise. */
  function Create(saved: Option<Scores>): (r: State)
    ensures AtStart(r) && r.mode == PlayerVsPlayer
    ensures saved.Some? ==> r.scores == saved.value
    ensures saved.None? ==> forall res: Result :: Tally(r.scores, res) == 0
  {
    var scores := if saved.Some? then saved.value else NoScores;
    State(EmptyBoard, X, PlayerVsPlayer, true, scores)
  }

  /** `initializeGame`: a fresh game; the mode and the tally are kept. */
  function Initialize(s: State): (r: State)
    ensures AtStart(r)
    ensures r.mode == s.mode && r.scores == s.scores
  {
    State(EmptyBoard, X, s.mode, true, s.scores)
  }

  /** `resetGame`: `initializeGame` plus re-enabling the cells on screen. */
  function ResetGame(s: State): (r: State)
    ensures AtStart(r)
    ensures r.mode == s.mode && r.scores == s.scores
  {
    Initialize(s)
  }

  /** `newGame`: the same as `resetGame`. */
  function NewGame(s: State): (r: State)
    ensures AtStart(r)
    ensures r.mode == s.mode && r.scores == s.scores
  {
    ResetGame(s)
  }

  /** `setGameMode`: records the mode, then resets the game; the tally is kept. */
  function SetGameMode(s: State, mode: Mode): (r: State)
    ensures AtStart(r)
    ensures r.mode == mode && r.scores == s.scores
  {
    ResetGame(s.(mode := mode))
  }

  /** `clearScores`: every counter back to zero, nothing else touched. */
  function ClearScores(s: State): (r: State)
    ensures forall res: Result :: Tally(r.scores, res) == 0
    ensures r.board == s.board && r.current == s.current && r.mode == s.mode && r.active == s.active
  {
    s.(scores := NoScores)
  }

  /** `endGame`: stops accepting moves and counts the game for its result. */
  function EndGame(s: State, res: Result): (r: State)
    ensures !r.active
    ensures r.board == s.board && r.current == s.current && r.mode == s.mode
    ensures BumpedOnce(s.scores, r.scores, res)
  {
    var sc := s.scores;
    var scores :=
      match res
      case Tie => sc.(ties := sc.ties + 1)
      case Win(X) => sc.(x := sc.x + 1)
      case Win(O) => sc.(o := sc.o + 1);
    s.(active := false, scores := scores)
  }

  /** How `makeMove` classifies the board it produced: a win when some line is
      complete (checked first), a tie when the board is full, and otherwise the game
      goes on. */
  function Outcome(b: Board): (r: Option<Result>)
    ensures r == None <==> !Terminal(b)
    ensures forall m: Mark :: r == Some(Win(m)) <==> Winner(b) == Some(m)
    ensures r == Some(Tie) <==> Winner(b).None? && IsFull(b)
  {
    match Winner(b)
    case Some(m) => Some(Win(m))
    case None => if IsFull(b) then Some(Tie) else None
  }

  /** `makeMove(index, player)`: writes the mark into the cell, then ends the game
      on a win or a full board, or else hands the turn to the other player. */
  function MakeMove(s: State, i: Index, p: Mark): (r: State)
    ensures r.board[i] == Filled(p)
    ensures forall j: Index :: j != i ==> r.board[j] == s.board[j]
    ensures r.mode == s.mode
    ensures Outcome(r.board).Some? ==>
              && !r.active && r.current == s.current
              && BumpedOnce(s.scores, r.scores, Outcome(r.board).value)
    ensures Outcome(r.board).None? ==>
              r.active == s.active && r.current == s.current.Other() && r.scores == s.scores
  {
    var placed := s.(board := s.board[i := Filled(p)]);
    match Outcome(placed.board)
    case Some(res) => EndGame(placed, res)
    case None => placed.(current := s.current.Other())
  }

  /** A move that fills the last cell and completes a line is a win, never a tie. */
  lemma FullBoardWithLineIsWin(s: State, i: Index, p: Mark, m: Mark)
    requires IsFull(s.board[i := Filled(p)]) && HasLine(s.board[i := Filled(p)], m)
    ensures Tally(MakeMove(s, i, p).scores, Tie) == Tally(s.scores, Tie)
    ensures !MakeMove(s, i, p).active
  {
  }

  /** The guard of `handleCellClick`: the cell is one of the nine, it is empty, and
      the game is active. Outside 0..8 the JavaScript game reads `undefined`, which is not
      the empty string, so such a click is ignored. */
  predicate Accepts(s: State, i: int) {
    0 <= i < 9 && s.board[i] == Empty && s.active
  }

  /** What a click produces: the new state, and whether a delayed AI move was
      scheduled. */
  datatype ClickResult = ClickResult(state: State, aiScheduled: bool)

  /** `handleCellClick`: an accepted click places the mark of the player to move in
      the clicked cell; in computer mode, if the game goes on with O to move, the AI
      move is scheduled. A rejected click changes nothing. */
  function Click(s: State, i: int): (r: ClickResult)
    ensures !Accepts(s, i) ==> r.state == s && !r.aiScheduled
    ensures Accepts(s, i) ==>
              && r.state.board[i] == Filled(s.current)
              && (forall j: Index :: j != i ==> r.state.board[j] == s.board[j])
              && CountEmpty(r.state.board) == CountEmpty(s.board) - 1
    ensures r.state.mode == s.mode
    ensures r.aiScheduled <==>
              Accepts(s, i) && r.state.active && r.state.mode == PlayerVsComputer && r.state.current == O
    ensures Accepts(s, i) ==> r.state == MakeMove(s, i, s.current)
  {
    if !Accepts(s, i) then ClickResult(s, false)
    else
      var t := MakeMove(s, i, s.current);
      assert t.board == s.board[i := Filled(s.current)];
      PlacingUsesOneEmptyCell(s.board, i, s.current);
      ClickResult(t, t.active && t.mode == PlayerVsComputer && t.current == O)
  }

  /** `makeAIMove`, run when the scheduled timer fires: unless the game is over or it
      is not O's turn, O plays the cell the search picks on the current board. The
      source reaches here only with an unfinished board whenever the game is active,
      which the requires states. */
  function AIMove(s: State): (r: State)
    requires s.active ==> !Terminal(s.board)
    ensures !s.active || s.current != O ==> r == s
    ensures s.active && s.current == O ==>
              var e := Minimax(s.board, 0, true);
              && e.Choice? && s.board[e.index] == Empty
              && r.board[e.index] == Filled(O)
              && (forall j: Index :: j != e.index ==> r.board[j] == s.board[j])
              && CountEmpty(r.board) == CountEmpty(s.board) - 1
    ensures s.active && s.current == O ==> r == MakeMove(s, Minimax(s.board, 0, true).index, O)
    ensures r.mode == s.mode
  {
    if !s.active || s.current != O then s
    else
      var e := Minimax(s.board, 0, true);
      var t := MakeMove(s, e.index, O);
      assert t.board == s.board[e.index := Filled(O)];
      PlacingUsesOneEmptyCell(s.board, e.index, O);
      t
  }
}
