/** A session of play: any sequence of user actions and timer firings applied to the
    game. The invariant `Valid` holds from the constructor on, which is what makes
    the AI move safe whenever its timer fires and keeps the turns alternating. */
module Session {
  import opened Options
  import opened Rules
  import opened Search
  import opened Game

  /** What can happen to the game: a cell click (by number, possibly out of range),
      the delayed AI move firing, the reset, new-game and mode buttons, and the
      clear-scores button. `TimerFired` may appear anywhere in a sequence and any
      number of times, even with no AI move scheduled: an over-approximation of the
      single `setTimeout` callback a click schedules, so every property proved for
      all sequences holds for the real timers too. */
  datatype Event =
    | CellClicked(i: int)
    | TimerFired
    | ResetPressed
    | NewGamePressed
    | ModeChosen(mode: Mode)
    | ClearPressed

  function Xs(b: Board): nat {
    Count(b, Filled(X))
  }

  function Os(b: Board): nat {
    Count(b, Filled(O))
  }

  /** The state invariant. X moves first and the marks alternate, so X is ahead by
      at most one. While the game is active no line is complete, a cell is empty,
      and X is to move exactly when the counts are equal. Once it is over, the
      player who made the last move is still `current`, and either that player
      holds the first complete line or the board is full with no line. */
  ghost predicate Valid(s: State) {
    && (Xs(s.board) == Os(s.board) || Xs(s.board) == Os(s.board) + 1)
    && (s.active ==>
          && !Terminal(s.board)
          && (s.current == X <==> Xs(s.board) == Os(s.board)))
    && (!s.active ==>
          && (s.current == X <==> Xs(s.board) == Os(s.board) + 1)
          && (Winner(s.board) == Some(s.current) || (Winner(s.board).None? && IsFull(s.board))))
  }

  lemma StartIsValid(s: State)
    requires AtStart(s)
    ensures Valid(s)
  {
    assert s.board == EmptyBoard;
    assert Winner(s.board).None? by {
      assert !HasLine(s.board, X) && !HasLine(s.board, O);
    }
    assert s.board[0] == Empty;
  }

  /** The move of the player to move into an empty cell of an active game keeps
      the invariant. */
  lemma MoveKeepsValid(s: State, i: Index)
    requires Valid(s) && s.active && s.board[i] == Empty
    ensures Valid(MakeMove(s, i, s.current))
  {
    var r := MakeMove(s, i, s.current);
    assert r.board == s.board[i := Filled(s.current)];
    PlacingUsesOneEmptyCell(s.board, i, s.current);
    PlacingOnOpenBoard(s.board, i, s.current);
    if s.current == X {
      assert Xs(r.board) == Xs(s.board) + 1 && Os(r.board) == Os(s.board);
    } else {
      assert Os(r.board) == Os(s.board) + 1 && Xs(r.board) == Xs(s.board);
    }
  }

  /** One event. */
  function Step(s: State, e: Event): (r: State)
    requires Valid(s)
    ensures Valid(r)
  {
    match e
    case CellClicked(i) =>
      if Accepts(s, i) then MoveKeepsValid(s, i); Click(s, i).state
      else Click(s, i).state
    case TimerFired =>
      if s.active && s.current == O then
        MoveKeepsValid(s, Minimax(s.board, 0, true).index);
        AIMove(s)
      else AIMove(s)
    case ResetPressed => StartIsValid(ResetGame(s)); ResetGame(s)
    case NewGamePressed => StartIsValid(NewGame(s)); NewGame(s)
    case ModeChosen(m) => StartIsValid(SetGameMode(s, m)); SetGameMode(s, m)
    case ClearPressed => ClearScores(s)
  }

  /** A sequence of events, applied in order. */
  function Run(s: State, es: seq<Event>): (r: State)
    requires Valid(s)
    ensures Valid(r)
    decreases |es|
  {
    if es == [] then s else Run(Step(s, es[0]), es[1..])
  }

  /** Every state reachable from the constructor satisfies the invariant: X is never
      behind and never more than one mark ahead, X is to move in an active game
      exactly when the counts are equal, and an active game is never finished, so a
      firing AI timer always finds a cell to play. */
  lemma ReachableStatesAreValid(saved: Option<Scores>, es: seq<Event>)
    ensures Valid(Create(saved))
    ensures var r := Run(Create(saved), es);
      && (Xs(r.board) == Os(r.board) || Xs(r.board) == Os(r.board) + 1)
      && (r.active ==> (r.current == X <==> Xs(r.board) == Os(r.board)))
      && (r.active ==> !Terminal(r.board))
  {
  }

  /** Apart from clearing, the tally never goes down, and it goes up by exactly one
      game, on exactly one counter, precisely when the event ends an active game. */
  lemma TallyCountsEachFinishedGameOnce(s: State, e: Event)
    requires Valid(s) && !e.ClearPressed?
    ensures forall res: Result :: Tally(Step(s, e).scores, res) >= Tally(s.scores, res)
    ensures Total(Step(s, e).scores)
            == Total(s.scores) + (if s.active && !Step(s, e).active then 1 else 0)
    ensures s.active && !Step(s, e).active ==>
              BumpedOnce(s.scores, Step(s, e).scores, Outcome(Step(s, e).board).value)
  {
  }

  /** The tally side of `makeMove`: a finishing move bumps one counter, any other
      move bumps none. */
  lemma MakeMoveTally(s: State, i: Index, p: Mark)
    ensures forall res: Result :: Tally(MakeMove(s, i, p).scores, res) >= Tally(s.scores, res)
    ensures Total(MakeMove(s, i, p).scores)
            == Total(s.scores) + (if Outcome(MakeMove(s, i, p).board).Some? then 1 else 0)
  {
  }

  /** A finished game ignores clicks and timers until it is reset. */
  lemma {:induction false} FinishedGameStaysFinished(s: State, es: seq<Event>)
    requires Valid(s) && !s.active
    requires forall k :: 0 <= k < |es| ==> es[k].CellClicked? || es[k].TimerFired?
    ensures Run(s, es) == s
    decreases |es|
  {
    if es != [] {
      assert Step(s, es[0]) == s;
      FinishedGameStaysFinished(s, es[1..]);
    }
  }

  /** `makeAIMove` does not look at the mode. In player-vs-player mode with O to move
      it still plays for O. */
  lemma AIMoveIgnoresMode(s: State)
    requires Valid(s) && s.mode == PlayerVsPlayer && s.active && s.current == O
    ensures AIMove(s).board != s.board
  {
  }

  /** A timer scheduled in computer mode can fire in player-vs-player mode with O to
      move: click cell 0 in computer mode (the AI move is scheduled), switch to
      player-vs-player (a fresh game), click cell 4. If the timer fires now, the AI
      plays O in a game between two people (`AIMoveIgnoresMode`). */
  lemma StaleTimerFindsPlayerMode()
    ensures var first := Click(SetGameMode(Create(None), PlayerVsComputer), 0);
      && first.aiScheduled
      && var s := Click(SetGameMode(first.state, PlayerVsPlayer), 4).state;
         && Valid(s) && s.mode == PlayerVsPlayer && s.active && s.current == O
  {
    var s1 := SetGameMode(Create(None), PlayerVsComputer);
    FirstClickInComputerMode(s1);
    SwitchThenClick(Click(s1, 0).state);
  }

  /** X's first click in computer mode schedules the AI move. */
  lemma FirstClickInComputerMode(s: State)
    requires AtStart(s) && s.mode == PlayerVsComputer
    ensures Click(s, 0).aiScheduled && Valid(Click(s, 0).state)
  {
    StartIsValid(s);
    var b := s.board[0 := Filled(X)];
    assert !Terminal(b) by {
      assert !HasLine(b, X) && !HasLine(b, O);
      assert b[1] == Empty;
    }
    MoveKeepsValid(s, 0);
  }

  /** From any state, switching to player-vs-player and clicking cell 4 leaves a
      valid, active game with O to move. */
  lemma SwitchThenClick(s: State)
    ensures var r := Click(SetGameMode(s, PlayerVsPlayer), 4).state;
      Valid(r) && r.mode == PlayerVsPlayer && r.active && r.current == O
  {
    var s1 := SetGameMode(s, PlayerVsPlayer);
    StartIsValid(s1);
    var b := s1.board[4 := Filled(X)];
    assert !Terminal(b) by {
      assert !HasLine(b, X) && !HasLine(b, O);
      assert b[0] == Empty;
    }
    MoveKeepsValid(s1, 4);
  }

  /** `makeAIMove` with the mode check its guard leaves out: the timer is ignored
      unless the computer plays O in the current mode. */
  function AIMoveInComputerMode(s: State): (r: State)
    requires s.active ==> !Terminal(s.board)
    ensures s.mode == PlayerVsPlayer ==> r == s
    ensures s.mode == PlayerVsComputer ==> r == AIMove(s)
  {
    if s.mode != PlayerVsComputer then s else AIMove(s)
  }

  /** With the mode check, a timer firing in player-vs-player mode changes nothing,
      and one firing in computer mode keeps the invariant. */
  lemma GuardedTimerIsSafe(s: State)
    requires Valid(s)
    ensures s.mode == PlayerVsPlayer ==> AIMoveInComputerMode(s) == s
    ensures Valid(AIMoveInComputerMode(s))
  {
    if s.mode == PlayerVsComputer && s.active && s.current == O {
      MoveKeepsValid(s, Minimax(s.board, 0, true).index);
    }
  }
}
