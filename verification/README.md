# Tic-tac-toe engine and minimax player

A Dafny model of the `TicTacToe` class of a browser tic-tac-toe game: the nine-cell
board, the player to move, the `gameActive` flag, the game mode and the X/O/ties
tally, with every operation of the class that changes them, and the computer
player's exhaustive minimax search for O.

- `Rules` (rules.dfy): cells, the fixed table of eight winning lines, the winner
  test (first complete line in table order) and the full-board test.
- `Search` (search.dfy): `minimax` as a pure function (`Minimax`, with the move
  list `Candidates` and the strict-comparison selection `PickBest`), and as the
  source runs it on one shared mutable board (`SearchInPlace`), proved equal to
  the pure function and to leave the board as it found it.
- `Game` (game.dfy): the state record and one pure transition per operation:
  construction, `initializeGame`, `resetGame`, `newGame`, `setGameMode`,
  `clearScores`, `endGame`, `makeMove`, the guarded click and `makeAIMove`.
- `Session` (session.dfy): sequences of clicks, timer firings and button presses,
  the state invariant they preserve, and the tally and stale-timer properties.

Player, mark and cell: `Cell = Empty | Filled(mark)`, with `Mark = X | O`; the
empty string of the source is `Empty`. A click arrives as an integer cell number;
out-of-range numbers are modelled too, since the source then reads `undefined`
and its guard returns. The delayed AI move is a separate `TimerFired` event. It may
occur at any point and any number of times, even when no AI move was scheduled.
This over-approximates the one `setTimeout` callback a click schedules, so the
properties proved for every event sequence also hold for the real timers.

## Model

| member | source | states |
|---|---|---|
| Rules.CompleteIffHeld | script.js:159-163 | the per-line test (first cell non-empty, other two equal to it) holds exactly when X or O occupies all three cells |
| Rules.FirstCompleteFrom | script.js:158-165 | the scan returns the first complete line at or after the start, in table order, or none exactly when no later line is complete |
| Rules.WinningLine | script.js:158-165 | the line `checkWinner` stops at is complete, every earlier line is not, and there is none exactly when no line of the table is complete |
| Rules.Winner | script.js:158-166 | `checkWinner` is null exactly when neither mark holds a line; otherwise its mark holds some line with no complete line before it in the table |
| Rules.WinnerOfOneSidedBoard | script.js:158-166 | when only one mark holds a line, that mark is the winner |
| Rules.FullIffNoEmptyCell | script.js:168-170 | `isBoardFull` holds exactly when the count of empty cells is zero |
| Rules.PlacingUsesOneEmptyCell | script.js:85-86 | writing a mark into an empty cell lowers the empty count by one, raises that mark's count by one and leaves the other mark's count alone |
| Rules.PlacingOnOpenBoard | script.js:85-91 | on a board with no complete line, a move by m can only complete lines of m: the winner afterwards is m or nobody |
| Search.Minimax | script.js:107-156 | terminal boards score 10 - depth for an O win, depth - 10 for an X win, 0 for a full board; on an open board the result names an empty cell; from a reachable depth every score lies in [depth - 10, 10 - depth], and in [depth - 9, 9 - depth] on an open board |
| Search.EmptyCellsFrom | script.js:116-117 | the cells the loop tries are exactly the empty ones, each once, in increasing order |
| Search.Candidates | script.js:114-133 | one candidate per tried cell, carrying that cell, with scores one ply deeper inside the depth bound |
| Search.CandidateScores | script.js:121-126 | each candidate's score is the recursive search's score after the side to move plays that cell |
| Search.PickBest | script.js:136-153 | the selection finds a candidate whenever the list is non-empty, and only then |
| Search.PickBestFindsFirstBest | script.js:137-153 | with the strict comparison the selection returns the first candidate of highest score for the maximiser and of lowest score for the minimiser |
| Search.MinimaxChoosesFirstBest | script.js:114-155 | on an open board the chosen cell is empty, its score is the score of playing it, no empty cell scores better, and every empty cell before it scores strictly worse |
| Search.ChildScoreOfWin | script.js:110-111 | a cell that completes the mover's line scores the one-ply win; any other cell scores strictly worse for the mover |
| Search.MinimaxTakesImmediateWin | script.js:107-155 | when the side to move can complete a line at once, the search scores the one-ply win and plays the lowest-numbered cell that wins at once |
| Search.SearchInPlace | script.js:107-156 | the mutate-and-restore search leaves the shared board exactly as it was and returns the same result as `Minimax` |
| Search.ScoreEmptyCells | script.js:114-133 | the first loop restores the board and builds the candidate list of `Candidates` |
| Search.TryCell | script.js:118-131 | marking a cell, searching one ply deeper and clearing the cell restores the board and yields that cell's score |
| Search.SelectBest | script.js:136-153 | the second loop, with the infinite sentinel as "no best yet", selects what `PickBest` selects |
| Game.Create | script.js:2-22 | construction starts a game with nine empty cells, X to move, moves accepted, player-vs-player mode, and the saved tally or all counters zero |
| Game.Initialize | script.js:25-31 | nine empty cells, X to move, moves accepted; mode and tally kept |
| Game.ResetGame | script.js:290-293 | the same fresh game as `initializeGame`; mode and tally kept |
| Game.NewGame | script.js:295-297 | the same fresh game as `resetGame`; mode and tally kept |
| Game.SetGameMode | script.js:263-288 | the new mode is recorded and a fresh game starts; the tally is kept |
| Game.ClearScores | script.js:299-303 | every counter is zero and board, player, mode and flag are unchanged |
| Game.EndGame | script.js:172-188 | moves are no longer accepted, board, player and mode are unchanged, and exactly the counter of the result goes up by one |
| Game.BumpAddsOneGame | script.js:175-179 | bumping one counter adds exactly one game to the total |
| Game.Outcome | script.js:89-97 | the move's result is a win for m exactly when m is the winner, a tie exactly when there is no winner and the board is full, and none exactly on an unfinished board |
| Game.MakeMove | script.js:85-98 | the cell holds the player's mark and the other eight are unchanged; a finishing move stops the game, keeps the player and bumps exactly the counter of its result; otherwise the turn passes to the other player and the tally is unchanged |
| Game.FullBoardWithLineIsWin | script.js:89-93 | a move that fills the board and completes a line ends the game without counting a tie |
| Game.Click | script.js:68-83 | an occupied or out-of-range cell, or a finished game, leaves the state unchanged and schedules nothing; an accepted click places the current player's mark in that cell only, uses one empty cell, and is exactly `makeMove` with the current player (the turn passes, or the game ends with one counter bumped); it schedules the AI exactly when the game goes on in computer mode with O to move |
| Game.AIMove | script.js:100-105 | a finished game or X to move leaves the state unchanged; otherwise O is placed in the empty cell the search chooses, no other cell changes, and the result is exactly `makeMove` of that cell for O (the turn passes back to X, or the game ends with one counter bumped) |
| Session.StartIsValid | script.js:25-31 | a freshly started game satisfies the state invariant |
| Session.MoveKeepsValid | script.js:85-97 | a move of the current player into an empty cell of an active game preserves the invariant |
| Session.Step | script.js:33-66 | every user action and timer firing preserves the invariant |
| Session.Run | script.js:33-66 | every sequence of events preserves the invariant |
| Session.ReachableStatesAreValid | script.js:68-105 | from construction on, X's count minus O's is 0 or 1, in an active game X is to move exactly when the counts are equal, and an active game is never finished |
| Session.TallyCountsEachFinishedGameOnce | script.js:172-179 | apart from clearing, no counter goes down, and the total grows by one, on exactly one counter, exactly when the event ends an active game |
| Session.MakeMoveTally | script.js:89-97 | a move adds one game to the tally when it finishes the game and none otherwise, and lowers no counter |
| Session.FinishedGameStaysFinished | script.js:71-73 | once a game is over, any sequence of clicks and timer firings leaves the state unchanged |
| Session.AIMoveIgnoresMode | script.js:100-104 | in player-vs-player mode with O to move in an active game, `makeAIMove` still changes the board |
| Session.StaleTimerFindsPlayerMode | script.js:77-81 | a click in computer mode schedules the AI move, and a mode switch plus one click later the game is active, player-vs-player, with O to move |
| Session.FirstClickInComputerMode | script.js:77-81 | X's first click of a fresh computer-mode game schedules the AI move |
| Session.SwitchThenClick | script.js:263-293 | switching to player-vs-player and clicking cell 4 gives an active game with O to move |
| Session.AIMoveInComputerMode | script.js:100-101 | with the mode check added, a timer in player-vs-player mode changes nothing and one in computer mode behaves as `makeAIMove` |
| Session.GuardedTimerIsSafe | script.js:100-104 | the guarded AI move preserves the invariant and ignores player-vs-player games |

## Left out

- Rendering: `updateCell`, `updateStatus`, `clearBoard`, `disableBoard`, `enableBoard`, `updateScoreboard`, the class toggling of `highlightWinningCells` and the label edits of `setGameMode` only change the page. The scan that picks the cells to highlight is `Rules.WinningLine`.
- Event wiring: the DOM listener registration of `setupEventListeners` and the `parseInt` of the clicked cell's data attribute; a click arrives as an integer, and `Session.Step` maps each button to its operation.
- Timers: the 500 ms delay before the AI move and the 300 ms score animation. A pending AI move is an event that may fire at any later point.
- Storage and theme: `saveScores`, `toggleTheme`, `loadTheme`. `loadScores` is the `saved` parameter of `Game.Create`, and the stored JSON is taken to hold three non-negative integers.
- The `-Infinity`/`Infinity` starting scores of the selection loops are "no best candidate yet" (`None`).
- Game-theoretic optimality ("the computer never loses") is not proved; the search's properties are the structural ones above.
- `Game.AIMove` uses the pure `Search.Minimax`, which `Search.SearchInPlace` shows equal to the in-place search the source runs.
- Game.AIMove: requires an unfinished board whenever the game is active; there the source would read the `index` of a score-only result. `Session.ReachableStatesAreValid` shows that no reachable state breaks it.
- Search.Minimax: the score bound is stated for boards where depth plus the number of empty cells is at most 9, which every call from `makeAIMove` (depth 0) and every recursive call below it meets.

## Findings

| source | as written | input that shows it | evidently intended | confidence | as-written member | corrected member |
|---|---|---|---|---|---|---|
| script.js:100-104 | `makeAIMove` checks only `gameActive` and that O is to move, not the mode | in computer mode click cell 0 (AI move scheduled), choose player-vs-player before the timer fires, click cell 4; the timer then plays O for the second human | a pending AI move is dropped once the game is no longer against the computer | medium, not executed | Session.AIMoveIgnoresMode | Session.AIMoveInComputerMode |

`Session.StaleTimerFindsPlayerMode` shows the event sequence reaches the state
`Session.AIMoveIgnoresMode` is about. `Session.GuardedTimerIsSafe` proves the
corrected timer keeps the invariant and ignores player-vs-player games. The event
model `Session.Step` follows the code as written.
