# Tic-tac-toe game engine in Dafny

This project models the game engine of the tic-tac-toe page
(`app/tictac-toe/page.tsx`) and proves properties of it. The engine has three
parts, one Dafny module each.

- `engine.dfy`, module `Engine`: the board of nine cells, each empty or
  holding an X or an O. It also holds the eight winning combinations and
  `checkWinner`. `checkWinner` reports the first won combination in the order
  rows, columns, diagonals.
- `opponent.dfy`, module `Opponent`: the computer player of `makeAIMove`,
  which always plays O. It has three difficulty tiers: Easy, Medium and Hard.
  Hard runs `minimax`, which writes into a scratch board and restores it.
  That search is modelled as a method over an `array` (`MinimaxSearch`). It is
  proved to return the value of a pure specification function (`Minimax`) and
  to leave the array as it found it.
- `game.dfy`, module `Game`: the component's game state. The transition
  function `Click` specifies `handleCellClick`. The invariant `Consistent`
  says that winner, line, draw flag and active flag agree with the board. The
  class `TicTacToe` holds the state fields that the page updates in place. Its
  methods are `HandleCellClick`, `MakeAIMove`, `ResetGame`, `ResetScore` and
  the mode, difficulty and "Take Back Move" buttons.

`Math.random` is modelled as a nondeterministic choice (`:|`) among the
empty cells. So Easy is proved to return some empty cell, with no claim that
the choice is uniform. The `-Infinity` and `Infinity` start values of the
search are modelled as -11 and 11, below and above every score. The
contracts of `Best` and `Minimax` prove that these start values never come
out of the search.

Medium is modelled as the code behaves. The win loop and the block loop do
run (`FirstCompletingCell`), but the centre-or-random assignment after them
always overwrites their result. So Medium returns the centre when it is empty
and otherwise any empty cell (`MediumChoices`). A description of the game as
a cascade would say that Medium wins if it can, else blocks, else takes the
centre. An example of that reading: with X on 0 and 1 and O on 4, Medium
blocks at 2. The code instead picks any empty cell there. The cascade is
modelled separately as `MediumCascade`. `MediumMissesBlock` proves the
blocking example above. `MediumMissesImmediateWin` gives a board where the
cascade wins at once and Medium as written cannot.

## Model

| member | source | states |
|---|---|---|
| Engine.WinningCombinations | app/tictac-toe/page.tsx:54-58 | the eight combinations in the source's order: rows, then columns, then diagonals |
| Engine.Full | app/tictac-toe/page.tsx:72 | every cell holds a mark (`every(cell => cell !== null)`); also used at lines 98 and 168 |
| Engine.FullIffEveryCellMarked | app/tictac-toe/page.tsx:72 | `Full` holds exactly when every one of the nine cells holds a mark |
| Engine.FirstWinFrom | app/tictac-toe/page.tsx:61-70 | the scan of the combinations from k on returns a position from k on, or none |
| Engine.CheckWinner | app/tictac-toe/page.tsx:60-77 | `checkWinner` reports a winner exactly when it reports a line |
| Engine.FirstWinFromIsFirst | app/tictac-toe/page.tsx:61-70 | the scan stops at a won combination and passes over none; it finds nothing only when no combination from there on is won |
| Engine.CheckWinnerIsFirstWonLine | app/tictac-toe/page.tsx:54-77 | no winner exactly when no combination is won; otherwise the reported line is the first won combination in the order rows, columns, diagonals, and the winner is the mark on it |
| Engine.CountFilled | app/tictac-toe/page.tsx:110 | the non-null count never exceeds the board length |
| Engine.CountFilledAll | app/tictac-toe/page.tsx:110 | the non-null count equals the board length exactly when every cell holds a mark |
| Engine.FillOneMore | app/tictac-toe/page.tsx:82-83 | writing a mark into an empty cell raises the non-null count by exactly one |
| Engine.Other | app/tictac-toe/page.tsx:103 | the turn always passes to the other mark |
| Engine.MoveWinnerIsMover | app/tictac-toe/page.tsx:83-90 | if nobody had won before a mark is written into an empty cell, any winner afterwards is that mark |
| Engine.NoLineNoWinner | app/tictac-toe/page.tsx:60-76 | on any board where no combination is won, full or not, `checkWinner` gives winner null and line null |
| Engine.ReportedLineNoLater | app/tictac-toe/page.tsx:61-70 | on any board, when a combination is won, the reported line is that combination or an earlier one, with the mark on it |
| Engine.RowBeforeDiagonal | app/tictac-toe/page.tsx:54-70 | on any board where a row and a diagonal are both won, the reported line is a row |
| Engine.EarlierLineReported | app/tictac-toe/page.tsx:61-68 | example: one board where a move completes row 0 and a diagonal at once, and row 0 is reported |
| Engine.DrawHasNoWinner | app/tictac-toe/page.tsx:72-76 | example: one full board with no line, which gives winner null and line null |
| Opponent.EmptyCellsFrom | app/tictac-toe/page.tsx:118-120 | the list of empty cells from k on has at most 9 - k entries |
| Opponent.EmptyCells | app/tictac-toe/page.tsx:118-120 | `emptyCells` has at most nine entries |
| Opponent.EmptyCellsFromExact | app/tictac-toe/page.tsx:118-120 | the scan from cell k lists exactly the empty cells from k on, in increasing order |
| Opponent.EmptyCellsExact | app/tictac-toe/page.tsx:118-120 | `emptyCells` lists exactly the empty cells, each once, in increasing order |
| Opponent.NoEmptyCellsIffFull | app/tictac-toe/page.tsx:122 | `emptyCells` is empty exactly when every cell holds a mark |
| Opponent.EasyMove | app/tictac-toe/page.tsx:128-131 | Easy returns an empty cell |
| Opponent.MediumChoices | app/tictac-toe/page.tsx:154-158 | a cell is possible for Medium exactly when it is empty and, if the centre is empty, it is the centre |
| Opponent.FirstCompletingCell | app/tictac-toe/page.tsx:136-152 | each Medium loop stops at the lowest empty cell where the mark would complete a line, or finds none |
| Opponent.FirstCompletingIn | app/tictac-toe/page.tsx:136-143 | a cell the loop stops at is in the list and wins for the mark written there |
| Opponent.FirstCompleting | app/tictac-toe/page.tsx:136-152 | the lowest cell that completes a line for the mark, with no lower cell doing so; none only when no cell does |
| Opponent.ScanFindsFirstCompleting | app/tictac-toe/page.tsx:136-152 | scanning `emptyCells` in order finds the lowest empty cell that completes a line |
| Opponent.FirstCompletingIsFirst | app/tictac-toe/page.tsx:136-143 | the first completing cell is the only cell that completes a line with no lower cell doing so |
| Opponent.MediumMove | app/tictac-toe/page.tsx:133-159 | Medium as written returns an empty cell, the centre whenever the centre is empty, whatever the win and block loops found |
| Opponent.MediumCascade | app/tictac-toe/page.tsx:134-156 | the win-block-centre cascade returns an empty cell: the lowest cell where O completes a line if there is one; else the lowest cell where X would complete a line if there is one; else the centre if it is empty; it falls back to random only when the centre is taken and no line can be completed by either player |
| Opponent.MediumMissesBlock | app/tictac-toe/page.tsx:144-158 | on a board where O cannot win and X threatens cell 2, the cascade blocks at 2, but Medium as written may play any of the six empty cells |
| Opponent.MediumMissesImmediateWin | app/tictac-toe/page.tsx:133-158 | on one board O can win by playing 2 and the cascade plays 2, but Medium as written can only play the centre, which does not win |
| Opponent.ScoreOf | app/tictac-toe/page.tsx:163 | an O line scores +10 and an X line -10 |
| Opponent.Minimax | app/tictac-toe/page.tsx:165-193 | the search value is always one of -10, 0, 10; the recursion ends because each step fills one more cell |
| Opponent.Best | app/tictac-toe/page.tsx:170-192 | a loop over cells i..8 returns a score, or its start value only when no cell from i on is empty |
| Opponent.BestIsMaximum | app/tictac-toe/page.tsx:170-180 | the maximising loop returns the largest of its start value and the children's values, and one of them |
| Opponent.BestIsMinimum | app/tictac-toe/page.tsx:181-192 | the minimising loop returns the smallest of its start value and the children's values, and one of them |
| Opponent.MinimaxIsExtremumOfChildren | app/tictac-toe/page.tsx:165-193 | on a board in play, the maximiser's value is the largest child value with O placed and the minimiser's the smallest with X placed, each attained by an empty cell |
| Opponent.MinimaxSearch | app/tictac-toe/page.tsx:165-193 | the in-place search returns the `Minimax` value of the board it was given and leaves the scratch board as it found it |
| Opponent.HardScore | app/tictac-toe/page.tsx:199-201 | the score of playing O at a cell is one of -10, 0, 10 |
| Opponent.ScoreMove | app/tictac-toe/page.tsx:199-201 | scoring a candidate cell gives the minimax value with O placed there and X to move |
| Opponent.BestScoringCell | app/tictac-toe/page.tsx:195-206 | Hard's loop keeps a cell whose score is maximal over `emptyCells` and strictly above every earlier cell's score |
| Opponent.LoopFindsHardChoice | app/tictac-toe/page.tsx:195-207 | the cell the loop keeps is maximal over all empty cells and is the lowest index among ties |
| Opponent.HardMove | app/tictac-toe/page.tsx:195-207 | Hard returns an empty cell with the maximal score, the lowest such index |
| Opponent.HardChoiceUnique | app/tictac-toe/page.tsx:202 | because the comparison is strict, at most one cell is Hard's choice |
| Opponent.HardChoiceAttainsMinimax | app/tictac-toe/page.tsx:195-207 | on a board in play, Hard's choice scores exactly the minimax value of the position with O to move |
| Opponent.SelectMove | app/tictac-toe/page.tsx:124-209 | every tier picks an empty cell; Medium picks among `MediumChoices` and Hard picks Hard's choice |
| Game.InitialState | app/tictac-toe/page.tsx:35-47 | the `useState` initial values: empty board, X to move, no winner, draw or line, PvP, Medium, zero tallies, empty history, game active |
| Game.CanPlay | app/tictac-toe/page.tsx:80 | the guard of `handleCellClick`: the cell is empty, nobody has won, no draw, game active |
| Game.Click | app/tictac-toe/page.tsx:79-113 | the state after `handleCellClick`; its properties are stated by `Game.ClickOutcome` and `Game.ClickKeepsConsistent` |
| Game.ClickOutcome | app/tictac-toe/page.tsx:79-113 | a rejected click changes nothing; a legal click changes only the clicked cell and raises the count by one; then a win is recorded with its line and score with the turn kept, or a draw is recorded and tallied, or the turn passes; one history entry goes in front and at most five are kept |
| Game.EmptyBoardHasNoWinner | app/tictac-toe/page.tsx:36 | the empty board has no winner and no line |
| Game.InitialStateConsistent | app/tictac-toe/page.tsx:35-47 | the initial state satisfies the invariant |
| Game.ClickKeepsConsistent | app/tictac-toe/page.tsx:79-113 | a click keeps the invariant: winner, line, draw and active flags agree with the board, and the history has at most five entries that describe their boards |
| Game.ClickWinnerIsMover | app/tictac-toe/page.tsx:87-92 | in a consistent state, a click that wins is won by the player who clicked |
| Game.AIToMove | app/tictac-toe/page.tsx:116-122 | the guard of `makeAIMove`: vs-AI mode, O to move, no winner or draw, game active, some cell empty |
| Game.AIMoveIsLegal | app/tictac-toe/page.tsx:211-213 | when the computer is to move, any cell it may pick passes the guard of `handleCellClick` and places an O there |
| Game.TicTacToe.constructor | app/tictac-toe/page.tsx:35-47 | the page starts in the initial state, which satisfies the invariant |
| Game.TicTacToe.HandleCellClick | app/tictac-toe/page.tsx:79-113 | the fields change exactly as `Click` says, and the invariant is kept |
| Game.TicTacToe.PlaceMark | app/tictac-toe/page.tsx:82-112 | past the guard, the fields change exactly as `Click` says |
| Game.TicTacToe.MakeAIMove | app/tictac-toe/page.tsx:115-214 | nothing changes unless the computer is to move; otherwise the state is a click on a cell the difficulty allows |
| Game.TicTacToe.ResetGame | app/tictac-toe/page.tsx:216-227 | empty board, X to move, no winner, draw or line, game active; mode, difficulty, score and history unchanged |
| Game.TicTacToe.ResetScore | app/tictac-toe/page.tsx:229-232 | all tallies zero and the history empty; everything else unchanged |
| Game.TicTacToe.ChooseMode | app/tictac-toe/page.tsx:363-366 | sets the mode and resets the game |
| Game.TicTacToe.ChooseDifficulty | app/tictac-toe/page.tsx:389 | sets the difficulty and nothing else |
| Game.TicTacToe.TakeBackMove | app/tictac-toe/page.tsx:602 | gives the turn to X and undoes nothing |

## Left out

- Rendering, animation, styling, the statistics and settings panels, and the `isResetting`, `showStats` and `showSettings` flags: presentation only.
- `components/tictac-toe/game-board.tsx` and `components/tictac-toe/game-status.tsx`: display only. The board component only ever passes indices 0 to 8 to `handleCellClick`, so the model takes an `Index` (0..8) and does not model out-of-range clicks.
- The `setTimeout` delays of `makeAIMove` (500 ms) and `resetGame` (300 ms), and the `useEffect` that triggers `makeAIMove`: the model applies each update at once. A human click that lands during the 500 ms delay is not modelled.
- `Math.random`: a nondeterministic choice among the empty cells; the model does not say the choice is uniform.
- `timestamp: new Date()` in history entries: clock input, not modelled.
- `getWinRate` and the inline win-rate percentage: floating-point division and rounding.
- The online mode: it is a `GameMode` value with no engine behaviour of its own.
- The `depth` parameter of `minimax`: it is never read.
- Opponent.HardMove: the claim that Hard never loses is not proved. It would need the minimax value of every reachable position, and proving that means evaluating the whole game tree in the verifier.
- Opponent.EasyMove: proves only that the cell is empty, since the choice is random.
