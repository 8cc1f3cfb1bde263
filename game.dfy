/** The game state of the tic-tac-toe page and its transitions: a click on a
    cell, the computer's turn, resetting the game and resetting the score
    (app/tictac-toe/page.tsx:35-47, 79-122, 211-238, 364-367, 389, 602). */
module Game {
  import opened Engine
  import opened Opponent

  datatype GameMode = Pvp | Ai | Online

  /** The tallies `{ x, o, draws }`. */
  datatype Score = Score(x: nat, o: nat, draws: nat)

  /** One `gameHistory` entry; the timestamp is not modelled. */
  datatype HistoryEntry = HistoryEntry(board: Board, winner: Option<Mark>, moves: nat)

  /** The history keeps the newest entry and at most four older ones. */
  const HistoryLimit := 5

  /** The page's engine state, one field per `useState` of the game. */
  datatype GameState = GameState(
    board: Board,
    currentPlayer: Mark,
    winner: Option<Mark>,
    isDraw: bool,
    winningLine: Option<Line>,
    gameMode: GameMode,
    difficulty: Difficulty,
    score: Score,
    gameHistory: seq<HistoryEntry>,
    isGameActive: bool)

  /** The state the page starts in. */
  const InitialState := GameState(EmptyBoard, X, None, false, None, Pvp, Medium, Score(0, 0, 0), [], true)

  /** The guard of `handleCellClick`: the cell is empty, nobody has won, the
      game is not drawn, and it is active. */
  predicate CanPlay(s: GameState, index: Index) {
    s.board[index].None? && s.winner.None? && !s.isDraw && s.isGameActive
  }

  /** The state after `handleCellClick(index)`. */
  function Click(s: GameState, index: Index): GameState {
    if !CanPlay(s, index) then s
    else
      var newBoard := s.board[index := Some(s.currentPlayer)];
      var result := CheckWinner(newBoard);
      var after :=
        if result.winner.Some? then
          var score := if result.winner == Some(X) then s.score.(x := s.score.x + 1) else s.score.(o := s.score.o + 1);
          s.(winner := result.winner, winningLine := result.line, score := score, isGameActive := false)
        else if Full(newBoard) then
          s.(isDraw := true, score := s.score.(draws := s.score.draws + 1), isGameActive := false)
        else
          s.(currentPlayer := Other(s.currentPlayer));
      var entry := HistoryEntry(newBoard, result.winner, CountFilled(newBoard));
      after.(board := newBoard, gameHistory := [entry] + s.gameHistory[..Min(|s.gameHistory|, HistoryLimit - 1)])
  }

  /** What a click does: a rejected click changes nothing; a legal one writes
      the current mark into the cell and nothing else on the board, then
      either records a win, records a draw, or passes the turn, and puts one
      entry in front of the history, keeping at most five. */
  lemma ClickOutcome(s: GameState, index: Index)
    ensures var t := Click(s, index);
      !CanPlay(s, index) ==> t == s
    ensures var t := Click(s, index);
      CanPlay(s, index) ==>
      && t.board[index] == Some(s.currentPlayer)
      && (forall j: Index | j != index :: t.board[j] == s.board[j])
      && CountFilled(t.board) == CountFilled(s.board) + 1
      && t.gameMode == s.gameMode && t.difficulty == s.difficulty
    // a win: recorded with its line, tallied, the game stops, the turn stays
    ensures var t := Click(s, index);
      CanPlay(s, index) && CheckWinner(t.board).winner.Some? ==>
      && t.winner == CheckWinner(t.board).winner
      && t.winningLine == CheckWinner(t.board).line
      && t.score == (if t.winner == Some(X) then s.score.(x := s.score.x + 1) else s.score.(o := s.score.o + 1))
      && !t.isGameActive && !t.isDraw && t.currentPlayer == s.currentPlayer
    // a draw: recorded and tallied, the game stops
    ensures var t := Click(s, index);
      CanPlay(s, index) && CheckWinner(t.board).winner.None? && Full(t.board) ==>
      && t.isDraw && t.score == s.score.(draws := s.score.draws + 1)
      && !t.isGameActive && t.winner.None? && t.winningLine == s.winningLine && t.currentPlayer == s.currentPlayer
    // otherwise: the turn passes to the other player
    ensures var t := Click(s, index);
      CanPlay(s, index) && CheckWinner(t.board).winner.None? && !Full(t.board) ==>
      && t.currentPlayer == Other(s.currentPlayer) && t.score == s.score
      && t.isGameActive && !t.isDraw && t.winner.None? && t.winningLine == s.winningLine
    // one history entry in front, at most five kept
    ensures var t := Click(s, index);
      CanPlay(s, index) ==>
      && |t.gameHistory| == Min(|s.gameHistory| + 1, HistoryLimit)
      && t.gameHistory[0] == HistoryEntry(t.board, CheckWinner(t.board).winner, CountFilled(t.board))
      && t.gameHistory[1..] == s.gameHistory[..|t.gameHistory| - 1]
  {
    if CanPlay(s, index) {
      FillOneMore(s.board, index, s.currentPlayer);
    }
  }

  /** The invariant of every state the page reaches: winner, line, draw flag
      and active flag are what the board says (`checkWinner` and fullness),
      and the history is short and describes its boards. */
  predicate Consistent(s: GameState) {
    && |s.gameHistory| <= HistoryLimit
    && s.winner == CheckWinner(s.board).winner
    && s.winningLine == CheckWinner(s.board).line
    && s.isDraw == (s.winner.None? && Full(s.board))
    && s.isGameActive == (s.winner.None? && !s.isDraw)
    && forall e | e in s.gameHistory ::
         e.moves == CountFilled(e.board) && e.winner == CheckWinner(e.board).winner
  }

  /** The empty board has no winner. */
  lemma EmptyBoardHasNoWinner()
    ensures CheckWinner(EmptyBoard) == WinCheck(None, None)
  {
    CheckWinnerIsFirstWonLine(EmptyBoard);
  }

  lemma InitialStateConsistent()
    ensures Consistent(InitialState)
  {
    EmptyBoardHasNoWinner();
  }

  /** A click keeps the invariant. */
  lemma ClickKeepsConsistent(s: GameState, index: Index)
    requires Consistent(s)
    ensures Consistent(Click(s, index))
  {
    var t := Click(s, index);
    ClickOutcome(s, index);
    if CanPlay(s, index) {
      forall e | e in t.gameHistory
        ensures e.moves == CountFilled(e.board) && e.winner == CheckWinner(e.board).winner
      {
        if e != t.gameHistory[0] {
          assert e in t.gameHistory[1..];
          assert e in s.gameHistory;
        }
      }
    }
  }

  /** In a consistent state, a move that wins is won by the player who made
      it. */
  lemma ClickWinnerIsMover(s: GameState, index: Index)
    requires Consistent(s) && CanPlay(s, index)
    ensures Click(s, index).winner.Some? ==> Click(s, index).winner == Some(s.currentPlayer)
  {
    MoveWinnerIsMover(s.board, index, s.currentPlayer);
    assert Click(s, index).board == s.board[index := Some(s.currentPlayer)];
  }

  /** The guard of `makeAIMove`: vs-AI mode, O to move, no winner or draw,
      the game active, and some cell empty. */
  predicate AIToMove(s: GameState) {
    s.gameMode == Ai && s.currentPlayer == O && s.winner.None? && !s.isDraw && s.isGameActive
    && EmptyCells(s.board) != []
  }

  /** The cells the computer may pick at its difficulty. */
  predicate AIMoveAllowed(s: GameState, m: Index) {
    && s.board[m].None?
    && (s.difficulty == Medium ==> m in MediumChoices(s.board))
    && (s.difficulty == Hard ==> HardChoice(s.board, m))
  }

  /** When the computer is to move, any cell it may pick is a legal click
      that places an O there. */
  lemma AIMoveIsLegal(s: GameState, m: Index)
    requires AIToMove(s) && AIMoveAllowed(s, m)
    ensures CanPlay(s, m)
    ensures Click(s, m).board == s.board[m := Some(O)]
  {
    assert Click(s, m).board == s.board[m := Some(O)];
  }

  /** The page component: its game state as mutable fields. */
  class TicTacToe {
    var board: Board
    var currentPlayer: Mark
    var winner: Option<Mark>
    var isDraw: bool
    var winningLine: Option<Line>
    var gameMode: GameMode
    var difficulty: Difficulty
    var score: Score
    var gameHistory: seq<HistoryEntry>
    var isGameActive: bool

    function State(): GameState
      reads this
    {
      GameState(board, currentPlayer, winner, isDraw, winningLine, gameMode, difficulty, score, gameHistory, isGameActive)
    }

    ghost predicate Valid()
      reads this
    {
      Consistent(State())
    }

    constructor ()
      ensures Valid() && State() == InitialState
    {
      board := EmptyBoard;
      currentPlayer := X;
      winner := None;
      isDraw := false;
      winningLine := None;
      gameMode := Pvp;
      difficulty := Medium;
      score := Score(0, 0, 0);
      gameHistory := [];
      isGameActive := true;
      InitialStateConsistent();
    }

    /** `handleCellClick(index)`. */
    method HandleCellClick(index: Index)
      requires Valid()
      modifies this
      ensures Valid()
      ensures State() == Click(old(State()), index)
    {
      if board[index].Some? || winner.Some? || isDraw || !isGameActive {
        return;
      }
      ClickKeepsConsistent(State(), index);
      PlaceMark(index);
    }

    /** The body of `handleCellClick` past its guard: write the mark, then
        record a win, a draw or the change of turn, and the history entry. */
    method PlaceMark(index: Index)
      requires CanPlay(State(), index)
      modifies this
      ensures State() == Click(old(State()), index)
    {
      var newBoard := board[index := Some(currentPlayer)];
      ghost var t := Click(State(), index);
      assert t.board == newBoard;
      board := newBoard;
      var result := CheckWinner(newBoard);
      if result.winner.Some? {
        winner := result.winner;
        winningLine := result.line;
        score := if result.winner == Some(X) then score.(x := score.x + 1) else score.(o := score.o + 1);
        isGameActive := false;
      } else if Full(newBoard) {
        isDraw := true;
        score := score.(draws := score.draws + 1);
        isGameActive := false;
      } else {
        currentPlayer := Other(currentPlayer);
      }
      var entry := HistoryEntry(newBoard, result.winner, CountFilled(newBoard));
      gameHistory := [entry] + gameHistory[..Min(|gameHistory|, HistoryLimit - 1)];
      assert gameHistory == t.gameHistory;
      assert currentPlayer == t.currentPlayer && winner == t.winner && winningLine == t.winningLine;
      assert isDraw == t.isDraw && score == t.score && isGameActive == t.isGameActive;
    }

    /** `makeAIMove` followed by the delayed `handleCellClick` it schedules. */
    method MakeAIMove()
      requires Valid()
      modifies this
      ensures Valid()
      ensures !AIToMove(old(State())) ==> State() == old(State())
      ensures AIToMove(old(State())) ==>
        exists m: Index :: AIMoveAllowed(old(State()), m) && State() == Click(old(State()), m)
    {
      if gameMode != Ai || currentPlayer != O || winner.Some? || isDraw || !isGameActive {
        return;
      }
      var emptyCells := EmptyCells(board);
      if |emptyCells| == 0 {
        return;
      }
      var moveIndex := SelectMove(board, emptyCells, difficulty);
      ghost var before := State();
      assert AIMoveAllowed(before, moveIndex);
      HandleCellClick(moveIndex);
    }

    /** `resetGame`: a fresh board, X to move, no result, the game active;
        mode, difficulty, score and history are kept. */
    method ResetGame()
      requires Valid()
      modifies this
      ensures Valid()
      ensures State() == old(State()).(board := EmptyBoard, currentPlayer := X, winner := None,
        isDraw := false, winningLine := None, isGameActive := true)
    {
      board := EmptyBoard;
      currentPlayer := X;
      winner := None;
      isDraw := false;
      winningLine := None;
      isGameActive := true;
      EmptyBoardHasNoWinner();
    }

    /** `resetScore`: all tallies zero and the history empty; the game itself
        is untouched. */
    method ResetScore()
      requires Valid()
      modifies this
      ensures Valid()
      ensures State() == old(State()).(score := Score(0, 0, 0), gameHistory := [])
    {
      score := Score(0, 0, 0);
      gameHistory := [];
    }

    /** A mode button: sets the mode and resets the game. */
    method ChooseMode(mode: GameMode)
      requires Valid()
      modifies this
      ensures Valid()
      ensures State() == old(State()).(gameMode := mode, board := EmptyBoard, currentPlayer := X,
        winner := None, isDraw := false, winningLine := None, isGameActive := true)
    {
      gameMode := mode;
      ResetGame();
    }

    /** A difficulty button: sets the difficulty only. */
    method ChooseDifficulty(d: Difficulty)
      requires Valid()
      modifies this
      ensures Valid()
      ensures State() == old(State()).(difficulty := d)
    {
      difficulty := d;
    }

    /** "Take Back Move": gives the turn to X and undoes nothing. */
    method TakeBackMove()
      requires Valid()
      modifies this
      ensures Valid()
      ensures State() == old(State()).(currentPlayer := X)
    {
      currentPlayer := X;
    }
  }
}
