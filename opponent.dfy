/** The computer opponent of `makeAIMove` (app/tictac-toe/page.tsx:115-214).
    The computer always plays O. `Math.random` is a nondeterministic choice
    among the empty cells. */
module Opponent {
  import opened Engine

  datatype Difficulty = Easy | Medium | Hard

  /** `emptyCells`: the indices of the null cells from `k` on. */
  function EmptyCellsFrom(board: Board, k: nat): (r: seq<Index>)
    requires k <= 9
    ensures |r| <= 9 - k
    decreases 9 - k
  {
    if k == 9 then []
    else if board[k].None? then [k as Index] + EmptyCellsFrom(board, k + 1)
    else EmptyCellsFrom(board, k + 1)
  }

  /** The scan from `k` lists exactly the null cells from `k` on, in
      increasing order. */
  lemma {:induction false} EmptyCellsFromExact(board: Board, k: nat)
    requires k <= 9
    ensures forall j: Index {:trigger j in EmptyCellsFrom(board, k)} ::
      j in EmptyCellsFrom(board, k) <==> k <= j && board[j].None?
    ensures forall n, m | 0 <= n < m < |EmptyCellsFrom(board, k)| ::
      EmptyCellsFrom(board, k)[n] < EmptyCellsFrom(board, k)[m]
    decreases 9 - k
  {
    if k < 9 {
      EmptyCellsFromExact(board, k + 1);
      var rest := EmptyCellsFrom(board, k + 1);
      if board[k].None? {
        var r := [k as Index] + rest;
        assert EmptyCellsFrom(board, k) == r;
        forall n | 0 <= n < |rest| ensures k < rest[n] {
          assert rest[n] in rest;
        }
        forall j: Index ensures j in r <==> k <= j && board[j].None? {
          assert j in r <==> j == k || j in rest;
        }
        assert forall n | 1 <= n < |r| :: r[n] == rest[n - 1];
      } else {
        assert EmptyCellsFrom(board, k) == rest;
      }
    }
  }

  /** The `emptyCells` list of `makeAIMove`. */
  function EmptyCells(board: Board): (r: seq<Index>)
    ensures |r| <= 9
  {
    EmptyCellsFrom(board, 0)
  }

  /** `emptyCells` lists the null cells, each once, in increasing order. */
  lemma EmptyCellsExact(board: Board)
    ensures var r := EmptyCells(board);
      && (forall n | 0 <= n < |r| :: board[r[n]].None?)
      && (forall j: Index {:trigger j in r} :: board[j].None? <==> j in r)
      && (forall n, m | 0 <= n < m < |r| :: r[n] < r[m])
  {
    EmptyCellsFromExact(board, 0);
    var r := EmptyCells(board);
    forall n | 0 <= n < |r| ensures board[r[n]].None? {
      assert r[n] in r;
    }
  }

  /** `emptyCells` is empty exactly when the board is full. */
  lemma NoEmptyCellsIffFull(board: Board)
    ensures EmptyCells(board) == [] <==> Full(board)
  {
    var r := EmptyCells(board);
    if r == [] {
      assert forall j: Index :: board[j].Some? by {
        forall j: Index ensures board[j].Some? {
          assert j !in r;
        }
      }
    } else {
      assert board[r[0]].None?;
    }
  }

  // ---------------------------------------------------------------------
  // Easy and Medium

  /** Easy: a random empty cell. */
  method EasyMove(board: Board, emptyCells: seq<Index>) returns (moveIndex: Index)
    requires emptyCells == EmptyCells(board) && emptyCells != []
    ensures board[moveIndex].None?
  {
    EmptyCellsExact(board);
    var k :| 0 <= k < |emptyCells|;
    moveIndex := emptyCells[k];
  }

  /** The moves Medium can return as written: the centre when it is empty,
      otherwise any empty cell. */
  function MediumChoices(board: Board): (r: set<Index>)
    ensures forall m: Index :: m in r <==> board[m].None? && (board[4].None? ==> m == 4)
  {
    if board[4].None? then {4} else set m: Index | board[m].None?
  }

  /** Medium as written: the win loop and the block loop each compute a
      candidate, and the final centre-or-random assignment then replaces it
      whatever they found. */
  method MediumMove(board: Board, emptyCells: seq<Index>) returns (moveIndex: Index)
    requires emptyCells == EmptyCells(board) && emptyCells != []
    ensures moveIndex in MediumChoices(board)
    ensures board[moveIndex].None?
    ensures board[4].None? ==> moveIndex == 4
  {
    EmptyCellsExact(board);
    // the win loop: a candidate for O
    var win := FirstCompletingCell(board, emptyCells, O);
    if win.Some? {
      moveIndex := win.value;
    }
    // the block loop: a candidate against X, replacing the one above
    var block := FirstCompletingCell(board, emptyCells, X);
    if block.Some? {
      moveIndex := block.value;
    }
    // the final assignment, which replaces both candidates
    if 4 in emptyCells {
      moveIndex := 4;
    } else {
      var k :| 0 <= k < |emptyCells|;
      moveIndex := emptyCells[k];
    }
  }

  /** Writing `m` into the empty cell `i` completes a line of `m`. */
  predicate Completes(board: Board, i: Index, m: Mark) {
    board[i].None? && CheckWinner(board[i := Some(m)]).winner == Some(m)
  }

  /** The lowest cell from `k` on where `m` would complete a line. */
  function FirstCompleting(board: Board, m: Mark, k: nat): (r: Option<Index>)
    requires k <= 9
    ensures r.Some? ==> k <= r.value && Completes(board, r.value, m)
    ensures r.Some? ==> forall j: Index | k <= j < r.value :: !Completes(board, j, m)
    ensures r.None? ==> forall j: Index | k <= j :: !Completes(board, j, m)
    decreases 9 - k
  {
    if k == 9 then None
    else if Completes(board, k, m) then Some(k as Index)
    else FirstCompleting(board, m, k + 1)
  }

  /** The first cell of `cells` where writing `m` wins for `m`: the cell a
      loop of Medium stops at. */
  function FirstCompletingIn(board: Board, cells: seq<Index>, m: Mark): (r: Option<Index>)
    ensures r.Some? ==> r.value in cells && CheckWinner(board[r.value := Some(m)]).winner == Some(m)
  {
    if cells == [] then None
    else if CheckWinner(board[cells[0] := Some(m)]).winner == Some(m) then Some(cells[0])
    else FirstCompletingIn(board, cells[1..], m)
  }

  /** Scanning the empty cells from `k` on finds the lowest cell from `k` on
      that completes a line. */
  lemma {:induction false} ScanFindsFirstCompleting(board: Board, m: Mark, k: nat)
    requires k <= 9
    ensures FirstCompletingIn(board, EmptyCellsFrom(board, k), m) == FirstCompleting(board, m, k)
    decreases 9 - k
  {
    if k < 9 {
      ScanFindsFirstCompleting(board, m, k + 1);
      if board[k].None? {
        var cells := EmptyCellsFrom(board, k);
        assert cells[0] == k && cells[1..] == EmptyCellsFrom(board, k + 1);
      }
    }
  }

  /** One of Medium's two loops: try each of `emptyCells` in turn on a copy
      of the board and stop at the first where `m` wins. It finds the lowest
      empty cell that completes a line of `m`. */
  method FirstCompletingCell(board: Board, emptyCells: seq<Index>, m: Mark) returns (found: Option<Index>)
    requires emptyCells == EmptyCells(board)
    ensures found == FirstCompleting(board, m, 0)
  {
    found := None;
    var n := 0;
    while n < |emptyCells|
      invariant 0 <= n <= |emptyCells|
      invariant FirstCompletingIn(board, emptyCells[n..], m) == FirstCompletingIn(board, emptyCells, m)
    {
      var index := emptyCells[n];
      var testBoard := board[index := Some(m)];
      if CheckWinner(testBoard).winner == Some(m) {
        found := Some(index);
        break;
      }
      assert emptyCells[n..][1..] == emptyCells[n + 1..];
      n := n + 1;
    }
    ScanFindsFirstCompleting(board, m, 0);
  }

  /** `FirstCompleting` is the only cell that completes a line with no lower
      cell doing so, or `None` when no cell does. */
  lemma FirstCompletingIsFirst(board: Board, m: Mark, r: Option<Index>)
    requires r.Some? ==> Completes(board, r.value, m)
    requires forall j: Index | r.None? || j < r.value :: !Completes(board, j, m)
    ensures FirstCompleting(board, m, 0) == r
  {
    var f := FirstCompleting(board, m, 0);
    if f.Some? && r.Some? {
      assert !(f.value < r.value) && !(r.value < f.value);
    }
  }

  /** The cascade the Medium comments describe, each rule stopping at its
      first candidate: win, else block, else centre; `None` means "random". */
  function MediumCascade(board: Board): (r: Option<Index>)
    ensures r.Some? ==> board[r.value].None?
    // win: the lowest cell where O completes a line
    ensures (exists i: Index :: Completes(board, i, O)) ==> r.Some? && Completes(board, r.value, O)
    ensures r.Some? && Completes(board, r.value, O) ==> forall j: Index | j < r.value :: !Completes(board, j, O)
    // block: otherwise the lowest cell where X would complete a line
    ensures (forall i: Index :: !Completes(board, i, O)) && (exists i: Index :: Completes(board, i, X)) ==>
      r.Some? && Completes(board, r.value, X) && forall j: Index | j < r.value :: !Completes(board, j, X)
    // centre: otherwise cell 4 if it is empty
    ensures (forall i: Index :: !Completes(board, i, O) && !Completes(board, i, X)) && board[4].None? ==> r == Some(4)
    ensures r.None? ==> board[4].Some? && forall i: Index :: !Completes(board, i, O) && !Completes(board, i, X)
  {
    match FirstCompleting(board, O, 0)
    case Some(i) => Some(i)
    case None =>
      match FirstCompleting(board, X, 0)
      case Some(i) => Some(i)
      case None => if board[4].None? then Some(4) else None
  }

  /** The board where Medium as written gives up an immediate win:
      O holds 0 and 1, X holds 3, 6 and 8, O to move. */
  const MissedWinBoard: Board :=
    [Some(O), Some(O), None, Some(X), None, None, Some(X), None, Some(X)]

  /** On `MissedWinBoard` O wins at once by playing 2, and the cascade plays
      2; Medium as written can only play the centre, which does not win. */
  lemma MediumMissesImmediateWin()
    ensures Completes(MissedWinBoard, 2, O)
    ensures MediumCascade(MissedWinBoard) == Some(2)
    ensures MediumChoices(MissedWinBoard) == {4}
    ensures !Completes(MissedWinBoard, 4, O)
  {
    assert FirstCompleting(MissedWinBoard, O, 0) == Some(2) by {
      assert !Completes(MissedWinBoard, 0, O) && !Completes(MissedWinBoard, 1, O);
    }
  }

  /** The blocking board: X holds 0 and 1, O holds the centre, O to move. */
  const BlockingBoard: Board :=
    [Some(X), Some(X), None, None, Some(O), None, None, None, None]

  /** On `BlockingBoard` O cannot win, X threatens 2, and the cascade blocks
      at 2; Medium as written may play any empty cell. */
  lemma MediumMissesBlock()
    ensures forall i: Index :: !Completes(BlockingBoard, i, O)
    ensures Completes(BlockingBoard, 2, X)
    ensures MediumCascade(BlockingBoard) == Some(2)
    ensures MediumChoices(BlockingBoard) == {2, 3, 5, 6, 7, 8}
  {
    forall i: Index ensures !Completes(BlockingBoard, i, O) {
      if BlockingBoard[i].None? {
        CheckWinnerIsFirstWonLine(BlockingBoard[i := Some(O)]);
      }
    }
    assert FirstCompleting(BlockingBoard, X, 0) == Some(2) by {
      assert !Completes(BlockingBoard, 0, X) && !Completes(BlockingBoard, 1, X);
    }
  }

  // ---------------------------------------------------------------------
  // Hard: minimax

  /** `scores`: an X line is -10, an O line +10, a draw 0. */
  function ScoreOf(m: Mark): (r: int)
    ensures m == O ==> r > 0
    ensures m == X ==> r < 0
    ensures r == -10 || r == 10
  {
    if m == X then -10 else 10
  }

  const DrawScore := 0

  /** Stand-ins for the source's -Infinity and Infinity: below and above
      every score. */
  const NegInfinity := -11
  const PosInfinity := 11

  predicate IsScore(v: int) {
    v == -10 || v == 0 || v == 10
  }

  function Max(a: int, b: int): int { if a >= b then a else b }
  function Min(a: int, b: int): int { if a <= b then a else b }

  /** The mark the player to move places: O when maximising, X when minimising. */
  function Mover(isMaximizing: bool): Mark {
    if isMaximizing then O else X
  }

  /** The board after the player to move plays the empty cell `i`. */
  function Child(board: Board, i: Index, isMaximizing: bool): Board {
    board[i := Some(Mover(isMaximizing))]
  }

  /** The value of `minimax(tempBoard, depth, isMaximizing)`: a won board
      scores its winner, a full board 0, otherwise the best score over the
      empty cells for the player to move. */
  function Minimax(board: Board, isMaximizing: bool): (r: int)
    ensures IsScore(r)
    decreases 9 - CountFilled(board), 1
  {
    var result := CheckWinner(board);
    if result.winner.Some? then ScoreOf(result.winner.value)
    else if Full(board) then DrawScore
    else Best(board, isMaximizing, 0, if isMaximizing then NegInfinity else PosInfinity)
  }

  /** The loop over the cells `i..8` of the maximising (or minimising)
      branch, with `bestScore` the value so far. */
  function Best(board: Board, isMaximizing: bool, i: nat, bestScore: int): (r: int)
    requires i <= 9
    requires IsScore(bestScore) || bestScore == (if isMaximizing then NegInfinity else PosInfinity)
    ensures IsScore(r) || (r == bestScore && forall j: Index | i <= j :: board[j].Some?)
    decreases 9 - CountFilled(board), 0, 9 - i
  {
    if i == 9 then bestScore
    else if board[i].None? then
      FillOneMore(board, i, Mover(isMaximizing));
      var score := Minimax(Child(board, i, isMaximizing), !isMaximizing);
      Best(board, isMaximizing, i + 1, if isMaximizing then Max(score, bestScore) else Min(score, bestScore))
    else Best(board, isMaximizing, i + 1, bestScore)
  }

  /** The maximising loop's result is the largest of `bestScore` and the
      scores of the children from cell `i` on (O placed, X to move), and it
      is `bestScore` or one of those scores. */
  lemma {:induction false} BestIsMaximum(board: Board, i: nat, bestScore: int)
    requires i <= 9
    requires IsScore(bestScore) || bestScore == NegInfinity
    ensures bestScore <= Best(board, true, i, bestScore)
    ensures forall j: Index | i <= j && board[j].None? ::
      Minimax(Child(board, j, true), false) <= Best(board, true, i, bestScore)
    ensures Best(board, true, i, bestScore) == bestScore ||
      exists j: Index | i <= j && board[j].None? ::
        Best(board, true, i, bestScore) == Minimax(Child(board, j, true), false)
    decreases 9 - i
  {
    if i < 9 {
      var r := Best(board, true, i, bestScore);
      if board[i].None? {
        var c := Minimax(Child(board, i, true), false);
        var next := Max(c, bestScore);
        BestIsMaximum(board, i + 1, next);
        assert r == Best(board, true, i + 1, next);
        if r != bestScore && r == next {
          assert r == c;
        }
      } else {
        BestIsMaximum(board, i + 1, bestScore);
        assert r == Best(board, true, i + 1, bestScore);
      }
    }
  }

  /** The minimising loop's result is the smallest of `bestScore` and the
      scores of the children from cell `i` on (X placed, O to move), and it
      is `bestScore` or one of those scores. */
  lemma {:induction false} BestIsMinimum(board: Board, i: nat, bestScore: int)
    requires i <= 9
    requires IsScore(bestScore) || bestScore == PosInfinity
    ensures Best(board, false, i, bestScore) <= bestScore
    ensures forall j: Index | i <= j && board[j].None? ::
      Best(board, false, i, bestScore) <= Minimax(Child(board, j, false), true)
    ensures Best(board, false, i, bestScore) == bestScore ||
      exists j: Index | i <= j && board[j].None? ::
        Best(board, false, i, bestScore) == Minimax(Child(board, j, false), true)
    decreases 9 - i
  {
    if i < 9 {
      var r := Best(board, false, i, bestScore);
      if board[i].None? {
        var c := Minimax(Child(board, i, false), true);
        var next := Min(c, bestScore);
        BestIsMinimum(board, i + 1, next);
        assert r == Best(board, false, i + 1, next);
        if r != bestScore && r == next {
          assert r == c;
        }
      } else {
        BestIsMinimum(board, i + 1, bestScore);
        assert r == Best(board, false, i + 1, bestScore);
      }
    }
  }

  /** On a board still in play, the maximiser's value is the largest of its
      children's values (O placed, X to move) and the minimiser's the
      smallest (X placed, O to move), each attained by some empty cell. */
  lemma MinimaxIsExtremumOfChildren(board: Board, isMaximizing: bool)
    requires CheckWinner(board).winner.None? && !Full(board)
    ensures forall j: Index | board[j].None? ::
      var c := Minimax(Child(board, j, isMaximizing), !isMaximizing);
      if isMaximizing then c <= Minimax(board, isMaximizing) else Minimax(board, isMaximizing) <= c
    ensures exists j: Index | board[j].None? ::
      Minimax(board, isMaximizing) == Minimax(Child(board, j, isMaximizing), !isMaximizing)
  {
    if isMaximizing {
      BestIsMaximum(board, 0, NegInfinity);
      assert Minimax(board, true) == Best(board, true, 0, NegInfinity);
    } else {
      BestIsMinimum(board, 0, PosInfinity);
      assert Minimax(board, false) == Best(board, false, 0, PosInfinity);
    }
  }

  /** `minimax` on the scratch board: writes each empty cell in turn,
      recurses, and restores the cell, so the board is unchanged on return. */
  method MinimaxSearch(tempBoard: array<Cell>, isMaximizing: bool) returns (score: int)
    requires tempBoard.Length == 9
    modifies tempBoard
    ensures tempBoard[..] == old(tempBoard[..])
    ensures score == Minimax(old(tempBoard[..]), isMaximizing)
    decreases 9 - CountFilled(tempBoard[..])
  {
    ghost var board: Board := tempBoard[..];
    var result := CheckWinner(tempBoard[..]);
    if result.winner.Some? {
      return ScoreOf(result.winner.value);
    }
    if Full(tempBoard[..]) {
      return DrawScore;
    }

    if isMaximizing {
      var bestScore := NegInfinity;
      var i := 0;
      while i < tempBoard.Length
        invariant 0 <= i <= 9
        invariant tempBoard[..] == board
        invariant IsScore(bestScore) || bestScore == NegInfinity
        invariant Best(board, true, i, bestScore) == Minimax(board, true)
      {
        if tempBoard[i] == None {
          tempBoard[i] := Some(O);
          FillOneMore(board, i, O);
          assert tempBoard[..] == Child(board, i, true);
          var score := MinimaxSearch(tempBoard, false);
          tempBoard[i] := None;
          assert tempBoard[..] == board;
          bestScore := Max(score, bestScore);
        }
        i := i + 1;
      }
      return bestScore;
    } else {
      var bestScore := PosInfinity;
      var i := 0;
      while i < tempBoard.Length
        invariant 0 <= i <= 9
        invariant tempBoard[..] == board
        invariant IsScore(bestScore) || bestScore == PosInfinity
        invariant Best(board, false, i, bestScore) == Minimax(board, false)
      {
        if tempBoard[i] == None {
          tempBoard[i] := Some(X);
          FillOneMore(board, i, X);
          assert tempBoard[..] == Child(board, i, false);
          var score := MinimaxSearch(tempBoard, true);
          tempBoard[i] := None;
          assert tempBoard[..] == board;
          bestScore := Min(score, bestScore);
        }
        i := i + 1;
      }
      return bestScore;
    }
  }

  /** The score Hard gives to playing O at `i`: `minimax` of the board with O
      placed, X to move. */
  function HardScore(board: Board, i: Index): (r: int)
    ensures IsScore(r)
  {
    Minimax(Child(board, i, true), false)
  }

  /** `i` is the move Hard returns: an empty cell whose score is maximal, and
      strictly above that of every lower empty cell (the comparison is `>`). */
  predicate HardChoice(board: Board, i: Index) {
    && board[i].None?
    && (forall j: Index | board[j].None? :: HardScore(board, j) <= HardScore(board, i))
    && (forall j: Index | j < i && board[j].None? :: HardScore(board, j) < HardScore(board, i))
  }

  /** One round of Hard's loop: copy the board, place O at `index`, and run
      `minimax` with X to move. */
  method ScoreMove(board: Board, index: Index) returns (score: int)
    ensures score == HardScore(board, index)
  {
    var testBoard := new Cell[9](j requires 0 <= j < 9 => board[j]);
    testBoard[index] := Some(O);
    assert testBoard[..] == Child(board, index, true);
    score := MinimaxSearch(testBoard, false);
  }

  /** Hard's loop: scores each cell of `emptyCells` in turn and keeps the
      first one with the highest score (`score > bestScore`). `bestK` is the
      position of the kept cell in `emptyCells`. */
  method BestScoringCell(board: Board, emptyCells: seq<Index>) returns (bestMove: Index, ghost bestK: nat)
    requires emptyCells != []
    ensures bestK < |emptyCells| && bestMove == emptyCells[bestK]
    ensures forall k | 0 <= k < |emptyCells| :: HardScore(board, emptyCells[k]) <= HardScore(board, bestMove)
    ensures forall k | 0 <= k < bestK :: HardScore(board, emptyCells[k]) < HardScore(board, bestMove)
  {
    var bestScore := NegInfinity;
    bestMove := emptyCells[0];
    bestK := 0;
    var n := 0;
    while n < |emptyCells|
      invariant 0 <= n <= |emptyCells|
      invariant 0 <= bestK < |emptyCells| && bestMove == emptyCells[bestK]
      invariant n == 0 ==> bestScore == NegInfinity && bestK == 0
      invariant n > 0 ==> bestK < n && bestScore == HardScore(board, bestMove)
      invariant forall k | 0 <= k < n :: HardScore(board, emptyCells[k]) <= bestScore
      invariant forall k | 0 <= k < bestK :: HardScore(board, emptyCells[k]) < bestScore
    {
      var index := emptyCells[n];
      var score := ScoreMove(board, index);
      if score > bestScore {
        bestScore := score;
        bestMove := index;
        bestK := n;
      }
      n := n + 1;
    }
  }

  /** Hard: the cell `BestScoringCell` keeps, over all the empty cells. */
  method HardMove(board: Board, emptyCells: seq<Index>) returns (bestMove: Index)
    requires emptyCells == EmptyCells(board) && emptyCells != []
    ensures HardChoice(board, bestMove)
  {
    ghost var bestK;
    bestMove, bestK := BestScoringCell(board, emptyCells);
    LoopFindsHardChoice(board, emptyCells, bestK);
  }

  /** What Hard's loop knows when it stops: the cell at `bestK` scores
      highest among all of `emptyCells`, strictly above every cell before it.
      Then it is Hard's choice. */
  lemma LoopFindsHardChoice(board: Board, emptyCells: seq<Index>, bestK: nat)
    requires emptyCells == EmptyCells(board) && bestK < |emptyCells|
    requires forall k | 0 <= k < |emptyCells| :: HardScore(board, emptyCells[k]) <= HardScore(board, emptyCells[bestK])
    requires forall k | 0 <= k < bestK :: HardScore(board, emptyCells[k]) < HardScore(board, emptyCells[bestK])
    ensures HardChoice(board, emptyCells[bestK])
  {
    EmptyCellsExact(board);
    var bestMove := emptyCells[bestK];
    forall j: Index | board[j].None?
      ensures HardScore(board, j) <= HardScore(board, bestMove)
      ensures j < bestMove ==> HardScore(board, j) < HardScore(board, bestMove)
    {
      assert j in emptyCells;
      var k :| 0 <= k < |emptyCells| && emptyCells[k] == j;
      assert j < bestMove ==> k < bestK;
    }
  }

  /** Hard's choice is well defined: at most one cell is a `HardChoice`. */
  lemma HardChoiceUnique(board: Board, i: Index, j: Index)
    requires HardChoice(board, i) && HardChoice(board, j)
    ensures i == j
  {
  }

  /** On a board still in play, Hard's choice attains the minimax value of
      the position with O to move. */
  lemma HardChoiceAttainsMinimax(board: Board, i: Index)
    requires CheckWinner(board).winner.None? && !Full(board)
    requires HardChoice(board, i)
    ensures HardScore(board, i) == Minimax(board, true)
  {
    MinimaxIsExtremumOfChildren(board, true);
    var j: Index :| board[j].None? && Minimax(board, true) == Minimax(Child(board, j, true), false);
    assert HardScore(board, j) <= HardScore(board, i);
  }

  /** `makeAIMove`'s choice for a board with an empty cell. */
  method SelectMove(board: Board, emptyCells: seq<Index>, difficulty: Difficulty) returns (moveIndex: Index)
    requires emptyCells == EmptyCells(board) && emptyCells != []
    ensures board[moveIndex].None?
    ensures difficulty == Medium ==> moveIndex in MediumChoices(board)
    ensures difficulty == Hard ==> HardChoice(board, moveIndex)
  {
    match difficulty
    case Easy =>
      moveIndex := EasyMove(board, emptyCells);
    case Medium =>
      moveIndex := MediumMove(board, emptyCells);
    case Hard =>
      moveIndex := HardMove(board, emptyCells);
  }
}
