/** The board engine of the tic-tac-toe page: marks, the 3x3 board, the eight
    winning lines and the winner check (app/tictac-toe/page.tsx:23, 36, 54-77). */
module Engine {

  datatype Option<+T> = None | Some(value: T)

  /** A player's mark. The source's `Player` is "X" | "O" | null; null is `None`. */
  datatype Mark = X | O

  /** One cell of the board: `None` is the source's null (empty cell). */
  type Cell = Option<Mark>

  /** A cell index, 0..8, row-major. */
  type Index = i: int | 0 <= i < 9

  /** The board always has nine cells (`Array(9).fill(null)`). */
  type Board = b: seq<Cell> | |b| == 9 witness EmptyBoard

  const EmptyBoard: seq<Cell> := [None, None, None, None, None, None, None, None, None]

  /** One of the eight winning combinations, as its three cell indices. */
  datatype Line = Line(a: Index, b: Index, c: Index)

  /** `winningCombinations`: rows, then columns, then diagonals. */
  const WinningCombinations: seq<Line> := [
    Line(0, 1, 2), Line(3, 4, 5), Line(6, 7, 8),
    Line(0, 3, 6), Line(1, 4, 7), Line(2, 5, 8),
    Line(0, 4, 8), Line(2, 4, 6)
  ]

  /** The three cells of `l` hold the same mark, and it is not null. */
  predicate LineWon(board: Board, l: Line) {
    board[l.a].Some? && board[l.a] == board[l.b] && board[l.a] == board[l.c]
  }

  /** The result of `checkWinner`: both fields are null, or both are set. */
  datatype WinCheck = WinCheck(winner: Option<Mark>, line: Option<Line>)

  /** Every cell holds a mark (`board.every(cell => cell !== null)`). */
  predicate Full(board: Board) {
    && board[0].Some? && board[1].Some? && board[2].Some?
    && board[3].Some? && board[4].Some? && board[5].Some?
    && board[6].Some? && board[7].Some? && board[8].Some?
  }

  /** The scan of `checkWinner` from combination `k` on: the index of the
      first combination that is won, if any. */
  function FirstWinFrom(board: Board, k: nat): (r: Option<nat>)
    requires k <= |WinningCombinations|
    ensures r.Some? ==> k <= r.value < |WinningCombinations|
    decreases |WinningCombinations| - k
  {
    if k == |WinningCombinations| then None
    else if LineWon(board, WinningCombinations[k]) then Some(k)
    else FirstWinFrom(board, k + 1)
  }

  /** The scan stops at a won combination, passes over none, and finds
      nothing only when no combination from `k` on is won. */
  lemma {:induction false} FirstWinFromIsFirst(board: Board, k: nat)
    requires k <= |WinningCombinations|
    ensures var r := FirstWinFrom(board, k);
      && (r.Some? ==> LineWon(board, WinningCombinations[r.value]))
      && (r.Some? ==> forall j | k <= j < r.value :: !LineWon(board, WinningCombinations[j]))
      && (r.None? ==> forall j | k <= j < |WinningCombinations| :: !LineWon(board, WinningCombinations[j]))
    decreases |WinningCombinations| - k
  {
    if k < |WinningCombinations| && !LineWon(board, WinningCombinations[k]) {
      FirstWinFromIsFirst(board, k + 1);
    }
  }

  /** `checkWinner`: the mark and the line of the first won combination in the
      order rows, columns, diagonals; null and null if no combination is won,
      whether or not the board is full. */
  function CheckWinner(board: Board): (r: WinCheck)
    ensures r.winner.Some? <==> r.line.Some?
  {
    match FirstWinFrom(board, 0)
    case None => WinCheck(None, None)
    case Some(k) => WinCheck(board[WinningCombinations[k].a], Some(WinningCombinations[k]))
  }

  /** `checkWinner` reports a winner exactly when some combination is won,
      and then it reports the first won combination and the mark on it. */
  lemma CheckWinnerIsFirstWonLine(board: Board)
    ensures CheckWinner(board).winner.None? <==>
      forall k | 0 <= k < |WinningCombinations| :: !LineWon(board, WinningCombinations[k])
    ensures CheckWinner(board).winner.Some? ==>
      exists k | 0 <= k < |WinningCombinations| ::
        && LineWon(board, WinningCombinations[k])
        && CheckWinner(board).line == Some(WinningCombinations[k])
        && CheckWinner(board).winner == board[WinningCombinations[k].a]
        && forall j | 0 <= j < k :: !LineWon(board, WinningCombinations[j])
  {
    FirstWinFromIsFirst(board, 0);
  }

  /** Number of non-null cells (`board.filter(cell => cell !== null).length`). */
  function CountFilled(cells: seq<Cell>): (n: nat)
    ensures n <= |cells|
  {
    if cells == [] then 0
    else (if cells[0].Some? then 1 else 0) + CountFilled(cells[1..])
  }

  /** The count reaches the length exactly when every cell holds a mark. */
  lemma {:induction false} CountFilledAll(cells: seq<Cell>)
    ensures CountFilled(cells) == |cells| <==> forall i | 0 <= i < |cells| :: cells[i].Some?
  {
    if cells != [] {
      CountFilledAll(cells[1..]);
      assert forall i | 1 <= i < |cells| :: cells[i] == cells[1..][i - 1];
    }
  }

  /** Writing a mark into an empty cell raises the filled count by one. */
  lemma {:induction false} FillOneMore(cells: seq<Cell>, i: nat, m: Mark)
    requires i < |cells| && cells[i].None?
    ensures CountFilled(cells[i := Some(m)]) == CountFilled(cells) + 1
  {
    if i > 0 {
      assert cells[i := Some(m)][1..] == cells[1..][i - 1 := Some(m)];
      FillOneMore(cells[1..], i - 1, m);
    } else {
      assert cells[i := Some(m)][1..] == cells[1..];
    }
  }

  /** The other player (`prev === "X" ? "O" : "X"`). */
  function Other(m: Mark): (r: Mark)
    ensures r != m
  {
    if m == X then O else X
  }

  /** A move completes a combination only through the cell it was played in:
      if no combination was won before `m` is written into the empty cell `i`,
      any winner afterwards is `m`. */
  lemma MoveWinnerIsMover(board: Board, i: Index, m: Mark)
    requires board[i].None?
    requires CheckWinner(board).winner.None?
    ensures CheckWinner(board[i := Some(m)]).winner.Some? ==> CheckWinner(board[i := Some(m)]).winner == Some(m)
  {
    var after := board[i := Some(m)];
    CheckWinnerIsFirstWonLine(board);
    CheckWinnerIsFirstWonLine(after);
    if CheckWinner(after).winner.Some? {
      var k :| 0 <= k < |WinningCombinations| && LineWon(after, WinningCombinations[k])
        && CheckWinner(after).winner == after[WinningCombinations[k].a];
      var l := WinningCombinations[k];
      assert !LineWon(board, l);
      assert i == l.a || i == l.b || i == l.c;
    }
  }

  /** When no combination is won, `checkWinner` gives null and null, whether
      or not the board is full. */
  lemma NoLineNoWinner(board: Board)
    requires forall k | 0 <= k < |WinningCombinations| :: !LineWon(board, WinningCombinations[k])
    ensures CheckWinner(board) == WinCheck(None, None)
  {
    FirstWinFromIsFirst(board, 0);
  }

  /** A won combination is never passed over: the reported line is that one
      or an earlier one in the order rows, columns, diagonals. */
  lemma {:induction false} ReportedLineNoLater(board: Board, k: nat)
    requires k < |WinningCombinations| && LineWon(board, WinningCombinations[k])
    ensures exists j | 0 <= j <= k ::
      CheckWinner(board).line == Some(WinningCombinations[j]) && CheckWinner(board).winner == board[WinningCombinations[j].a]
  {
    FirstWinFromIsFirst(board, 0);
    var j := FirstWinFrom(board, 0).value;
    assert j <= k;
  }

  /** A board where a row and a diagonal are both won reports a row. */
  lemma RowBeforeDiagonal(board: Board, r: nat, d: nat)
    requires r < 3 && 6 <= d < 8
    requires LineWon(board, WinningCombinations[r]) && LineWon(board, WinningCombinations[d])
    ensures exists j | 0 <= j < 3 :: CheckWinner(board).line == Some(WinningCombinations[j])
  {
    ReportedLineNoLater(board, r);
  }

  /** Every cell holds a mark exactly when `Full` holds. */
  lemma FullIffEveryCellMarked(board: Board)
    ensures Full(board) <==> forall i: Index :: board[i].Some?
  {
  }

  /** Example: a move that completes a row and a diagonal at once reports the row:
      X plays 2 with X already on 0, 1, 4 and 6. */
  lemma EarlierLineReported()
    ensures CheckWinner([Some(X), Some(X), Some(X), Some(O), Some(X), Some(O), Some(X), Some(O), Some(O)])
         == WinCheck(Some(X), Some(Line(0, 1, 2)))
  {
  }

  /** Example: a full board with no line, which has no winner. */
  lemma DrawHasNoWinner()
    ensures var board: Board := [Some(X), Some(O), Some(X), Some(X), Some(O), Some(O), Some(O), Some(X), Some(X)];
      Full(board) && CheckWinner(board) == WinCheck(None, None)
  {
  }
}
