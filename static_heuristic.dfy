/**
 The bundled static evaluator: a positional score read off a fixed 8x8 weight
 table, plus a mobility score built from two move counts.
 */
module StaticHeuristic {
  import opened Game

  /** Positional weights: corners high, cells next to corners negative. */
  const BOARD_WEIGHT: seq<seq<int>> := [
    [20, -3, 11,  8,  8, 11, -3, 20],
    [-3, -7, -4,  1,  1, -4, -7, -3],
    [11, -4,  2,  2,  2,  2, -4, 11],
    [ 8,  1,  2,  1,  1,  2,  1,  8],
    [ 8,  1,  2,  1,  1,  2,  1,  8],
    [11, -4,  2,  2,  2,  2, -4, 11],
    [-3, -7, -4,  1,  1, -4, -7, -3],
    [20, -3, 11,  8,  8, 11, -3, 20]]

  predicate InArea(i: int, j: int) {
    1 <= i <= BOARD_SIZE && 1 <= j <= BOARD_SIZE
  }

  /** The weight of playing-area cell (i, j), both 1-indexed. */
  function Weight(i: int, j: int): int
    requires InArea(i, j)
  {
    BOARD_WEIGHT[i - 1][j - 1]
  }

  /** What cell (i, j) contributes: its weight for 'W', minus it for 'B', nothing otherwise. */
  function CellScore(b: Board, i: int, j: int): int
    requires InArea(i, j)
  {
    if b[i][j] == 'W' then Weight(i, j)
    else if b[i][j] == 'B' then -Weight(i, j)
    else 0
  }

  /** Columns 1..n of row i. */
  function RowScore(b: Board, i: int, n: nat): int
    requires 1 <= i <= BOARD_SIZE && n <= BOARD_SIZE
  {
    if n == 0 then 0 else RowScore(b, i, n - 1) + CellScore(b, i, n)
  }

  /** Rows 1..m, columns 1..n. */
  function BlockScore(b: Board, m: nat, n: nat): int
    requires m <= BOARD_SIZE && n <= BOARD_SIZE
  {
    if m == 0 then 0 else BlockScore(b, m - 1, n) + RowScore(b, m, n)
  }

  /** The positional score of the whole playing area. */
  function BoardScore(b: Board): int {
    BlockScore(b, BOARD_SIZE, BOARD_SIZE)
  }

  /**
   `evaluateBoard`: sums the cells row by row, each row column by column,
   reading only the playing area.
   */
  method EvaluateBoard(position: Position) returns (value: int)
    ensures value == BoardScore(position.board)
  {
    var board := position.board;
    value := 0;
    var i := 1;
    while i <= BOARD_SIZE
      invariant 1 <= i <= BOARD_SIZE + 1
      invariant value == BlockScore(board, i - 1, BOARD_SIZE)
    {
      var j := 1;
      while j <= BOARD_SIZE
        invariant 1 <= j <= BOARD_SIZE + 1
        invariant value == BlockScore(board, i - 1, BOARD_SIZE) + RowScore(board, i, j - 1)
      {
        if board[i][j] == 'W' {
          value := value + BOARD_WEIGHT[i - 1][j - 1];
        } else if board[i][j] == 'B' {
          value := value + BOARD_WEIGHT[i - 1][j - 1] * -1;
        }
        j := j + 1;
      }
      i := i + 1;
    }
  }

  /** The clone with the side to move flipped, as `evaluateNumOfMoves` builds it. */
  function Flipped(p: Position): (q: Position)
    ensures q.board == p.board && q.maxPlayer == !p.maxPlayer
  {
    p.(maxPlayer := !p.maxPlayer)
  }

  /**
   `evaluateNumOfMoves`: the move count of the side to move against that of
   the other side, signed so that the maximizing side's mobility counts
   positively whichever side is to move.
   */
  function Mobility(moves: Position -> seq<Action>, p: Position): (r: int)
    ensures r == |moves(p.(maxPlayer := true))| - |moves(p.(maxPlayer := false))|
  {
    var myPlayerScore := |moves(p)|;
    var opponentScore := |moves(Flipped(p))|;
    if p.maxPlayer then myPlayerScore - opponentScore else opponentScore - myPlayerScore
  }

  /**
   `evaluate`: positional score plus mobility, added as Java `int`s: the
   exact sum whenever it fits, and otherwise the `int` congruent to it.
   */
  function Evaluate(moves: Position -> seq<Action>, p: Position): (r: Int32)
    ensures var sum := BoardScore(p.board) + Mobility(moves, p);
      && (INT_MIN <= sum <= INT_MAX ==> r == sum)
      && (r - sum) % 0x1_0000_0000 == 0
  {
    Wrap32(BoardScore(p.board) + Mobility(moves, p))
  }

  /** The heuristic as a pluggable evaluator over a given move generator. */
  function Evaluator(moves: Position -> seq<Action>): Position -> Int32 {
    p => Evaluate(moves, p)
  }
}
