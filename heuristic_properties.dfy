/**
 Properties of the static evaluator: the weight table's symmetries and the
 board score's invariance under them, colour-swap antisymmetry, the bound on
 the board score, and the mobility term's independence of the side to move.
 */
module HeuristicProperties {
  import opened Game
  import opened StaticHeuristic

  /** The table is symmetric under transpose and under both reflections. */
  lemma WeightSymmetric(i: int, j: int)
    requires InArea(i, j)
    ensures Weight(i, j) == Weight(j, i)
    ensures Weight(i, j) == Weight(BOARD_SIZE + 1 - i, j)
    ensures Weight(i, j) == Weight(i, BOARD_SIZE + 1 - j)
  {
    var r := BOARD_WEIGHT[i - 1];
    assert r == BOARD_WEIGHT[BOARD_SIZE - i];
    assert r[j - 1] == r[BOARD_SIZE - j];
  }

  // ----- board transformations (the frame is carried along unchanged) -----

  function Swap(c: char): char {
    if c == 'W' then 'B' else if c == 'B' then 'W' else c
  }

  /** Every 'W' becomes 'B' and every 'B' becomes 'W'. */
  function SwapColors(b: Board): (s: Board)
    ensures forall i, j :: InArea(i, j) ==> s[i][j] == Swap(b[i][j])
  {
    seq(BOARD_SIZE + 2, i requires 0 <= i < BOARD_SIZE + 2 =>
      seq(BOARD_SIZE + 2, j requires 0 <= j < BOARD_SIZE + 2 => Swap(b[i][j])))
  }

  /** Row i and column j trade places. */
  function Transpose(b: Board): (s: Board)
    ensures forall i, j :: InArea(i, j) ==> s[i][j] == b[j][i]
  {
    seq(BOARD_SIZE + 2, i requires 0 <= i < BOARD_SIZE + 2 =>
      seq(BOARD_SIZE + 2, j requires 0 <= j < BOARD_SIZE + 2 => b[j][i]))
  }

  /** The playing area's rows in reverse order (reflection about the horizontal axis). */
  function MirrorRows(b: Board): (s: Board)
    ensures forall i, j :: InArea(i, j) ==> s[i][j] == b[BOARD_SIZE + 1 - i][j]
  {
    seq(BOARD_SIZE + 2, i requires 0 <= i < BOARD_SIZE + 2 =>
      if 1 <= i <= BOARD_SIZE then b[BOARD_SIZE + 1 - i] else b[i])
  }

  /** The playing area's columns in reverse order (reflection about the vertical axis). */
  function MirrorColumns(b: Board): (s: Board)
    ensures forall i, j :: InArea(i, j) ==> s[i][j] == b[i][BOARD_SIZE + 1 - j]
  {
    seq(BOARD_SIZE + 2, i requires 0 <= i < BOARD_SIZE + 2 =>
      seq(BOARD_SIZE + 2, j requires 0 <= j < BOARD_SIZE + 2 =>
        if 1 <= j <= BOARD_SIZE then b[i][BOARD_SIZE + 1 - j] else b[i][j]))
  }

  predicate NoPieces(b: Board) {
    forall i, j :: 1 <= i <= BOARD_SIZE && 1 <= j <= BOARD_SIZE ==> b[i][j] != 'W' && b[i][j] != 'B'
  }

  // ----- empty board and colour swap -----

  lemma {:induction false} NoPiecesBlock(b: Board, m: nat, n: nat)
    requires m <= BOARD_SIZE && n <= BOARD_SIZE
    requires NoPieces(b)
    ensures BlockScore(b, m, n) == 0
  {
    if m > 0 {
      NoPiecesBlock(b, m - 1, n);
      NoPiecesRow(b, m, n);
    }
  }

  lemma {:induction false} NoPiecesRow(b: Board, i: int, n: nat)
    requires 1 <= i <= BOARD_SIZE && n <= BOARD_SIZE
    requires NoPieces(b)
    ensures RowScore(b, i, n) == 0
  {
    if n > 0 {
      NoPiecesRow(b, i, n - 1);
    }
  }

  /** A board with no pieces in the playing area scores 0. */
  lemma NoPiecesScoresZero(b: Board)
    requires NoPieces(b)
    ensures BoardScore(b) == 0
  {
    NoPiecesBlock(b, BOARD_SIZE, BOARD_SIZE);
  }

  lemma {:induction false} SwapColorsRow(b: Board, i: int, n: nat)
    requires 1 <= i <= BOARD_SIZE && n <= BOARD_SIZE
    ensures RowScore(SwapColors(b), i, n) == -RowScore(b, i, n)
  {
    if n > 0 {
      SwapColorsRow(b, i, n - 1);
    }
  }

  lemma {:induction false} SwapColorsBlock(b: Board, m: nat, n: nat)
    requires m <= BOARD_SIZE && n <= BOARD_SIZE
    ensures BlockScore(SwapColors(b), m, n) == -BlockScore(b, m, n)
  {
    if m > 0 {
      SwapColorsBlock(b, m - 1, n);
      SwapColorsRow(b, m, n);
    }
  }

  /** Exchanging the two colours negates the board score. */
  lemma SwapColorsNegates(b: Board)
    ensures BoardScore(SwapColors(b)) == -BoardScore(b)
  {
    SwapColorsBlock(b, BOARD_SIZE, BOARD_SIZE);
  }

  // ----- bound -----

  function Abs(x: int): nat {
    if x < 0 then -x else x
  }

  /** Sum of |weight| over columns 1..n of row i. */
  function AbsRowWeight(i: int, n: nat): nat
    requires 1 <= i <= BOARD_SIZE && n <= BOARD_SIZE
  {
    if n == 0 then 0 else AbsRowWeight(i, n - 1) + Abs(Weight(i, n))
  }

  /** Sum of |weight| over rows 1..m, columns 1..n. */
  function AbsBlockWeight(m: nat, n: nat): nat
    requires m <= BOARD_SIZE && n <= BOARD_SIZE
  {
    if m == 0 then 0 else AbsBlockWeight(m - 1, n) + AbsRowWeight(m, n)
  }

  lemma AbsWeightTotal()
    ensures AbsBlockWeight(BOARD_SIZE, BOARD_SIZE) == 352
  {
    assert AbsRowWeight(1, 8) == 84;
    assert AbsRowWeight(2, 8) == 30;
    assert AbsRowWeight(3, 8) == 38;
    assert AbsRowWeight(4, 8) == 24;
    assert AbsRowWeight(5, 8) == 24;
    assert AbsRowWeight(6, 8) == 38;
    assert AbsRowWeight(7, 8) == 30;
    assert AbsRowWeight(8, 8) == 84;
  }

  lemma {:induction false} RowBounded(b: Board, i: int, n: nat)
    requires 1 <= i <= BOARD_SIZE && n <= BOARD_SIZE
    ensures Abs(RowScore(b, i, n)) <= AbsRowWeight(i, n)
  {
    if n > 0 {
      RowBounded(b, i, n - 1);
    }
  }

  lemma {:induction false} BlockBounded(b: Board, m: nat, n: nat)
    requires m <= BOARD_SIZE && n <= BOARD_SIZE
    ensures Abs(BlockScore(b, m, n)) <= AbsBlockWeight(m, n)
  {
    if m > 0 {
      BlockBounded(b, m - 1, n);
      RowBounded(b, m, n);
    }
  }

  /** The board score never exceeds 352, the sum of the table's absolute weights, in size. */
  lemma BoardScoreBounded(b: Board)
    ensures -352 <= BoardScore(b) <= 352
  {
    BlockBounded(b, BOARD_SIZE, BOARD_SIZE);
    AbsWeightTotal();
  }

  // ----- symmetries -----

  /** Rows that agree cell by cell score alike. */
  lemma {:induction false} RowsAgree(b: Board, i: int, c: Board, k: int, n: nat)
    requires 1 <= i <= BOARD_SIZE && 1 <= k <= BOARD_SIZE && n <= BOARD_SIZE
    requires forall j :: 1 <= j <= n ==> CellScore(b, i, j) == CellScore(c, k, j)
    ensures RowScore(b, i, n) == RowScore(c, k, n)
  {
    if n > 0 {
      RowsAgree(b, i, c, k, n - 1);
    }
  }

  lemma RowExpanded(b: Board, i: int)
    requires 1 <= i <= BOARD_SIZE
    ensures RowScore(b, i, 8) == CellScore(b, i, 1) + CellScore(b, i, 2) + CellScore(b, i, 3)
      + CellScore(b, i, 4) + CellScore(b, i, 5) + CellScore(b, i, 6) + CellScore(b, i, 7)
      + CellScore(b, i, 8)
  {
    assert RowScore(b, i, 1) == RowScore(b, i, 0) + CellScore(b, i, 1);
    assert RowScore(b, i, 2) == RowScore(b, i, 1) + CellScore(b, i, 2);
    assert RowScore(b, i, 3) == RowScore(b, i, 2) + CellScore(b, i, 3);
    assert RowScore(b, i, 4) == RowScore(b, i, 3) + CellScore(b, i, 4);
    assert RowScore(b, i, 5) == RowScore(b, i, 4) + CellScore(b, i, 5);
    assert RowScore(b, i, 6) == RowScore(b, i, 5) + CellScore(b, i, 6);
    assert RowScore(b, i, 7) == RowScore(b, i, 6) + CellScore(b, i, 7);
    assert RowScore(b, i, 8) == RowScore(b, i, 7) + CellScore(b, i, 8);
  }

  lemma BoardExpanded(b: Board)
    ensures BoardScore(b) == RowScore(b, 1, 8) + RowScore(b, 2, 8) + RowScore(b, 3, 8)
      + RowScore(b, 4, 8) + RowScore(b, 5, 8) + RowScore(b, 6, 8) + RowScore(b, 7, 8)
      + RowScore(b, 8, 8)
  {
    assert BlockScore(b, 1, 8) == BlockScore(b, 0, 8) + RowScore(b, 1, 8);
    assert BlockScore(b, 2, 8) == BlockScore(b, 1, 8) + RowScore(b, 2, 8);
    assert BlockScore(b, 3, 8) == BlockScore(b, 2, 8) + RowScore(b, 3, 8);
    assert BlockScore(b, 4, 8) == BlockScore(b, 3, 8) + RowScore(b, 4, 8);
    assert BlockScore(b, 5, 8) == BlockScore(b, 4, 8) + RowScore(b, 5, 8);
    assert BlockScore(b, 6, 8) == BlockScore(b, 5, 8) + RowScore(b, 6, 8);
    assert BlockScore(b, 7, 8) == BlockScore(b, 6, 8) + RowScore(b, 7, 8);
    assert BlockScore(b, 8, 8) == BlockScore(b, 7, 8) + RowScore(b, 8, 8);
  }

  /** Reflecting the board about its vertical axis leaves the score unchanged. */
  lemma MirrorColumnsInvariant(b: Board)
    ensures BoardScore(MirrorColumns(b)) == BoardScore(b)
  {
    var s := MirrorColumns(b);
    forall i | 1 <= i <= BOARD_SIZE
      ensures RowScore(s, i, 8) == RowScore(b, i, 8)
    {
      forall j | 1 <= j <= BOARD_SIZE
        ensures CellScore(s, i, j) == CellScore(b, i, BOARD_SIZE + 1 - j)
      {
        WeightSymmetric(i, j);
      }
      RowExpanded(s, i);
      RowExpanded(b, i);
    }
    BoardExpanded(s);
    BoardExpanded(b);
  }

  /** Reflecting the board about its horizontal axis leaves the score unchanged. */
  lemma MirrorRowsInvariant(b: Board)
    ensures BoardScore(MirrorRows(b)) == BoardScore(b)
  {
    var s := MirrorRows(b);
    forall i | 1 <= i <= BOARD_SIZE
      ensures RowScore(s, i, 8) == RowScore(b, BOARD_SIZE + 1 - i, 8)
    {
      forall j | 1 <= j <= BOARD_SIZE
        ensures CellScore(s, i, j) == CellScore(b, BOARD_SIZE + 1 - i, j)
      {
        WeightSymmetric(i, j);
      }
      RowsAgree(s, i, b, BOARD_SIZE + 1 - i, 8);
    }
    BoardExpanded(s);
    BoardExpanded(b);
  }

  /** Rows 1..m of column j. */
  function ColumnScore(b: Board, j: int, m: nat): int
    requires 1 <= j <= BOARD_SIZE && m <= BOARD_SIZE
  {
    if m == 0 then 0 else ColumnScore(b, j, m - 1) + CellScore(b, m, j)
  }

  /** Columns 1..n, each summed over rows 1..m. */
  function ColumnsScore(b: Board, n: nat, m: nat): int
    requires n <= BOARD_SIZE && m <= BOARD_SIZE
  {
    if n == 0 then 0 else ColumnsScore(b, n - 1, m) + ColumnScore(b, n, m)
  }

  lemma {:induction false} ColumnsAddRow(b: Board, n: nat, m: nat)
    requires n <= BOARD_SIZE && 1 <= m <= BOARD_SIZE
    ensures ColumnsScore(b, n, m) == ColumnsScore(b, n, m - 1) + RowScore(b, m, n)
  {
    if n > 0 {
      ColumnsAddRow(b, n - 1, m);
    }
  }

  /** Summing row by row or column by column gives the same total. */
  lemma {:induction false} RowsThenColumns(b: Board, m: nat, n: nat)
    requires m <= BOARD_SIZE && n <= BOARD_SIZE
    ensures BlockScore(b, m, n) == ColumnsScore(b, n, m)
  {
    if m == 0 {
      ColumnsOfNoRows(b, n);
    } else {
      RowsThenColumns(b, m - 1, n);
      ColumnsAddRow(b, n, m);
    }
  }

  lemma {:induction false} ColumnsOfNoRows(b: Board, n: nat)
    requires n <= BOARD_SIZE
    ensures ColumnsScore(b, n, 0) == 0
  {
    if n > 0 {
      ColumnsOfNoRows(b, n - 1);
    }
  }

  lemma {:induction false} TransposedRowIsColumn(b: Board, i: int, n: nat)
    requires 1 <= i <= BOARD_SIZE && n <= BOARD_SIZE
    ensures RowScore(Transpose(b), i, n) == ColumnScore(b, i, n)
  {
    if n > 0 {
      TransposedRowIsColumn(b, i, n - 1);
      WeightSymmetric(i, n);
    }
  }

  lemma {:induction false} TransposedBlock(b: Board, m: nat, n: nat)
    requires m <= BOARD_SIZE && n <= BOARD_SIZE
    ensures BlockScore(Transpose(b), m, n) == ColumnsScore(b, m, n)
  {
    if m > 0 {
      TransposedBlock(b, m - 1, n);
      TransposedRowIsColumn(b, m, n);
    }
  }

  /** Transposing the board leaves the score unchanged. */
  lemma TransposeInvariant(b: Board)
    ensures BoardScore(Transpose(b)) == BoardScore(b)
  {
    TransposedBlock(b, BOARD_SIZE, BOARD_SIZE);
    RowsThenColumns(b, BOARD_SIZE, BOARD_SIZE);
  }

  // ----- the whole evaluation -----

  /**
   With move counts an 8x8 board can produce, `evaluate` is exactly board
   score plus mobility: the Java `int` addition does not wrap.
   */
  lemma EvaluateIsSum(moves: Position -> seq<Action>, p: Position)
    requires |moves(p)| <= BOARD_SIZE * BOARD_SIZE
    requires |moves(Flipped(p))| <= BOARD_SIZE * BOARD_SIZE
    ensures Evaluate(moves, p) == BoardScore(p.board) + Mobility(moves, p)
  {
    BoardScoreBounded(p.board);
  }

  /**
   Flipping the side to move changes neither the mobility term nor the
   evaluation, and the position handed to `evaluate` keeps its flag (the flip
   is made on a copy).
   */
  lemma EvaluateIgnoresSideToMove(moves: Position -> seq<Action>, p: Position)
    ensures Mobility(moves, Flipped(p)) == Mobility(moves, p)
    ensures Evaluate(moves, Flipped(p)) == Evaluate(moves, p)
    ensures Flipped(p) != p && Flipped(Flipped(p)) == p
  {
    var q := Flipped(p);
    assert q.(maxPlayer := true) == p.(maxPlayer := true);
    assert q.(maxPlayer := false) == p.(maxPlayer := false);
  }
}
