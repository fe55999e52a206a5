/**
 The data shared by the evaluator, the search engine and the driver: positions,
 actions, Java's 32-bit integer range, and the position abstraction (move
 generation and move application) that the search consumes but does not
 implement.
 */
module Game {

  /** Java's `Integer.MIN_VALUE` and `Integer.MAX_VALUE`. */
  const INT_MIN: int := -0x8000_0000
  const INT_MAX: int := 0x7fff_ffff

  /** The values a Java `int` can hold. */
  type Int32 = x: int | INT_MIN <= x <= INT_MAX

  /** Two's-complement wrap-around of a mathematical integer into a Java `int`. */
  function Wrap32(x: int): (r: Int32)
    ensures INT_MIN <= x <= INT_MAX ==> r == x
    ensures (r - x) % 0x1_0000_0000 == 0
  {
    (x - INT_MIN) % 0x1_0000_0000 + INT_MIN
  }

  function Max(a: int, b: int): int {
    if a >= b then a else b
  }

  function Min(a: int, b: int): int {
    if a <= b then a else b
  }

  /** Side length of the playing area. */
  const BOARD_SIZE: nat := 8

  /**
   The position's board array: the 8x8 playing area, addressed by rows and
   columns 1..8, framed by one border row and column on every side.
   */
  type Board = b: seq<seq<char>> | IsFramedBoard(b)
    witness seq(BOARD_SIZE + 2, _ => seq(BOARD_SIZE + 2, _ => 'E'))

  predicate IsFramedBoard(b: seq<seq<char>>) {
    |b| == BOARD_SIZE + 2 && forall i :: 0 <= i < |b| ==> |b[i]| == BOARD_SIZE + 2
  }

  /** A game position: the board and whether the side to move is the maximizing one. */
  datatype Position = Position(board: Board, maxPlayer: bool)

  /**
   A move: target cell, pass flag, and the value the search attached to it.
   The coordinates (0, 0) never name a real cell (cells are 1-indexed).
   */
  datatype Action = Action(row: int, column: int, pass: bool, value: int)

  /** `new OthelloAction(0, 0)` with its value set to `value`. */
  function Placeholder(value: int): (a: Action)
    ensures a.row == 0 && a.column == 0 && !a.pass && a.value == value
  {
    Action(0, 0, false, value)
  }

  /** What applying a move yields: a successor, or an `IllegalMoveException` message. */
  datatype MoveResult = Moved(next: Position) | Illegal(message: string)

  /**
   The position abstraction supplied by the caller: `getMoves()` in generator
   order, and `makeMove`. Neither is implemented here.
   */
  datatype Rules = Rules(moves: Position -> seq<Action>, makeMove: (Position, Action) -> MoveResult)

  /** Every move the generator lists can be applied. */
  ghost predicate Legal(rules: Rules) {
    forall p: Position, m: Action :: m in rules.moves(p) ==> rules.makeMove(p, m).Moved?
  }

  /** The result of a search: an action, or one of the two exceptions the search can throw. */
  datatype Outcome = Ok(action: Action) | Timeout | IllegalMove(message: string)

  datatype Option<T> = None | Some(value: T)
}
