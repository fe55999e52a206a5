/**
 The unpruned reference: plain depth-bounded minimax with the engine's own
 leaf rule (depth exhausted) and pass rule (no legal moves: the evaluator's
 score of the current position, without looking at the opponent's reply).
 `None` means some move in the full tree could not be applied.
 */
module Minimax {
  import opened Game

  function Value(rules: Rules, eval: Position -> Int32, p: Position, depth: nat, isMax: bool): Option<int>
    decreases depth, 1
  {
    var moves := rules.moves(p);
    if depth == 0 || |moves| == 0 then Some(eval(p) as int)
    else ChildrenValue(rules, eval, p, moves, 0, depth, isMax)
  }

  /** The best of the values of moves[i..], for the side `isMax` says. */
  function ChildrenValue(rules: Rules, eval: Position -> Int32, p: Position, moves: seq<Action>,
                         i: nat, depth: nat, isMax: bool): Option<int>
    requires 0 < depth && i < |moves|
    decreases depth, 0, |moves| - i
  {
    var here := match rules.makeMove(p, moves[i])
      case Illegal(_) => None
      case Moved(q) => Value(rules, eval, q, depth - 1, !isMax);
    if i + 1 == |moves| then here
    else match (here, ChildrenValue(rules, eval, p, moves, i + 1, depth, isMax))
      case (Some(x), Some(y)) => Some(if isMax then Max(x, y) else Min(x, y))
      case _ => None
  }
}
