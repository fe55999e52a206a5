/**
 The alpha-beta search engine. `Node` and `Scan` say, as functions, what one
 call of `maxValue`/`minValue` and its loop over the moves compute, including
 how many clock readings they take; the class `AlphaBetaPruning` is the engine
 itself, its recursive methods proved to compute exactly that.
 */
module AlphaBeta {
  import opened Game
  import opened SystemClock
  import StaticHeuristic

  const DEFAULT_DEPTH: nat := 7
  /** `Long.MAX_VALUE`: no deadline. */
  const DEFAULT_TIME_LIMIT: int := 0x7fff_ffff_ffff_ffff

  /** What one search invocation sees: the position abstraction, the evaluator, the clock and the deadline. */
  datatype Context = Context(rules: Rules, eval: Position -> Int32, clock: nat -> int, limit: int)

  /** A search result together with the number of clock readings taken once it is known. */
  datatype Step = Step(outcome: Outcome, ticks: nat)

  /** Whether a child value `v` replaces the best so far: strictly better only. */
  predicate Improves(isMax: bool, v: int, best: int) {
    if isMax then best < v else best > v
  }

  /**
   One node (`maxValue` when `isMax`, else `minValue`) entered with clock
   cursor `t`: deadline check, then the leaf rule, the pass rule, or the scan.
   */
  function Node(ctx: Context, p: Position, alpha: int, beta: int, depth: nat, isMax: bool, t: nat): Step
    decreases depth, 1
  {
    if ctx.clock(t) > ctx.limit then Step(Timeout, t + 1)
    else
      var moves := ctx.rules.moves(p);
      if depth == 0 then Step(Ok(Action(0, 0, !isMax && |moves| == 0, ctx.eval(p))), t + 1)
      else if |moves| == 0 then Step(Ok(Action(0, 0, true, ctx.eval(p))), t + 1)
      else Scan(ctx, p, moves, 0, Placeholder(if isMax then INT_MIN else INT_MAX), alpha, beta, depth, isMax, t + 1)
  }

  /**
   The loop over `moves` from index i, with the best move so far and the
   current window: each child is searched with the opposite polarity and one
   less depth; scanning stops once alpha exceeds beta.
   */
  function Scan(ctx: Context, p: Position, moves: seq<Action>, i: nat, best: Action,
                alpha: int, beta: int, depth: nat, isMax: bool, t: nat): Step
    requires 0 < depth && i <= |moves|
    decreases depth, 0, |moves| - i
  {
    if i == |moves| then Step(Ok(best), t)
    else match ctx.rules.makeMove(p, moves[i])
      case Illegal(message) => Step(IllegalMove(message), t)
      case Moved(q) =>
        var child := Node(ctx, q, alpha, beta, depth - 1, !isMax, t);
        if !child.outcome.Ok? then child
        else
          var v := child.outcome.action.value;
          var best' := if Improves(isMax, v, best.value) then moves[i].(value := v) else best;
          var alpha' := if isMax then Max(alpha, Max(best'.value, v)) else alpha;
          var beta' := if isMax then beta else Min(beta, Min(best'.value, v));
          if alpha' > beta' then Step(Ok(best'), child.ticks)
          else Scan(ctx, p, moves, i + 1, best', alpha', beta', depth, isMax, child.ticks)
  }

  /** The root call: polarity from the position's side to move, the full `int` window. */
  function Search(ctx: Context, p: Position, depth: nat, t: nat): Step {
    Node(ctx, p, INT_MIN, INT_MAX, depth, p.maxPlayer, t)
  }

  class AlphaBetaPruning {
    var evaluator: Position -> Int32
    var depth: nat
    var timeLimit: int

    constructor (depth: nat, timeLimit: int, evaluator: Position -> Int32)
      ensures this.depth == depth && this.timeLimit == timeLimit && this.evaluator == evaluator
    {
      this.depth := depth;
      this.timeLimit := timeLimit;
      this.evaluator := evaluator;
    }

    /** `new AlphaBetaPruning()`: default depth, no deadline, the static heuristic. */
    constructor Default(moves: Position -> seq<Action>)
      ensures depth == DEFAULT_DEPTH && timeLimit == DEFAULT_TIME_LIMIT
      ensures evaluator == StaticHeuristic.Evaluator(moves)
    {
      depth := DEFAULT_DEPTH;
      timeLimit := DEFAULT_TIME_LIMIT;
      evaluator := StaticHeuristic.Evaluator(moves);
    }

    method SetTimeLimit(timeLimit: int)
      modifies this
      ensures this.timeLimit == timeLimit && depth == old(depth) && evaluator == old(evaluator)
    {
      this.timeLimit := timeLimit;
    }

    method SetEvaluator(evaluator: Position -> Int32)
      modifies this
      ensures this.evaluator == evaluator && depth == old(depth) && timeLimit == old(timeLimit)
    {
      this.evaluator := evaluator;
    }

    method SetSearchDepth(depth: nat)
      modifies this
      ensures this.depth == depth && timeLimit == old(timeLimit) && evaluator == old(evaluator)
    {
      this.depth := depth;
    }

    /** The context a search started now runs in. */
    function ContextOf(rules: Rules, clock: Clock): Context
      reads this
    {
      Context(rules, evaluator, clock.readings, timeLimit)
    }

    /** `evaluate`: dispatch on the side to move, with the full window. */
    method Evaluate(rules: Rules, position: Position, clock: Clock) returns (r: Outcome)
      modifies clock
      ensures var s := Search(ContextOf(rules, clock), position, depth, old(clock.ticks));
        r == s.outcome && clock.ticks == s.ticks
    {
      var alpha := INT_MIN;
      var beta := INT_MAX;
      if position.maxPlayer {
        r := MaxValue(rules, clock, position, alpha, beta, depth);
      } else {
        r := MinValue(rules, clock, position, alpha, beta, depth);
      }
    }

    /** `minValue`. */
    method MinValue(rules: Rules, clock: Clock, position: Position, alpha: int, beta: int, depth: nat)
      returns (r: Outcome)
      modifies clock
      decreases depth
      ensures var s := Node(ContextOf(rules, clock), position, alpha, beta, depth, false, old(clock.ticks));
        r == s.outcome && clock.ticks == s.ticks
    {
      var timedOut := CheckTime(clock);
      if timedOut {
        return Timeout;
      }
      var moves := rules.moves(position);
      if depth == 0 {
        return Ok(Action(0, 0, |moves| == 0, evaluator(position)));
      }
      if |moves| == 0 {
        return Ok(Action(0, 0, true, evaluator(position)));
      }
      var bestMove := Placeholder(INT_MAX);
      var b := beta;
      var i := 0;
      while i < |moves|
        invariant i <= |moves|
        invariant Scan(ContextOf(rules, clock), position, moves, i, bestMove, alpha, b, depth, false, clock.ticks)
               == Node(ContextOf(rules, clock), position, alpha, beta, depth, false, old(clock.ticks))
      {
        var move := moves[i];
        var made := rules.makeMove(position, move);
        if made.Illegal? {
          return IllegalMove(made.message);
        }
        var childMove := MaxValue(rules, clock, made.next, alpha, b, depth - 1);
        if !childMove.Ok? {
          return childMove;
        }
        if bestMove.value > childMove.action.value {
          bestMove := move.(value := childMove.action.value);
        }
        var value := Min(bestMove.value, childMove.action.value);
        b := Min(b, value);
        if alpha > b {
          break;
        }
        i := i + 1;
      }
      return Ok(bestMove);
    }

    /** `maxValue`. */
    method MaxValue(rules: Rules, clock: Clock, position: Position, alpha: int, beta: int, depth: nat)
      returns (r: Outcome)
      modifies clock
      decreases depth
      ensures var s := Node(ContextOf(rules, clock), position, alpha, beta, depth, true, old(clock.ticks));
        r == s.outcome && clock.ticks == s.ticks
    {
      var timedOut := CheckTime(clock);
      if timedOut {
        return Timeout;
      }
      var moves := rules.moves(position);
      if depth == 0 {
        return Ok(Action(0, 0, false, evaluator(position)));
      }
      if |moves| == 0 {
        return Ok(Action(0, 0, true, evaluator(position)));
      }
      var bestMove := Placeholder(INT_MIN);
      var a := alpha;
      var i := 0;
      while i < |moves|
        invariant i <= |moves|
        invariant Scan(ContextOf(rules, clock), position, moves, i, bestMove, a, beta, depth, true, clock.ticks)
               == Node(ContextOf(rules, clock), position, alpha, beta, depth, true, old(clock.ticks))
      {
        var move := moves[i];
        var made := rules.makeMove(position, move);
        if made.Illegal? {
          return IllegalMove(made.message);
        }
        var childMove := MinValue(rules, clock, made.next, a, beta, depth - 1);
        if !childMove.Ok? {
          return childMove;
        }
        if bestMove.value < childMove.action.value {
          bestMove := move.(value := childMove.action.value);
        }
        var value := Max(bestMove.value, childMove.action.value);
        a := Max(a, value);
        if a > beta {
          break;
        }
        i := i + 1;
      }
      return Ok(bestMove);
    }

    /** `checkTime`: true (the Java code throws `TimeoutException`) when the clock is past the limit. */
    method CheckTime(clock: Clock) returns (timedOut: bool)
      modifies clock
      ensures timedOut == (clock.readings(old(clock.ticks)) > timeLimit)
      ensures clock.ticks == old(clock.ticks) + 1
    {
      var now := clock.CurrentTimeMillis();
      timedOut := now > timeLimit;
    }
  }
}
