/**
 What the search computes. The central result is `SearchFindsMinimax`: a root
 search that completes returns the unpruned minimax value under the same leaf
 and pass rules. It rests on `NodeBounds`, the window property of one node:
 because the cutoff is the strict `alpha > beta`, the window behaves as the
 closed interval [alpha, beta] -- a result inside it is exact, one below it is
 an upper bound, one above it a lower bound.
 */
module AlphaBetaProofs {
  import opened Game
  import opened AlphaBeta
  import Minimax

  // ----- the reference -----

  /** Minimax values are Java `int`s, since every leaf is an evaluator score. */
  lemma {:induction false} MinimaxInRange(rules: Rules, eval: Position -> Int32, p: Position, depth: nat, isMax: bool)
    requires Minimax.Value(rules, eval, p, depth, isMax).Some?
    ensures INT_MIN <= Minimax.Value(rules, eval, p, depth, isMax).value <= INT_MAX
    decreases depth, 1
  {
    var moves := rules.moves(p);
    if depth > 0 && |moves| > 0 {
      ChildrenInRange(rules, eval, p, moves, 0, depth, isMax);
    }
  }

  lemma {:induction false} ChildrenInRange(rules: Rules, eval: Position -> Int32, p: Position, moves: seq<Action>,
                                           i: nat, depth: nat, isMax: bool)
    requires 0 < depth && i < |moves|
    requires Minimax.ChildrenValue(rules, eval, p, moves, i, depth, isMax).Some?
    ensures INT_MIN <= Minimax.ChildrenValue(rules, eval, p, moves, i, depth, isMax).value <= INT_MAX
    decreases depth, 0, |moves| - i
  {
    if i + 1 < |moves| {
      ChildrenInRange(rules, eval, p, moves, i + 1, depth, isMax);
    }
    match rules.makeMove(p, moves[i])
    case Illegal(_) =>
    case Moved(q) => MinimaxInRange(rules, eval, q, depth - 1, !isMax);
  }

  /** When every listed move can be applied, the minimax value is defined. */
  lemma {:induction false} MinimaxDefined(rules: Rules, eval: Position -> Int32, p: Position, depth: nat, isMax: bool)
    requires Legal(rules)
    ensures Minimax.Value(rules, eval, p, depth, isMax).Some?
    decreases depth, 1
  {
    var moves := rules.moves(p);
    if depth > 0 && |moves| > 0 {
      ChildrenDefined(rules, eval, p, moves, 0, depth, isMax);
    }
  }

  lemma {:induction false} ChildrenDefined(rules: Rules, eval: Position -> Int32, p: Position, moves: seq<Action>,
                                           i: nat, depth: nat, isMax: bool)
    requires Legal(rules) && moves == rules.moves(p)
    requires 0 < depth && i < |moves|
    ensures Minimax.ChildrenValue(rules, eval, p, moves, i, depth, isMax).Some?
    decreases depth, 0, |moves| - i
  {
    if i + 1 < |moves| {
      ChildrenDefined(rules, eval, p, moves, i + 1, depth, isMax);
    }
    assert moves[i] in rules.moves(p);
    MinimaxDefined(rules, eval, rules.makeMove(p, moves[i]).next, depth - 1, !isMax);
  }

  // ----- pruning is sound -----

  /** How a result r returned for window [alpha, beta] relates to the true value v. */
  predicate WindowAgrees(r: int, v: int, alpha: int, beta: int) {
    && (alpha <= r <= beta ==> r == v)
    && (r < alpha ==> v <= r)
    && (beta < r ==> r <= v)
  }

  /**
   A node entered with a window of Java `int`s, alpha <= beta, that completes
   returns an `int` that agrees with the minimax value on that window.
   */
  lemma {:induction false} NodeBounds(ctx: Context, p: Position, alpha: int, beta: int, depth: nat, isMax: bool, t: nat)
    requires INT_MIN <= alpha <= beta <= INT_MAX
    requires Node(ctx, p, alpha, beta, depth, isMax, t).outcome.Ok?
    requires Minimax.Value(ctx.rules, ctx.eval, p, depth, isMax).Some?
    ensures var r := Node(ctx, p, alpha, beta, depth, isMax, t).outcome.action.value;
      INT_MIN <= r <= INT_MAX
      && WindowAgrees(r, Minimax.Value(ctx.rules, ctx.eval, p, depth, isMax).value, alpha, beta)
    decreases depth, 1
  {
    var moves := ctx.rules.moves(p);
    if depth > 0 && |moves| > 0 {
      ChildrenInRange(ctx.rules, ctx.eval, p, moves, 0, depth, isMax);
      if isMax {
        ScanMaxBounds(ctx, p, moves, 0, Placeholder(INT_MIN), alpha, beta, depth, t + 1);
      } else {
        ScanMinBounds(ctx, p, moves, 0, Placeholder(INT_MAX), alpha, beta, depth, t + 1);
      }
    }
  }

  /**
   The max node's loop from index i, with best-so-far value at most the
   current alpha: the result never falls below the best so far, and it agrees
   on [alpha, beta] with the best of the best so far and the remaining
   children's minimax values.
   */
  lemma {:induction false} ScanMaxBounds(ctx: Context, p: Position, moves: seq<Action>, i: nat, best: Action,
                                         alpha: int, beta: int, depth: nat, t: nat)
    requires 0 < depth && i < |moves|
    requires INT_MIN <= best.value <= alpha <= beta <= INT_MAX
    requires Scan(ctx, p, moves, i, best, alpha, beta, depth, true, t).outcome.Ok?
    requires Minimax.ChildrenValue(ctx.rules, ctx.eval, p, moves, i, depth, true).Some?
    ensures var r := Scan(ctx, p, moves, i, best, alpha, beta, depth, true, t).outcome.action.value;
      var w := Minimax.ChildrenValue(ctx.rules, ctx.eval, p, moves, i, depth, true).value;
      && best.value <= r <= INT_MAX
      && (alpha <= r <= beta ==> r == Max(best.value, w))
      && (r < alpha ==> Max(best.value, w) <= r)
      && (beta < r ==> r <= w)
    decreases depth, 0, |moves| - i
  {
    var q := ctx.rules.makeMove(p, moves[i]).next;
    var child := Node(ctx, q, alpha, beta, depth - 1, false, t);
    NodeBounds(ctx, q, alpha, beta, depth - 1, false, t);
    var v := child.outcome.action.value;
    var best' := if v > best.value then moves[i].(value := v) else best;
    var alpha' := Max(alpha, Max(best'.value, v));
    if alpha' <= beta && i + 1 < |moves| {
      ScanMaxBounds(ctx, p, moves, i + 1, best', alpha', beta, depth, child.ticks);
    }
  }

  /** The min node's loop, the mirror image of `ScanMaxBounds`. */
  lemma {:induction false} ScanMinBounds(ctx: Context, p: Position, moves: seq<Action>, i: nat, best: Action,
                                         alpha: int, beta: int, depth: nat, t: nat)
    requires 0 < depth && i < |moves|
    requires INT_MIN <= alpha <= beta <= best.value <= INT_MAX
    requires Scan(ctx, p, moves, i, best, alpha, beta, depth, false, t).outcome.Ok?
    requires Minimax.ChildrenValue(ctx.rules, ctx.eval, p, moves, i, depth, false).Some?
    ensures var r := Scan(ctx, p, moves, i, best, alpha, beta, depth, false, t).outcome.action.value;
      var w := Minimax.ChildrenValue(ctx.rules, ctx.eval, p, moves, i, depth, false).value;
      && INT_MIN <= r <= best.value
      && (alpha <= r <= beta ==> r == Min(best.value, w))
      && (beta < r ==> r <= Min(best.value, w))
      && (r < alpha ==> w <= r)
    decreases depth, 0, |moves| - i
  {
    var q := ctx.rules.makeMove(p, moves[i]).next;
    var child := Node(ctx, q, alpha, beta, depth - 1, true, t);
    NodeBounds(ctx, q, alpha, beta, depth - 1, true, t);
    var v := child.outcome.action.value;
    var best' := if v < best.value then moves[i].(value := v) else best;
    var beta' := Min(beta, Min(best'.value, v));
    if alpha <= beta' && i + 1 < |moves| {
      ScanMinBounds(ctx, p, moves, i + 1, best', alpha, beta', depth, child.ticks);
    }
  }

  /**
   The root call with the full window returns, whenever it completes on a
   game whose listed moves can all be applied, exactly the minimax value.
   */
  lemma SearchFindsMinimax(ctx: Context, p: Position, depth: nat, t: nat)
    requires Legal(ctx.rules)
    requires Search(ctx, p, depth, t).outcome.Ok?
    ensures Minimax.Value(ctx.rules, ctx.eval, p, depth, p.maxPlayer).Some?
    ensures Search(ctx, p, depth, t).outcome.action.value
         == Minimax.Value(ctx.rules, ctx.eval, p, depth, p.maxPlayer).value
  {
    MinimaxDefined(ctx.rules, ctx.eval, p, depth, p.maxPlayer);
    NodeBounds(ctx, p, INT_MIN, INT_MAX, depth, p.maxPlayer, t);
  }

  // ----- leaves, passes and the deadline -----

  /**
   At depth 0, or with no legal moves, a node that passes its deadline check
   answers from the evaluator alone, reading the clock once and recursing
   nowhere; the answer is a pass exactly when there are no moves and either
   depth remains or the node is a min node.
   */
  lemma LeafAndPass(ctx: Context, p: Position, alpha: int, beta: int, depth: nat, isMax: bool, t: nat)
    requires ctx.clock(t) <= ctx.limit
    requires depth == 0 || |ctx.rules.moves(p)| == 0
    ensures Node(ctx, p, alpha, beta, depth, isMax, t)
         == Step(Ok(Action(0, 0, |ctx.rules.moves(p)| == 0 && (depth > 0 || !isMax), ctx.eval(p))), t + 1)
  {
  }

  /** A search started past the deadline signals a timeout after one clock reading, expanding nothing. */
  lemma PastDeadline(ctx: Context, p: Position, depth: nat, t: nat)
    requires ctx.clock(t) > ctx.limit
    ensures Search(ctx, p, depth, t) == Step(Timeout, t + 1)
  {
  }

  /**
   Every node reads the clock at least once; the search ends in a timeout
   exactly when its last reading is past the limit, and every earlier reading
   was within it (the search stops at the first late reading).
   */
  lemma {:induction false} NodeClock(ctx: Context, p: Position, alpha: int, beta: int, depth: nat, isMax: bool, t: nat)
    ensures var s := Node(ctx, p, alpha, beta, depth, isMax, t);
      && t < s.ticks
      && (forall k :: t <= k < s.ticks - 1 ==> ctx.clock(k) <= ctx.limit)
      && (s.outcome.Timeout? <==> ctx.clock(s.ticks - 1) > ctx.limit)
    decreases depth, 1
  {
    var moves := ctx.rules.moves(p);
    if ctx.clock(t) <= ctx.limit && depth > 0 && |moves| > 0 {
      var best := Placeholder(if isMax then INT_MIN else INT_MAX);
      ScanClock(ctx, p, moves, 0, best, alpha, beta, depth, isMax, t + 1);
    }
  }

  lemma {:induction false} ScanClock(ctx: Context, p: Position, moves: seq<Action>, i: nat, best: Action,
                                     alpha: int, beta: int, depth: nat, isMax: bool, t: nat)
    requires 0 < depth && i <= |moves|
    requires 0 < t && ctx.clock(t - 1) <= ctx.limit
    ensures var s := Scan(ctx, p, moves, i, best, alpha, beta, depth, isMax, t);
      && t <= s.ticks
      && (forall k :: t - 1 <= k < s.ticks - 1 ==> ctx.clock(k) <= ctx.limit)
      && (s.outcome.Timeout? <==> ctx.clock(s.ticks - 1) > ctx.limit)
    decreases depth, 0, |moves| - i
  {
    if i < |moves| && ctx.rules.makeMove(p, moves[i]).Moved? {
      var q := ctx.rules.makeMove(p, moves[i]).next;
      var child := Node(ctx, q, alpha, beta, depth - 1, !isMax, t);
      NodeClock(ctx, q, alpha, beta, depth - 1, !isMax, t);
      if child.outcome.Ok? {
        var v := child.outcome.action.value;
        var best' := if Improves(isMax, v, best.value) then moves[i].(value := v) else best;
        var alpha' := if isMax then Max(alpha, Max(best'.value, v)) else alpha;
        var beta' := if isMax then beta else Min(beta, Min(best'.value, v));
        if alpha' <= beta' {
          ScanClock(ctx, p, moves, i + 1, best', alpha', beta', depth, isMax, child.ticks);
        }
      }
    }
  }

  // ----- which move is returned -----

  /** The reference value of the position reached by playing m from p, searched to `depth` with the other side to move. */
  function ChildValue(rules: Rules, eval: Position -> Int32, p: Position, m: Action, depth: nat, isMax: bool): Option<int> {
    match rules.makeMove(p, m)
    case Illegal(_) => None
    case Moved(q) => Minimax.Value(rules, eval, q, depth, !isMax)
  }

  /** The reference value c exists and is no better than v for the side `isMax` says. */
  predicate NoBetter(isMax: bool, c: Option<int>, v: int) {
    c.Some? && !Improves(isMax, c.value, v)
  }

  /** The reference value c exists and is strictly worse than v for the side `isMax` says. */
  predicate StrictlyWorse(isMax: bool, c: Option<int>, v: int) {
    c.Some? && Improves(isMax, v, c.value)
  }

  /**
   The window of the root loop: the side's own bound is the best value so
   far, and the other bound stays at the `int` extreme.
   */
  predicate RootWindow(isMax: bool, best: int, alpha: int, beta: int) {
    if isMax then alpha == best && beta == INT_MAX else alpha == INT_MIN && beta == best
  }

  /**
   The root loop from index i. Under the root window no cutoff happens and
   every child that replaces the best move is searched exactly. The loop
   returns the best move it started with, or the first move in generator
   order whose reference value is best and strictly better than the start.
   That move carries its own child's value, and no scanned child is better.
   */
  lemma {:induction false} ScanPicksFirstBest(ctx: Context, p: Position, moves: seq<Action>, i: nat, best: Action,
                                              alpha: int, beta: int, depth: nat, isMax: bool, t: nat)
    requires Legal(ctx.rules) && moves == ctx.rules.moves(p)
    requires 0 < depth && i <= |moves|
    requires INT_MIN <= best.value <= INT_MAX && RootWindow(isMax, best.value, alpha, beta)
    requires Scan(ctx, p, moves, i, best, alpha, beta, depth, isMax, t).outcome.Ok?
    ensures var b := Scan(ctx, p, moves, i, best, alpha, beta, depth, isMax, t).outcome.action;
      && (forall k :: i <= k < |moves| ==> NoBetter(isMax, ChildValue(ctx.rules, ctx.eval, p, moves[k], depth - 1, isMax), b.value))
      && (b == best
          || exists j :: i <= j < |moves| && b == moves[j].(value := b.value)
               && Improves(isMax, b.value, best.value)
               && ChildValue(ctx.rules, ctx.eval, p, moves[j], depth - 1, isMax) == Some(b.value)
               && forall k :: i <= k < j ==> StrictlyWorse(isMax, ChildValue(ctx.rules, ctx.eval, p, moves[k], depth - 1, isMax), b.value))
    decreases |moves| - i
  {
    if i < |moves| {
      assert moves[i] in ctx.rules.moves(p);
      var q := ctx.rules.makeMove(p, moves[i]).next;
      MinimaxDefined(ctx.rules, ctx.eval, q, depth - 1, !isMax);
      NodeBounds(ctx, q, alpha, beta, depth - 1, !isMax, t);
      var c := ChildValue(ctx.rules, ctx.eval, p, moves[i], depth - 1, isMax);
      var child := Node(ctx, q, alpha, beta, depth - 1, !isMax, t);
      var v := child.outcome.action.value;
      var best' := if Improves(isMax, v, best.value) then moves[i].(value := v) else best;
      var alpha' := if isMax then Max(alpha, Max(best'.value, v)) else alpha;
      var beta' := if isMax then beta else Min(beta, Min(best'.value, v));
      assert c == Minimax.Value(ctx.rules, ctx.eval, q, depth - 1, !isMax);
      assert WindowAgrees(v, c.value, alpha, beta);
      assert Improves(isMax, v, best.value) ==> c == Some(v);
      assert NoBetter(isMax, c, best'.value);
      assert RootWindow(isMax, best'.value, alpha', beta') && alpha' <= beta';
      ScanPicksFirstBest(ctx, p, moves, i + 1, best', alpha', beta', depth, isMax, child.ticks);
    }
  }

  /**
   Which move a completed root search returns, on a game whose listed moves
   can all be applied. At depth 0 or with no moves, it is the (0, 0) action
   with the evaluator's score. Otherwise no move has a better reference value.
   The result is the first move in generator order with the best value, so
   the earlier of two tied moves wins, and it carries its own child's value.
   The (0, 0) placeholder survives exactly when every child's value is the
   `int` bound the best value starts from.
   */
  lemma SearchPicksFirstBest(ctx: Context, p: Position, depth: nat, t: nat)
    requires Legal(ctx.rules)
    requires Search(ctx, p, depth, t).outcome.Ok?
    ensures var moves := ctx.rules.moves(p);
      var m := Search(ctx, p, depth, t).outcome.action;
      var isMax := p.maxPlayer;
      var bound := if isMax then INT_MIN else INT_MAX;
      if depth == 0 || |moves| == 0 then m.row == 0 && m.column == 0 && m.value == ctx.eval(p)
      else
        && (forall k :: 0 <= k < |moves| ==> NoBetter(isMax, ChildValue(ctx.rules, ctx.eval, p, moves[k], depth - 1, isMax), m.value))
        && (m == Placeholder(bound) <==>
              forall k :: 0 <= k < |moves| ==> ChildValue(ctx.rules, ctx.eval, p, moves[k], depth - 1, isMax) == Some(bound))
        && (m == Placeholder(bound)
            || exists j :: 0 <= j < |moves| && m == moves[j].(value := m.value)
                 && ChildValue(ctx.rules, ctx.eval, p, moves[j], depth - 1, isMax) == Some(m.value)
                 && forall k :: 0 <= k < j ==> StrictlyWorse(isMax, ChildValue(ctx.rules, ctx.eval, p, moves[k], depth - 1, isMax), m.value))
  {
    var moves := ctx.rules.moves(p);
    var isMax := p.maxPlayer;
    var bound := if isMax then INT_MIN else INT_MAX;
    if depth > 0 && |moves| > 0 {
      var m := Search(ctx, p, depth, t).outcome.action;
      ScanPicksFirstBest(ctx, p, moves, 0, Placeholder(bound), INT_MIN, INT_MAX, depth, isMax, t + 1);
      forall k | 0 <= k < |moves|
        ensures m == Placeholder(bound) ==> ChildValue(ctx.rules, ctx.eval, p, moves[k], depth - 1, isMax) == Some(bound)
      {
        assert moves[k] in ctx.rules.moves(p);
        MinimaxInRange(ctx.rules, ctx.eval, ctx.rules.makeMove(p, moves[k]).next, depth - 1, !isMax);
      }
    }
  }
}
