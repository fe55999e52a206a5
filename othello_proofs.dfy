/**
 What iterative deepening reports: the searches run in increasing depth from
 7, each from where the clock was left; the move reported is that of the last
 search to complete, or the fallback; and on a game whose listed moves can be
 applied, its value is the minimax value at that depth.
 */
module OthelloProofs {
  import opened Game
  import opened AlphaBeta
  import opened Othello
  import Minimax
  import AlphaBetaProofs
  import StaticHeuristic

  /** The number of searches in a trace that completed. */
  function Completed(tr: seq<Step>): (n: nat)
    ensures n <= |tr|
  {
    if |tr| > 0 && !tr[|tr| - 1].outcome.Ok? then |tr| - 1 else |tr|
  }

  /**
   The k-th search runs at depth d + k, starting with the clock where the
   previous one left it; every search but the last completed; the loop runs
   at least once below the cap, and runs to the cap when nothing stops it.
   */
  lemma {:induction false} TraceShape(ctx: Context, p: Position, d: nat, t: nat)
    requires d <= DEPTH_CAP
    ensures var tr := Trace(ctx, p, d, t);
      && |tr| <= DEPTH_CAP - d
      && (d < DEPTH_CAP ==> |tr| > 0)
      && (forall k :: 0 <= k < |tr| ==> tr[k] == Search(ctx, p, d + k, if k == 0 then t else tr[k - 1].ticks))
      && (forall k :: 0 <= k < |tr| - 1 ==> tr[k].outcome.Ok?)
      && (|tr| > 0 && tr[|tr| - 1].outcome.Ok? ==> |tr| == DEPTH_CAP - d)
    decreases DEPTH_CAP - d
  {
    if d < DEPTH_CAP {
      var s := Search(ctx, p, d, t);
      if s.outcome.Ok? {
        TraceShape(ctx, p, d + 1, s.ticks);
        var rest := Trace(ctx, p, d + 1, s.ticks);
        var tr := Trace(ctx, p, d, t);
        assert tr == [s] + rest;
        forall k | 0 < k < |tr|
          ensures tr[k] == Search(ctx, p, d + k, tr[k - 1].ticks)
        {
          assert tr[k] == rest[k - 1];
          assert k - 1 == 0 ==> tr[k - 1] == s;
          assert k - 1 > 0 ==> tr[k - 1] == rest[k - 2];
        }
      }
    }
  }

  /**
   The loop ends with the action of the last completed search (the starting
   best move if none completed), the message of an illegal move if that is
   what stopped it, and the clock where the last search left it.
   */
  lemma {:induction false} DeepenKeepsLastCompleted(ctx: Context, p: Position, d: nat, t: nat, best: Action)
    requires d <= DEPTH_CAP
    ensures var tr := Trace(ctx, p, d, t);
      var n := Completed(tr);
      var r := Deepen(ctx, p, d, t, best);
      && (n == 0 ==> r.best == best)
      && (n > 0 ==> tr[n - 1].outcome.Ok? && r.best == tr[n - 1].outcome.action)
      && r.error == (if n < |tr| && tr[n].outcome.IllegalMove? then Some(tr[n].outcome.message) else None)
      && r.ticks == (if |tr| == 0 then t else tr[|tr| - 1].ticks)
    decreases DEPTH_CAP - d
  {
    if d < DEPTH_CAP {
      var s := Search(ctx, p, d, t);
      if s.outcome.Ok? {
        DeepenKeepsLastCompleted(ctx, p, d + 1, s.ticks, s.outcome.action);
        var rest := Trace(ctx, p, d + 1, s.ticks);
        var tr := Trace(ctx, p, d, t);
        assert tr == [s] + rest;
        if |rest| > 0 {
          assert tr[|tr| - 1] == rest[|rest| - 1];
          assert Completed(tr) == Completed(rest) + 1;
          assert Completed(rest) > 0 ==> tr[Completed(rest)] == rest[Completed(rest) - 1];
          assert Completed(rest) < |rest| ==> tr[Completed(rest) + 1] == rest[Completed(rest)];
        }
      }
    }
  }

  /** On a game whose listed moves can be applied, each completed search's value is the minimax value at its depth. */
  lemma CompletedSearchesAreMinimax(ctx: Context, p: Position, d: nat, t: nat)
    requires d <= DEPTH_CAP
    requires Legal(ctx.rules)
    ensures var tr := Trace(ctx, p, d, t);
      forall k :: 0 <= k < |tr| && tr[k].outcome.Ok? ==>
        Minimax.Value(ctx.rules, ctx.eval, p, d + k, p.maxPlayer) == Some(tr[k].outcome.action.value)
  {
    var tr := Trace(ctx, p, d, t);
    TraceShape(ctx, p, d, t);
    forall k | 0 <= k < |tr| && tr[k].outcome.Ok?
      ensures Minimax.Value(ctx.rules, ctx.eval, p, d + k, p.maxPlayer) == Some(tr[k].outcome.action.value)
    {
      AlphaBetaProofs.SearchFindsMinimax(ctx, p, d + k, if k == 0 then t else tr[k - 1].ticks);
    }
  }

  /** There is a depth in [d, DEPTH_CAP) at which the minimax value of p is v. */
  ghost predicate MinimaxAtSomeDepth(rules: Rules, eval: Position -> Int32, p: Position, d: nat, v: int) {
    exists e :: d <= e < DEPTH_CAP && Minimax.Value(rules, eval, p, e, p.maxPlayer) == Some(v)
  }

  lemma MinimaxAtDepth(ctx: Context, p: Position, d: nat, e: nat, v: int)
    requires d <= e < DEPTH_CAP
    requires Minimax.Value(ctx.rules, ctx.eval, p, e, p.maxPlayer) == Some(v)
    ensures MinimaxAtSomeDepth(ctx.rules, ctx.eval, p, d, v)
  {
  }

  /**
   The best move the depth loop ends with: the one it started with, or a move
   carrying the minimax value at one of the depths it ran.
   */
  lemma DeepenFindsMinimax(ctx: Context, p: Position, d: nat, t: nat, best: Action)
    requires d <= DEPTH_CAP
    requires Legal(ctx.rules)
    ensures var b := Deepen(ctx, p, d, t, best).best;
      b == best || MinimaxAtSomeDepth(ctx.rules, ctx.eval, p, d, b.value)
  {
    var tr := Trace(ctx, p, d, t);
    DeepenKeepsLastCompleted(ctx, p, d, t, best);
    var n := Completed(tr);
    if n > 0 {
      TraceShape(ctx, p, d, t);
      CompletedSearchesAreMinimax(ctx, p, d, t);
      var b := Deepen(ctx, p, d, t, best).best;
      assert b == tr[n - 1].outcome.action;
      MinimaxAtDepth(ctx, p, d, d + n - 1, b.value);
    }
  }

  /**
   End to end: on a game whose listed moves can be applied, the move `main`
   reports is the pass-marked fallback, or carries the minimax value of the
   position at some depth from 7 up.
   */
  lemma ReportedMoveIsMinimax(args: seq<string>, parsePosition: string -> Position, parseSeconds: string -> int,
                              rules: Rules, clock: nat -> int, t: nat)
    requires Legal(rules)
    requires Decision(args, parsePosition, parseSeconds, rules, clock, t).report.Reported?
    ensures var m := Decision(args, parsePosition, parseSeconds, rules, clock, t).report.move;
      var p := parsePosition(args[0]);
      m == MarkPass(Fallback())
      || MinimaxAtSomeDepth(rules, StaticHeuristic.Evaluator(rules.moves), p, DEFAULT_DEPTH, m.value)
  {
    var ctx := MainContext(rules, parseSeconds(args[1]), clock, t);
    DeepenFindsMinimax(ctx, parsePosition(args[0]), DEFAULT_DEPTH, t + 1, Fallback());
  }
}
