/**
 The program entry: argument checks, iterative deepening from depth 7 against
 the deadline, and the final pass-marking rule.
 */
module Othello {
  import opened Game
  import opened SystemClock
  import opened AlphaBeta
  import StaticHeuristic
  import Minimax
  import AlphaBetaProofs

  /** One side-to-move character and 64 cells. */
  const POSITION_LENGTH: nat := 65
  /** The loop runs while the depth is below this. */
  const DEPTH_CAP: nat := 1000

  const WRONG_COUNT := "There should be two arguments, a position string and a time limit in second"
  const TOO_LONG := "The position string is too long, it should be 65 long."
  const TOO_SHORT := "The position string is too short, it should be 65 long."

  /**
   Java's `String.length()`: the number of UTF-16 code units. A character
   beyond the Basic Multilingual Plane takes two (a surrogate pair).
   */
  function Utf16Length(s: string): (n: nat)
    ensures |s| <= n <= 2 * |s|
    ensures (forall i :: 0 <= i < |s| ==> (s[i] as int) < 0x1_0000) ==> n == |s|
  {
    if |s| == 0 then 0
    else (if (s[0] as int) < 0x1_0000 then 1 else 2) + Utf16Length(s[1..])
  }

  /**
   `main`'s checks: `None` when the arguments may be used, otherwise the
   message of the `IllegalArgumentException` thrown.
   */
  function CheckArguments(args: seq<string>): (r: Option<string>)
    ensures r.None? <==> |args| == 2 && Utf16Length(args[0]) == POSITION_LENGTH
    ensures |args| != 2 ==> r == Some(WRONG_COUNT)
    ensures |args| == 2 && Utf16Length(args[0]) > POSITION_LENGTH ==> r == Some(TOO_LONG)
    ensures |args| == 2 && Utf16Length(args[0]) < POSITION_LENGTH ==> r == Some(TOO_SHORT)
  {
    if |args| != 2 then Some(WRONG_COUNT)
    else if Utf16Length(args[0]) > POSITION_LENGTH then Some(TOO_LONG)
    else if Utf16Length(args[0]) < POSITION_LENGTH then Some(TOO_SHORT)
    else None
  }

  /** The final rule: an action with a zero coordinate is reported as a pass. */
  function MarkPass(a: Action): (r: Action)
    ensures r.pass <==> a.pass || a.row == 0 || a.column == 0
    ensures r.row == a.row && r.column == a.column && r.value == a.value
  {
    if a.row == 0 || a.column == 0 then a.(pass := true) else a
  }

  /** The state the depth loop ends in: the best move, an illegal-move message if one aborted it, the clock cursor. */
  datatype Deepening = Deepening(best: Action, error: Option<string>, ticks: nat)

  /**
   The depth loop from depth d with clock cursor t and best move `best`: a
   completed search overwrites the best move and deepens; a timeout stops the
   loop keeping the best move; an illegal move stops it too, recording the message.
   */
  function Deepen(ctx: Context, p: Position, d: nat, t: nat, best: Action): Deepening
    decreases DEPTH_CAP - d
  {
    if d >= DEPTH_CAP then Deepening(best, None, t)
    else
      var s := Search(ctx, p, d, t);
      match s.outcome
      case Ok(a) => Deepen(ctx, p, d + 1, s.ticks, a)
      case Timeout => Deepening(best, None, s.ticks)
      case IllegalMove(message) => Deepening(best, Some(message), s.ticks)
  }

  /** The searches the loop runs, one per depth from d, up to and including the first that does not complete. */
  function Trace(ctx: Context, p: Position, d: nat, t: nat): seq<Step>
    decreases DEPTH_CAP - d
  {
    if d >= DEPTH_CAP then []
    else
      var s := Search(ctx, p, d, t);
      if s.outcome.Ok? then [s] + Trace(ctx, p, d + 1, s.ticks) else [s]
  }

  /** What the program reports: a rejection, or the chosen move and any illegal-move message. */
  datatype Report = Rejected(reason: string) | Reported(move: Action, error: Option<string>)

  datatype Finish = Finish(report: Report, ticks: nat)

  /** The fallback best move, `new OthelloAction(0, 0)`. */
  function Fallback(): Action {
    Placeholder(0)
  }

  /** The engine's context once `main` has read the start time from `clock(t)`. */
  function MainContext(rules: Rules, seconds: int, clock: nat -> int, t: nat): Context {
    Context(rules, StaticHeuristic.Evaluator(rules.moves), clock, clock(t) + seconds * 1000)
  }

  /** Everything `main` does, with the clock's readings from cursor t on. */
  function Decision(args: seq<string>, parsePosition: string -> Position, parseSeconds: string -> int,
                    rules: Rules, clock: nat -> int, t: nat): Finish
  {
    match CheckArguments(args)
    case Some(message) => Finish(Rejected(message), t)
    case None =>
      var ctx := MainContext(rules, parseSeconds(args[1]), clock, t);
      var d := Deepen(ctx, parsePosition(args[0]), DEFAULT_DEPTH, t + 1, Fallback());
      Finish(Reported(MarkPass(d.best), d.error), d.ticks)
  }

  /**
   `main`. Parsing the position string and the time argument are the
   caller's `parsePosition` and `parseSeconds`; printing is left to the caller.
   */
  method Run(args: seq<string>, parsePosition: string -> Position, parseSeconds: string -> int,
             rules: Rules, clock: Clock) returns (r: Report)
    modifies clock
    ensures var f := Decision(args, parsePosition, parseSeconds, rules, clock.readings, old(clock.ticks));
      r == f.report && clock.ticks == f.ticks
  {
    var bad := CheckArguments(args);
    if bad.Some? {
      return Rejected(bad.value);
    }
    var position := parsePosition(args[0]);
    var now := clock.CurrentTimeMillis();
    var timeLimit := now + parseSeconds(args[1]) * 1000;
    ghost var ctx := MainContext(rules, parseSeconds(args[1]), clock.readings, old(clock.ticks));
    ghost var start := clock.ticks;

    var alphaBetaPruning := new AlphaBetaPruning.Default(rules.moves);
    alphaBetaPruning.SetTimeLimit(timeLimit);
    var bestMove := Fallback();
    var error: Option<string> := None;
    var i := DEFAULT_DEPTH;
    while i < DEPTH_CAP
      invariant DEFAULT_DEPTH <= i <= DEPTH_CAP
      invariant alphaBetaPruning.ContextOf(rules, clock) == ctx
      invariant error.None?
      invariant Deepen(ctx, position, i, clock.ticks, bestMove) == Deepen(ctx, position, DEFAULT_DEPTH, start, Fallback())
    {
      alphaBetaPruning.SetSearchDepth(i);
      var outcome := alphaBetaPruning.Evaluate(rules, position, clock);
      match outcome {
        case Ok(action) =>
          bestMove := action;
        case Timeout =>
          break;
        case IllegalMove(message) =>
          error := Some(message);
          break;
      }
      i := i + 1;
    }
    r := Reported(MarkPass(bestMove), error);
  }
}
