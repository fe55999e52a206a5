# Othello agent: alpha-beta search, static heuristic and driver

This project models the decision core of a command-line Othello agent in Dafny
and proves properties of the model. It covers three parts:

- **The search engine** (`AlphaBetaPruning`). It runs a depth-limited, fail-soft
  alpha-beta search. Alternating max and min nodes look at the moves in generator
  order. Every node first checks a wall-clock deadline. At depth 0, or with no
  legal moves, a node scores the position with a pluggable evaluator. A child
  replaces the best move only when it is strictly better. The loop stops as soon
  as `alpha > beta`.
- **The static heuristic** (`StaticHeuristic`). It adds two terms:
  - a positional term read off a fixed 8x8 weight table, positive for `'W'` and
    negative for `'B'`;
  - a mobility term, the maximizing side's move count minus the other side's,
    whichever side is to move.
- **The driver** (`Othello.main`). It checks the arguments and sets a deadline of
  now plus the given number of seconds. It then deepens from depth 7 while the
  depth is below 1000, and keeps the move of the last search that completed. A
  timeout or an illegal move stops the loop. A move at coordinate row 0 or
  column 0 is reported as a pass.

The modules are:

| module | file | contents |
|---|---|---|
| `Game` | `game.dfy` | positions, actions, the Java `int` range and its wrap-around, the position abstraction `Rules` |
| `SystemClock` | `clock.dfy` | the wall clock as a class that returns a given sequence of readings |
| `StaticHeuristic` | `static_heuristic.dfy` | the weight table, `evaluateBoard` as a loop proved against `BoardScore`, mobility, `evaluate` |
| `HeuristicProperties` | `heuristic_properties.dfy` | table symmetries, the score's invariance under them, colour-swap antisymmetry, the score bound |
| `Minimax` | `minimax.dfy` | unpruned depth-bounded minimax with the engine's own leaf and pass rules, the reference |
| `AlphaBeta` | `alpha_beta.dfy` | `Node`/`Scan`, what one call and its loop compute; the class `AlphaBetaPruning` with its recursive methods |
| `AlphaBetaProofs` | `alpha_beta_proofs.dfy` | the window property, alpha-beta equals minimax, clock behaviour, which move is returned |
| `Othello` | `othello.dfy` | argument checks, pass marking, the deepening loop (`Deepen`, `Trace`, `Decision`) and `main` as the method `Run` |
| `OthelloProofs` | `othello_proofs.dfy` | the shape of the deepening trace, and that the reported move carries a minimax value |

The main result is `AlphaBetaProofs.SearchFindsMinimax`. Suppose a root search
completes on a game where every listed move can be applied. Then its value is
the unpruned minimax value at that depth. It rests on `AlphaBetaProofs.NodeBounds`.
The cutoff is the strict `alpha > beta`, so the window behaves as the closed
interval `[alpha, beta]`. A result inside the window is exact, one below it is
an upper bound, and one above it is a lower bound. `OthelloProofs.ReportedMoveIsMinimax`
carries this through the driver: the move `main` reports is the pass-marked
fallback, or it carries the minimax value of the position at some depth from 7
up to 999. `AlphaBetaProofs.SearchPicksFirstBest` says which move a root search
returns: the first move in generator order whose minimax value is best, so the
earlier of two tied moves wins.

How the model handles the outside world:

- **Position.** It is a framed 10x10 board, with the playing area in rows and
  columns 1..8, plus the side-to-move flag.
- **Move generation and `makeMove`.** These are not part of this model. They are
  passed in as the functions of a `Rules` value.
- **The clock.** It is an oracle. The k-th call of `System.currentTimeMillis`
  returns `readings(k)`. Nothing is assumed about the readings.
- **Results.** The functional twins (`Node`, `Scan`, `Deepen`, `Decision`)
  return, with their result, the clock cursor after the call: the starting
  cursor plus the number of readings taken. The methods are proved to leave
  the clock's cursor exactly there.
- **Exceptions.** The search's `TimeoutException` and `IllegalMoveException`
  become the `Timeout` and `IllegalMove` cases of `Outcome`. The driver's
  `IllegalArgumentException` becomes `Rejected`.

Two behaviours of the code are worth stating because a reader might expect
otherwise. The model follows the code in both:

- `evaluateBoard` never negates for the side to move: `'W'` pieces always count
  positive and `'B'` pieces negative, whichever side is maximizing.
- When a search meets an illegal move, the driver prints the message and keeps
  the move of the last completed depth, which may be a real move; it does not
  fall back to the (0, 0) pass. `Othello.Decision` does the same.

## Model

| member | source | states |
|---|---|---|
| Game.Wrap32 | src/StaticHeuristic.java:19 | the Java `int` sum: unchanged when in range, otherwise congruent modulo 2^32 and inside the `int` range |
| SystemClock.Clock.CurrentTimeMillis | src/AlphaBetaPruning.java:157 | each query returns the next reading and advances the cursor by exactly one |
| StaticHeuristic.EvaluateBoard | src/StaticHeuristic.java:27-39 | the nested loop over rows and columns 1..8 returns the positional score `BoardScore` of the playing area |
| StaticHeuristic.Evaluate | src/StaticHeuristic.java:18-20 | `evaluate` is the Java `int` sum of positional score and mobility: the exact sum when it fits, otherwise congruent to it modulo 2^32 (`EvaluateIsSum` shows it always fits on a real board) |
| StaticHeuristic.Mobility | src/StaticHeuristic.java:48-61 | the mobility term is the maximizing side's move count minus the minimizing side's, whichever side is to move |
| HeuristicProperties.WeightSymmetric | src/StaticHeuristic.java:2-10 | the weight table is symmetric under transpose and under both reflections |
| HeuristicProperties.NoPiecesScoresZero | src/StaticHeuristic.java:27-39 | a board with no pieces in the playing area scores 0 |
| HeuristicProperties.SwapColorsNegates | src/StaticHeuristic.java:31-34 | exchanging the colours of all pieces negates the positional score |
| HeuristicProperties.BoardScoreBounded | src/StaticHeuristic.java:2-10 | the positional score lies in [-352, 352], the sum of the absolute weights |
| HeuristicProperties.MirrorColumnsInvariant | src/StaticHeuristic.java:27-39 | reflecting the board left-right leaves the positional score unchanged |
| HeuristicProperties.MirrorRowsInvariant | src/StaticHeuristic.java:27-39 | reflecting the board top-bottom leaves the positional score unchanged |
| HeuristicProperties.TransposeInvariant | src/StaticHeuristic.java:27-39 | transposing the board leaves the positional score unchanged |
| HeuristicProperties.EvaluateIsSum | src/StaticHeuristic.java:18-20 | with at most 64 moves per side, the `int` addition does not wrap: `evaluate` is positional score plus mobility |
| HeuristicProperties.EvaluateIgnoresSideToMove | src/StaticHeuristic.java:48-61 | flipping the side to move changes neither mobility nor `evaluate`; the flip is made on a copy, the original keeps its flag |
| AlphaBeta.AlphaBetaPruning.constructor | src/AlphaBetaPruning.java:19-23 | the three fields take the given depth, time limit and evaluator |
| AlphaBeta.AlphaBetaPruning.Default | src/AlphaBetaPruning.java:11-17 | the default engine: depth 7, time limit `Long.MAX_VALUE`, the static heuristic |
| AlphaBeta.AlphaBetaPruning.SetTimeLimit | src/AlphaBetaPruning.java:25-27 | sets the time limit; depth and evaluator unchanged |
| AlphaBeta.AlphaBetaPruning.SetEvaluator | src/AlphaBetaPruning.java:29-32 | sets the evaluator; depth and time limit unchanged |
| AlphaBeta.AlphaBetaPruning.SetSearchDepth | src/AlphaBetaPruning.java:34-37 | sets the depth; time limit and evaluator unchanged |
| AlphaBeta.AlphaBetaPruning.Evaluate | src/AlphaBetaPruning.java:44-52 | dispatches on the side to move with the full `int` window; its result and clock use are those of `Search` |
| AlphaBeta.AlphaBetaPruning.MinValue | src/AlphaBetaPruning.java:64-105 | the min node's result and clock use are those of `Node` with min polarity; the loop keeps "scan from here = whole node" |
| AlphaBeta.AlphaBetaPruning.MaxValue | src/AlphaBetaPruning.java:117-153 | the max node's result and clock use are those of `Node` with max polarity; the loop keeps "scan from here = whole node" |
| AlphaBeta.AlphaBetaPruning.CheckTime | src/AlphaBetaPruning.java:156-160 | reads the clock once and signals a timeout exactly when the reading is past the time limit |
| AlphaBetaProofs.NodeBounds | src/AlphaBetaPruning.java:84-101 | with an `int` window alpha <= beta, a completed node's value is an `int`: exact inside [alpha, beta], an upper bound below alpha, a lower bound above beta |
| AlphaBetaProofs.ScanMaxBounds | src/AlphaBetaPruning.java:133-150 | the max loop never falls below its best so far, and agrees on the window with the best of that and the remaining children's minimax values |
| AlphaBetaProofs.ScanMinBounds | src/AlphaBetaPruning.java:84-101 | the min loop never rises above its best so far, and agrees on the window with the least of that and the remaining children's minimax values |
| AlphaBetaProofs.MinimaxInRange | src/AlphaBetaPruning.java:70-82 | every minimax value of the reference is a Java `int`, since every leaf is an evaluator score |
| AlphaBetaProofs.MinimaxDefined | src/AlphaBetaPruning.java:86-88 | when every listed move can be applied, the reference minimax value exists at every depth |
| AlphaBetaProofs.SearchFindsMinimax | src/AlphaBetaPruning.java:44-52 | a root search that completes, where every listed move can be applied, returns exactly the unpruned minimax value |
| AlphaBetaProofs.LeafAndPass | src/AlphaBetaPruning.java:70-82 | at depth 0 or with no moves, a node within its deadline answers from the evaluator at (0, 0) after one reading; pass exactly when there are no moves and the node is a min node or has depth left |
| AlphaBetaProofs.PastDeadline | src/AlphaBetaPruning.java:66 | a search started past the deadline times out after one reading, expanding nothing |
| AlphaBetaProofs.NodeClock | src/AlphaBetaPruning.java:156-160 | a node reads the clock at least once; it times out exactly when its last reading is past the limit, and every earlier reading was within it |
| AlphaBetaProofs.ScanPicksFirstBest | src/AlphaBetaPruning.java:133-150 | under the root window the loop never cuts off; it returns its starting best move, or the first scanned move whose minimax value is strictly better than the start and best of all, carrying that child's own value |
| AlphaBetaProofs.SearchPicksFirstBest | src/AlphaBetaPruning.java:44-52 | the move a completed root search returns: no move has a better minimax value; it is the first move in generator order with the best value, carrying its own child's value; the (0, 0) placeholder comes back exactly when every child is worth the starting `int` bound |
| Othello.Utf16Length | src/Othello.java:7-10 | `String.length()` counts UTF-16 code units: between one and two per character, exactly one each when no character lies beyond the Basic Multilingual Plane |
| Othello.CheckArguments | src/Othello.java:4-12 | the arguments are accepted exactly when there are two and the first is 65 UTF-16 units long; otherwise the message for the wrong count, too long or too short |
| Othello.MarkPass | src/Othello.java:32-34 | the reported move is a pass exactly when it was one or has row 0 or column 0; coordinates and value unchanged |
| Othello.Run | src/Othello.java:3-37 | `main`'s report and clock use are those of `Decision`; the depth loop keeps "rest of the loop = whole loop" |
| OthelloProofs.TraceShape | src/Othello.java:21-28 | the k-th search runs at depth 7 + k from where the previous one left the clock; all but the last completed; it runs to the cap unless stopped |
| OthelloProofs.DeepenKeepsLastCompleted | src/Othello.java:19-31 | the loop ends with the move of the last completed search (the fallback if none), the illegal-move message if one stopped it, and the clock of the last search |
| OthelloProofs.CompletedSearchesAreMinimax | src/Othello.java:24 | where every listed move can be applied, each completed search's value is the minimax value at its depth |
| OthelloProofs.DeepenFindsMinimax | src/Othello.java:19-28 | the loop's final best move is the starting one or carries the minimax value at one of the depths it ran |
| OthelloProofs.ReportedMoveIsMinimax | src/Othello.java:14-34 | where every listed move can be applied, the reported move is the pass-marked fallback or carries the minimax value at some depth in [7, 1000) |

## Left out

- The position abstraction (`OthelloPosition`) is not part of this model: move generation, `makeMove`, `clone`, parsing the 65-character string and the board layout. The board is taken to be 10x10 with the playing area in rows and columns 1..8.
- `System.currentTimeMillis` is an oracle sequence of readings. Nothing about real time, or about the readings increasing, is modelled.
- `Integer.parseInt` and the `OthelloPosition` string constructor become the caller's functions `parseSeconds` and `parsePosition`. A `NumberFormatException` is not modelled.
- The `print` of the move and of the illegal-move message is left to the caller. `Run` returns them in its `Report` instead.
- `getDepth` is a plain getter, read directly as the field `depth`.
- AlphaBeta.AlphaBetaPruning.SetSearchDepth: takes a `nat`, so a negative depth, which the Java `int` allows and which would never reach the depth-0 leaf rule, is not modelled.
- Othello.Run: the `long` deadline (start time plus seconds times 1000) is computed without 64-bit wrap-around.
- The search's `bestMove = move; bestMove.setValue(...)` writes the value into the generator's own action object. The model copies the action with the new value instead. This is the same as long as the list returned by `getMoves` is fresh on each call and not used after the loop.
- `OthelloAction`'s value before `setValue` is called is taken to be 0 for the fallback move. Only its coordinates and value are ever read.
- List sizes are unbounded, not limited to `int`.
- The `OthelloEvaluator` and `OthelloAlgorithm` interfaces are represented by a function value `Position -> Int32` and the concrete class. No other implementations are modelled.
- `Minimax.Value` is the reference. It has no counterpart in the source and no contract of its own. The lemmas in `AlphaBetaProofs` state its properties.
