# Alpha-beta Pac-Man player

A Dafny model of `AlexPacManPlayer`, a Pac-Man move chooser. On every game
tick it searches the game tree to a fixed depth with minimax and alpha-beta
pruning. Pac-Man's moves form the max plies. All ghosts' moves together form
one min ply. Inside the tree a max ply never explores the move opposite to
Pac-Man's previous move. At the root a move that reverses the last chosen move
is penalised instead. Leaves are scored by a static evaluator: -5000 for a
losing state, 5000 for a winning one, and otherwise a weighted sum of the dots
left, the distance to the nearest dot and the distance to the nearest ghost.
The player remembers the move it returned last.

Layout, one module per file:

- `Scores.dfy`: scores as exact reals extended with -infinity and +infinity
  (the Java code uses doubles and their infinities), with their order, `Max`,
  `Min` and the subtraction of a penalty.
- `GameInterface.dfy`: the engine as an `Engine<S>` record of functions:
  final, losing and winning tests, legal Pac-Man moves, legal combined ghost
  moves, the two successor functions, the state accessors, the
  nearest-item distance and `Move.getOpposite`. It also holds
  `List.remove(Object)` as `RemoveFirst`.
- `Tuning.dfy`: the constants of the player.
- `Evaluation.dfy`: `evaluate` and `num_groups`.
- `Minimax.dfy`: the reference semantics, plain minimax over the searched tree.
- `AlphaBeta.dfy`: the pruned search as functions that follow the loops step by
  step, and the fail-soft alpha-beta theorem relating them to minimax.
- `Selection.dfy`: the root decision as a reference definition over minimax
  values.
- `Player.dfy`: the class `AlexPacManPlayer` with its field `lastMove` and the
  methods `ChooseMove`, `MaxValue` and `MinValue`. Each method is written as a
  loop with `break`, like the Java. Each is proved equal to its specification
  function.

The main results:

- `AlphaBetaMaxSound` and `AlphaBetaMinSound` (Knuth and Moore's fail-soft
  theorem): for alpha < beta, the pruned value equals the minimax value when
  that value lies strictly inside (alpha, beta). When the minimax value is at
  most alpha, the pruned value lies between it and alpha. When the minimax
  value is at least beta, the pruned value lies between beta and it.
- `ChooseMove` returns exactly the move that an unpruned search would choose:
  the earliest legal move whose penalised minimax score is strictly greater
  than all earlier scores and at least all later ones. This holds even though
  the root passes its running alpha into every search.

Behaviour of the code worth knowing:

- The root does not search each move with a fresh window. It passes the best
  penalised score so far as alpha (`AlexPacManPlayer.java:63-78`).
  `RootStep` and `ChooseMove` show that this does not change the choice.
- The root breaks out of its loop when a score reaches beta. Beta is
  +infinity, so this happens only on a score of +infinity.
- The move opposite to the previous move is removed with
  `List.remove(Object)`. That removes only its first occurrence.
  `RemoveFirstExcludes` shows that it is a filter when the legal moves hold no
  duplicates.
- The move is `Move.NONE` whenever every legal move scores -infinity, not
  only when there is no legal move. This follows from `best_score` starting at
  -infinity together with the strict `>` test. A max ply whose only legal move
  is the excluded reversal scores -infinity.
- The win and loss scores dominate the heuristic only while the features stay
  within the bounds stated in `TerminalDominance`, not for every feature value.

## Model

| member | source | states |
|---|---|---|
| `Evaluation.EvaluateCases` | AlexPacManPlayer.java:188-224 | a losing state scores -5000, and the losing test comes first; a winning state that is not losing scores 5000; any other state scores -5 per dot, -0.2 per unit of distance to the nearest dot, +0.1 per unit of distance to the nearest ghost, and -1 for the group penalty, since `num_groups` counts every dot layout as one group |
| `Evaluation.TerminalDominance` | AlexPacManPlayer.java:190-199 | with non-negative distances and bounded features, a losing state scores strictly below an ongoing one, and an ongoing one strictly below a winning one |
| `Evaluation.EvaluateMonotone` | AlexPacManPlayer.java:201-216 | among ongoing states, fewer dots, a nearer dot and a farther ghost never lower the score; each dot fewer raises it by at least 5 |
| `GameInterface.RemoveFirstLength` | AlexPacManPlayer.java:116 | removing a move that is in the list shortens the list by one; removing a move that is absent leaves the list unchanged |
| `GameInterface.RemoveFirstRemovesOne` | AlexPacManPlayer.java:116 | the removal takes away one copy of the move and keeps every other element (as multisets) |
| `GameInterface.RemoveFirstDeletesFirstOccurrence` | AlexPacManPlayer.java:116 | the removal deletes exactly the first occurrence and keeps the order of the rest |
| `GameInterface.RemoveFirstExcludes` | AlexPacManPlayer.java:114-116 | on a list without duplicates, the opposite move is no longer in the list and every other move still is: a max ply never explores the reversal |
| `AlphaBeta.AlphaBetaMaxSound` | AlexPacManPlayer.java:101-130 | for alpha < beta, max_value's result agrees with the minimax value of the same filtered tree: equal when that value is inside (alpha, beta); between it and alpha when it is at most alpha; between beta and it when it is at least beta |
| `AlphaBeta.AlphaBetaMinSound` | AlexPacManPlayer.java:145-179 | the same agreement for min_value, with the ghosts' combined moves as one ply |
| `AlphaBeta.MaxLoopSound` | AlexPacManPlayer.java:112-129 | the max loop keeps its invariant: the running maximum bounds the minimax value of the explored children from above and equals it once above the entry alpha. Its result, or its beta cutoff, therefore agrees with minimax over all the moves |
| `AlphaBeta.MinLoopSound` | AlexPacManPlayer.java:165-178 | the dual invariant of the min loop, and agreement of its result or alpha cutoff with minimax over all the joint moves |
| `AlphaBeta.MaxStep` | AlexPacManPlayer.java:119-127 | for scores alone, one max child either keeps the loop invariant with alpha = max(alpha, v), or causes a cutoff whose value agrees with the ply's minimax value, whatever the unexplored children are worth |
| `AlphaBeta.MinStep` | AlexPacManPlayer.java:168-176 | the dual of MaxStep for one min child |
| `AlphaBeta.FullWindowIsMinimax` | AlexPacManPlayer.java:101-179 | with the window (-infinity, +infinity), max_value and min_value return exactly the minimax value |
| `Selection.BestChoice` | AlexPacManPlayer.java:51-81 | the root loop over reference scores picks either no move or a position in the legal-move list |
| `Selection.BestChoiceIsEarliestMaximum` | AlexPacManPlayer.java:51-81 | the choice is the earliest move whose penalised score is strictly greater than every earlier score and at least every later one. No move is chosen exactly when every score is -infinity, in particular when there is no legal move |
| `Selection.ReversalLosesTie` | AlexPacManPlayer.java:68-69 | of two moves with the same finite search value, one reversing the last move and one not, the reversing one is never chosen |
| `Selection.TopScoreIsFinal` | AlexPacManPlayer.java:77-80 | once the best score is +infinity no later move changes the choice, so the root's break loses nothing |
| `Player.AlexPacManPlayer.constructor` | AlexPacManPlayer.java:34 | a new player's last move is Move.NONE |
| `Player.AlexPacManPlayer.ChooseMove` | AlexPacManPlayer.java:49-89 | the returned move is the reference choice: the earliest legal move with the strictly greatest penalised minimax score, with MaxDepth - 1 plies below the successor and a penalty of 10 for reversing the old last move, or Move.NONE. The loop keeps root alpha equal to the best penalised score so far, and lastMove becomes the returned move |
| `Player.AlexPacManPlayer.MaxValue` | AlexPacManPlayer.java:103-130 | the result is AlphaBetaMax: Evaluate at a final state or depth < 1; otherwise the running maximum over the legal moves less the first occurrence of the opposite of prevMove, each searched at depth - 1 with itself as the next previous move, stopping after the first child that brings the maximum to beta; -infinity when no move is explored |
| `Player.AlexPacManPlayer.MinValue` | AlexPacManPlayer.java:147-179 | the result is AlphaBetaMin: Evaluate at a final state or depth < 1; otherwise the running minimum over the combined ghost moves, each searched at depth - 1 with prevMove passed through unchanged, stopping after the first child that brings the minimum down to alpha; +infinity when there are none |
| `Player.RootStep` | AlexPacManPlayer.java:60-80 | with root window (alpha, +infinity), a move's pruned and penalised score beats alpha exactly when its reference score does, and then the two are equal. Both scores reach +infinity together |

## Left out

- The game engine (`Game`, `State`, `Location`, `Move`) is not part of this model. Its queries are arbitrary functions in `Engine`, so nothing depends on their real bodies. In particular `manhattanDistanceToClosest` and `getOpposite` are not reimplemented.
- The iteration order of `Game.getLegalCombinedGhostMoves` (a `Set`) is whatever order the engine's sequence gives.
- The random-ghost branch of `min_value` (AlexPacManPlayer.java:157-164) is dead code, because `OPTIMAL_GHOSTS` is the constant `true`. It also draws from a clock-seeded `java.util.Random`. Neither the branch nor the flag is modelled.
- The diagnostic `System.out.format` line and the commented-out sleep in `chooseMove` are console output, not part of the decision.
- Scores and weights are exact reals: IEEE-754 rounding of 0.2 and 0.1 is not modelled, and no NaN can arise in the search.
- Depth is an integer. The Java `double` depth only ever holds whole numbers: 15, decremented by 1 and compared with `< 1`.
- The call-time lookups `game.getCurrentState()` and `game.getLegalPacManMoves()` are the two fields of `GameView`.
- Evaluation.TerminalDominance: holds only for distances that are non-negative and features within the stated bounds. Beyond them the fixed win and loss scores do not dominate the weighted sum.
