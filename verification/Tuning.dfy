/**
  The player's configuration constants (the `private final` fields of the
  Java class). The Java weights are doubles; here they are exact reals.
*/
module Tuning {

  /** Depth of the game tree explored below the current state */
  const MaxDepth: int := 15

  /** Deducted from a root move that reverses the previous move */
  const OppositeMovePenalty: real := 10.0

  /** Weight of the number of dots left */
  const GobbleScalingFactor: real := 5.0

  /** Weight of the distance to the nearest dot */
  const DotDistScalingFactor: real := 0.2

  /** Weight of the distance to the nearest ghost */
  const GhostDistScalingFactor: real := 0.1

  const LosingScore: real := -5000.0
  const WinningScore: real := 5000.0
}
