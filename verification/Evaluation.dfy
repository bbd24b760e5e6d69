/**
  The static evaluator: a score for a state at a leaf of the search, higher
  being better for Pac-Man.
*/
module Evaluation {
  import opened GameInterface
  import opened Tuning

  /** Manhattan distance from Pac-Man to the nearest remaining dot */
  function DotDistance<S>(e: Engine<S>, s: S): int {
    e.manhattanDistanceToClosest(e.pacManLocation(s), e.dotLocations(s))
  }

  /** Manhattan distance from Pac-Man to the nearest ghost */
  function GhostDistance<S>(e: Engine<S>, s: S): int {
    e.manhattanDistanceToClosest(e.pacManLocation(s), e.ghostLocations(s))
  }

  /** Number of groups of dots: a placeholder that counts every layout as one group */
  function NumGroups(dots: seq<Location>): real
  {
    1.0
  }

  /** The score of a leaf state; EvaluateCases states what it is */
  function Evaluate<S>(e: Engine<S>, s: S): (score: real)
  {
    if e.isLosing(s) then LosingScore
    else if e.isWinning(s) then WinningScore
    else
      var dots := e.dotLocations(s);
      var p := e.pacManLocation(s);
      var score := 0.0 - (|dots| as real) * GobbleScalingFactor;
      var score := score - (e.manhattanDistanceToClosest(p, dots) as real) * DotDistScalingFactor;
      var score := score + (e.manhattanDistanceToClosest(p, e.ghostLocations(s)) as real) * GhostDistScalingFactor;
      score - NumGroups(dots)
  }

  /**
    A losing state is checked first and scores -5000; a winning state that is
    not losing scores 5000; any other state scores minus 5 per dot left,
    minus 0.2 per unit of distance to the nearest dot, plus 0.1 per unit of
    distance to the nearest ghost, minus one group of dots.
  */
  lemma EvaluateCases<S>(e: Engine<S>, s: S)
    ensures e.isLosing(s) ==> Evaluate(e, s) == -5000.0
    ensures !e.isLosing(s) && e.isWinning(s) ==> Evaluate(e, s) == 5000.0
    ensures !e.isLosing(s) && !e.isWinning(s) ==>
      Evaluate(e, s) == -5.0 * (|e.dotLocations(s)| as real) - 0.2 * (DotDistance(e, s) as real)
                        + 0.1 * (GhostDistance(e, s) as real) - 1.0
  {
  }

  /** A state that is neither losing nor winning */
  predicate Ongoing<S>(e: Engine<S>, s: S) {
    !e.isLosing(s) && !e.isWinning(s)
  }

  /**
    The win and loss scores dominate the features: a losing state scores
    below, and a winning one above, every ongoing state whose distances are
    non-negative and whose features stay within the range the constants
    allow (fewer than about a thousand dots, a ghost closer than 50010).
  */
  lemma TerminalDominance<S>(e: Engine<S>, lost: S, mid: S, won: S)
    requires e.isLosing(lost)
    requires Ongoing(e, mid)
    requires DotDistance(e, mid) >= 0 && GhostDistance(e, mid) >= 0
    requires 5.0 * (|e.dotLocations(mid)| as real) + 0.2 * (DotDistance(e, mid) as real) < 4999.0
    requires 0.1 * (GhostDistance(e, mid) as real) < 5001.0
    requires e.isWinning(won) && !e.isLosing(won)
    ensures Evaluate(e, lost) < Evaluate(e, mid) < Evaluate(e, won)
  {
  }

  /**
    Among ongoing states, fewer dots, a nearer dot and a farther ghost never
    lower the score, and each dot fewer (all else no worse) raises it by at
    least the gobble weight.
  */
  lemma EvaluateMonotone<S>(e: Engine<S>, s: S, t: S)
    requires Ongoing(e, s) && Ongoing(e, t)
    requires |e.dotLocations(t)| <= |e.dotLocations(s)|
    requires DotDistance(e, t) <= DotDistance(e, s)
    requires GhostDistance(e, t) >= GhostDistance(e, s)
    ensures Evaluate(e, t) >= Evaluate(e, s)
            + 5.0 * ((|e.dotLocations(s)| - |e.dotLocations(t)|) as real)
  {
  }
}
