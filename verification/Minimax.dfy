/**
  The reference semantics of the search: plain depth-bounded minimax over the
  tree the player searches. Max plies are Pac-Man's and never take the move
  opposite to Pac-Man's previous move; min plies are the ghosts' combined
  moves and pass Pac-Man's previous move through unchanged.
*/
module Minimax {
  import opened Scores
  import opened GameInterface
  import opened Evaluation

  /** The search stops at a final state and when the remaining depth is below 1 */
  predicate IsLeaf<S>(e: Engine<S>, s: S, depth: int) {
    e.isFinal(s) || depth < 1
  }

  /** The moves a max ply explores: the legal moves less the opposite of the previous move */
  function ExploredMoves<S>(e: Engine<S>, s: S, prevMove: Move): seq<Move> {
    RemoveFirst(e.legalPacManMoves(s), e.opposite(prevMove))
  }

  /** Minimax value of a state where Pac-Man is to move */
  function MinimaxMax<S>(e: Engine<S>, s: S, prevMove: Move, depth: int): Score
    decreases depth, 1, 0
  {
    if IsLeaf(e, s, depth) then Fin(Evaluate(e, s))
    else MaxOverMoves(e, s, ExploredMoves(e, s, prevMove), depth - 1)
  }

  /** The largest minimax value of the successors by `moves`, -infinity if there are none */
  function MaxOverMoves<S>(e: Engine<S>, s: S, moves: seq<Move>, depth: int): Score
    requires depth >= 0
    decreases depth + 1, 0, |moves|
  {
    if moves == [] then NegInf
    else Max(MinimaxMin(e, e.nextStateByPacMan(s, moves[0]), moves[0], depth),
             MaxOverMoves(e, s, moves[1..], depth))
  }

  /** Minimax value of a state where the ghosts are to move */
  function MinimaxMin<S>(e: Engine<S>, s: S, prevMove: Move, depth: int): Score
    decreases depth, 1, 0
  {
    if IsLeaf(e, s, depth) then Fin(Evaluate(e, s))
    else MinOverJointMoves(e, s, e.legalCombinedGhostMoves(s), prevMove, depth - 1)
  }

  /** The smallest minimax value of the successors by `joints`, +infinity if there are none */
  function MinOverJointMoves<S>(e: Engine<S>, s: S, joints: seq<JointMove>, prevMove: Move, depth: int): Score
    requires depth >= 0
    decreases depth + 1, 0, |joints|
  {
    if joints == [] then PosInf
    else Min(MinimaxMax(e, e.nextStateByGhosts(s, joints[0]), prevMove, depth),
             MinOverJointMoves(e, s, joints[1..], prevMove, depth))
  }
}
