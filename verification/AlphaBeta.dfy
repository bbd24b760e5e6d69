/**
  The pruned search as the player runs it, as functions, and its agreement
  with minimax (Knuth and Moore's fail-soft alpha-beta theorem).
*/
module AlphaBeta {
  import opened Scores
  import opened GameInterface
  import opened Evaluation
  import opened Minimax

  /** What max_value returns */
  function AlphaBetaMax<S>(e: Engine<S>, s: S, prevMove: Move, alpha: Score, beta: Score, depth: int): Score
    decreases depth, 1, 0
  {
    if IsLeaf(e, s, depth) then Fin(Evaluate(e, s))
    else MaxLoop(e, s, ExploredMoves(e, s, prevMove), alpha, beta, NegInf, depth - 1)
  }

  /**
    The rest of max_value's loop over `moves`, entered with running maximum v:
    each child is searched with the current alpha, alpha rises to v while v is
    below beta, and the loop stops at the first child that brings v to beta.
  */
  function MaxLoop<S>(e: Engine<S>, s: S, moves: seq<Move>, alpha: Score, beta: Score, v: Score, depth: int): Score
    requires depth >= 0
    decreases depth + 1, 0, |moves|
  {
    if moves == [] then v
    else
      var v' := Max(v, AlphaBetaMin(e, e.nextStateByPacMan(s, moves[0]), moves[0], alpha, beta, depth));
      if Lt(v', beta) then MaxLoop(e, s, moves[1..], Max(alpha, v'), beta, v', depth) else v'
  }

  /** What min_value returns (ghosts optimal) */
  function AlphaBetaMin<S>(e: Engine<S>, s: S, prevMove: Move, alpha: Score, beta: Score, depth: int): Score
    decreases depth, 1, 0
  {
    if IsLeaf(e, s, depth) then Fin(Evaluate(e, s))
    else MinLoop(e, s, e.legalCombinedGhostMoves(s), prevMove, alpha, beta, PosInf, depth - 1)
  }

  /**
    The rest of min_value's loop over `joints`, entered with running minimum v:
    beta falls to v while v is above alpha, and the loop stops at the first
    joint move that brings v down to alpha.
  */
  function MinLoop<S>(e: Engine<S>, s: S, joints: seq<JointMove>, prevMove: Move,
                      alpha: Score, beta: Score, v: Score, depth: int): Score
    requires depth >= 0
    decreases depth + 1, 0, |joints|
  {
    if joints == [] then v
    else
      var v' := Min(v, AlphaBetaMax(e, e.nextStateByGhosts(s, joints[0]), prevMove, alpha, beta, depth));
      if Lt(alpha, v') then MinLoop(e, s, joints[1..], prevMove, alpha, Min(beta, v'), v', depth) else v'
  }

  /** One iteration of max_value's loop, at position i of `moves` */
  lemma MaxLoopStep<S>(e: Engine<S>, s: S, moves: seq<Move>, i: nat, alpha: Score, beta: Score, v: Score, depth: int)
    requires depth >= 0 && i < |moves|
    ensures var v' := Max(v, AlphaBetaMin(e, e.nextStateByPacMan(s, moves[i]), moves[i], alpha, beta, depth));
      MaxLoop(e, s, moves[i..], alpha, beta, v, depth)
      == if Lt(v', beta) then MaxLoop(e, s, moves[i + 1..], Max(alpha, v'), beta, v', depth) else v'
  {
  }

  /** One iteration of min_value's loop, at position i of `joints` */
  lemma MinLoopStep<S>(e: Engine<S>, s: S, joints: seq<JointMove>, i: nat, prevMove: Move,
                       alpha: Score, beta: Score, v: Score, depth: int)
    requires depth >= 0 && i < |joints|
    ensures var v' := Min(v, AlphaBetaMax(e, e.nextStateByGhosts(s, joints[i]), prevMove, alpha, beta, depth));
      MinLoop(e, s, joints[i..], prevMove, alpha, beta, v, depth)
      == if Lt(alpha, v') then MinLoop(e, s, joints[i + 1..], prevMove, alpha, Min(beta, v'), v', depth) else v'
  {
  }

  /**
    The pruned value f agrees with the minimax value m inside the window
    (alpha, beta): equal when m is strictly inside; between m and alpha when m
    is at most alpha; between beta and m when m is at least beta.
  */
  predicate WindowAgrees(alpha: Score, beta: Score, f: Score, m: Score) {
    && (Lt(alpha, m) && Lt(m, beta) ==> f == m)
    && (Le(m, alpha) ==> Le(m, f) && Le(f, alpha))
    && (Le(beta, m) ==> Le(beta, f) && Le(f, m))
  }

  /** Alpha-beta soundness at a max ply */
  lemma {:induction false} AlphaBetaMaxSound<S>(e: Engine<S>, s: S, prevMove: Move, alpha: Score, beta: Score, depth: int)
    requires Lt(alpha, beta)
    ensures WindowAgrees(alpha, beta, AlphaBetaMax(e, s, prevMove, alpha, beta, depth), MinimaxMax(e, s, prevMove, depth))
    decreases depth, 1, 0
  {
    if !IsLeaf(e, s, depth) {
      MaxLoopSound(e, s, ExploredMoves(e, s, prevMove), alpha, alpha, beta, NegInf, NegInf, depth - 1);
    }
  }

  /** Alpha-beta soundness at a min ply */
  lemma {:induction false} AlphaBetaMinSound<S>(e: Engine<S>, s: S, prevMove: Move, alpha: Score, beta: Score, depth: int)
    requires Lt(alpha, beta)
    ensures WindowAgrees(alpha, beta, AlphaBetaMin(e, s, prevMove, alpha, beta, depth), MinimaxMin(e, s, prevMove, depth))
    decreases depth, 1, 0
  {
    if !IsLeaf(e, s, depth) {
      MinLoopSound(e, s, e.legalCombinedGhostMoves(s), prevMove, alpha, beta, beta, PosInf, PosInf, depth - 1);
    }
  }

  /**
    The max loop's invariant: `explored` is the minimax value of the children
    already searched, v the running maximum, alpha = max(alpha0, v) < beta;
    v bounds `explored` from above and equals it once v exceeds alpha0.
  */
  predicate MaxInvariant(alpha0: Score, alpha: Score, beta: Score, v: Score, explored: Score) {
    && Lt(alpha0, beta) && Lt(v, beta) && alpha == Max(alpha0, v)
    && Le(explored, v) && (Lt(alpha0, v) ==> explored == v)
  }

  /**
    The min loop's invariant, dual to MaxInvariant: v is the running minimum,
    beta = min(beta0, v) > alpha; v bounds `explored` from below and equals it
    once v is below beta0.
  */
  predicate MinInvariant(alpha: Score, beta0: Score, beta: Score, v: Score, explored: Score) {
    && Lt(alpha, beta0) && Lt(alpha, v) && beta == Min(beta0, v)
    && Le(v, explored) && (Lt(v, beta0) ==> explored == v)
  }

  /**
    One child of a max ply, on scores alone: f is the child's pruned value
    and m its minimax value, in agreement inside the child's window. Either
    the loop goes on with its invariant kept, or it stops with a value that
    agrees with the ply's minimax value whatever the unexplored children are.
  */
  lemma MaxStep(alpha0: Score, alpha: Score, beta: Score, v: Score, explored: Score, f: Score, m: Score, rest: Score)
    requires MaxInvariant(alpha0, alpha, beta, v, explored)
    requires WindowAgrees(alpha, beta, f, m)
    ensures Lt(Max(v, f), beta) ==> MaxInvariant(alpha0, Max(alpha, Max(v, f)), beta, Max(v, f), Max(explored, m))
    ensures !Lt(Max(v, f), beta) ==> WindowAgrees(alpha0, beta, Max(v, f), Max(explored, Max(m, rest)))
  {
  }

  /** One child of a min ply, on scores alone (the dual of MaxStep) */
  lemma MinStep(alpha: Score, beta0: Score, beta: Score, v: Score, explored: Score, f: Score, m: Score, rest: Score)
    requires MinInvariant(alpha, beta0, beta, v, explored)
    requires WindowAgrees(alpha, beta, f, m)
    ensures Lt(alpha, Min(v, f)) ==> MinInvariant(alpha, beta0, Min(beta, Min(v, f)), Min(v, f), Min(explored, m))
    ensures !Lt(alpha, Min(v, f)) ==> WindowAgrees(alpha, beta0, Min(v, f), Min(explored, Min(m, rest)))
  {
  }

  /** The max loop's result agrees with minimax over the whole list */
  lemma {:induction false} MaxLoopSound<S>(e: Engine<S>, s: S, moves: seq<Move>, alpha0: Score, alpha: Score,
                                           beta: Score, v: Score, explored: Score, depth: int)
    requires depth >= 0
    requires MaxInvariant(alpha0, alpha, beta, v, explored)
    ensures WindowAgrees(alpha0, beta, MaxLoop(e, s, moves, alpha, beta, v, depth),
                         Max(explored, MaxOverMoves(e, s, moves, depth)))
    decreases depth + 1, 0, |moves|
  {
    if moves != [] {
      var child := e.nextStateByPacMan(s, moves[0]);
      AlphaBetaMinSound(e, child, moves[0], alpha, beta, depth);
      var f := AlphaBetaMin(e, child, moves[0], alpha, beta, depth);
      var m := MinimaxMin(e, child, moves[0], depth);
      var rest := MaxOverMoves(e, s, moves[1..], depth);
      MaxStep(alpha0, alpha, beta, v, explored, f, m, rest);
      var v' := Max(v, f);
      if Lt(v', beta) {
        MaxLoopSound(e, s, moves[1..], alpha0, Max(alpha, v'), beta, v', Max(explored, m), depth);
        MaxAssociates(explored, m, rest);
      }
    }
  }

  /** The min loop's result agrees with minimax over the whole list */
  lemma {:induction false} MinLoopSound<S>(e: Engine<S>, s: S, joints: seq<JointMove>, prevMove: Move, alpha: Score,
                                           beta0: Score, beta: Score, v: Score, explored: Score, depth: int)
    requires depth >= 0
    requires MinInvariant(alpha, beta0, beta, v, explored)
    ensures WindowAgrees(alpha, beta0, MinLoop(e, s, joints, prevMove, alpha, beta, v, depth),
                         Min(explored, MinOverJointMoves(e, s, joints, prevMove, depth)))
    decreases depth + 1, 0, |joints|
  {
    if joints != [] {
      var child := e.nextStateByGhosts(s, joints[0]);
      AlphaBetaMaxSound(e, child, prevMove, alpha, beta, depth);
      var f := AlphaBetaMax(e, child, prevMove, alpha, beta, depth);
      var m := MinimaxMax(e, child, prevMove, depth);
      var rest := MinOverJointMoves(e, s, joints[1..], prevMove, depth);
      MinStep(alpha, beta0, beta, v, explored, f, m, rest);
      var v' := Min(v, f);
      if Lt(alpha, v') {
        MinLoopSound(e, s, joints[1..], prevMove, alpha, beta0, Min(beta, v'), v', Min(explored, m), depth);
        MinAssociates(explored, m, rest);
      }
    }
  }

  lemma MaxAssociates(a: Score, b: Score, c: Score)
    ensures Max(Max(a, b), c) == Max(a, Max(b, c))
  {
  }

  lemma MinAssociates(a: Score, b: Score, c: Score)
    ensures Min(Min(a, b), c) == Min(a, Min(b, c))
  {
  }

  /** With the full window (-infinity, +infinity) the pruned search is exactly minimax */
  lemma FullWindowIsMinimax<S>(e: Engine<S>, s: S, prevMove: Move, depth: int)
    ensures AlphaBetaMax(e, s, prevMove, NegInf, PosInf, depth) == MinimaxMax(e, s, prevMove, depth)
    ensures AlphaBetaMin(e, s, prevMove, NegInf, PosInf, depth) == MinimaxMin(e, s, prevMove, depth)
  {
    AlphaBetaMaxSound(e, s, prevMove, NegInf, PosInf, depth);
    AlphaBetaMinSound(e, s, prevMove, NegInf, PosInf, depth);
  }
}
