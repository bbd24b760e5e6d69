/**
  The Pac-Man player: a move chooser that searches the game tree with
  depth-bounded minimax and alpha-beta pruning, treats all ghosts' combined
  move as one ply, skips reversing moves inside the tree, penalises reversing
  moves at the root, and remembers its last move.
*/
module Player {
  import opened Scores
  import opened GameInterface
  import opened Tuning
  import opened Evaluation
  import opened Minimax
  import opened AlphaBeta
  import opened Selection

  class AlexPacManPlayer {
    /** The move returned by the previous call of ChooseMove */
    var lastMove: Move

    constructor ()
      ensures lastMove == None
    {
      lastMove := None;
    }

    /**
      Chooses Pac-Man's move: each legal move of the game is searched with
      MinValue on its successor, penalised when it reverses lastMove, and the
      earliest move with the strictly greatest score wins; alpha at the root
      is the best score so far. The result is the reference choice over plain
      minimax values, and it becomes the new lastMove.
    */
    method ChooseMove<S>(e: Engine<S>, game: GameView<S>) returns (move: Move)
      modifies this
      ensures move == ChosenMove(game.legalPacManMoves,
                                 BestChoice(e, game.currentState, old(lastMove), game.legalPacManMoves))
      ensures lastMove == move
    {
      var bestMove := None;
      var bestScore := NegInf;
      var current := game.currentState;
      var alpha := NegInf;
      var beta := PosInf;
      var moves := game.legalPacManMoves;
      var last := lastMove;
      ghost var best := Choice(-1, NegInf);
      var i := 0;
      while i < |moves|
        invariant 0 <= i <= |moves|
        invariant best == BestChoice(e, current, last, moves[..i])
        invariant alpha == bestScore == best.score && beta == PosInf && alpha != PosInf
        invariant bestMove == ChosenMove(moves[..i], best)
      {
        var move := moves[i];
        var moveScore := MinValue(e, e.nextStateByPacMan(current, move), move, alpha, beta, MaxDepth - 1);
        ghost var searched := moveScore;
        if last == e.opposite(move) {
          moveScore := Minus(moveScore, OppositeMovePenalty);
        }
        RootStep(e, current, last, move, alpha, searched, moveScore);
        BestChoiceStep(e, current, last, moves, i);
        if Lt(bestScore, moveScore) {
          bestScore := moveScore;
          bestMove := move;
        }
        best := BestChoice(e, current, last, moves[..i + 1]);
        if Lt(moveScore, beta) {
          alpha := Max(alpha, moveScore);
        } else {
          TopScoreIsFinal(e, current, last, moves, i + 1);
          break;
        }
        i := i + 1;
      }
      assert moves[..|moves|] == moves;
      lastMove := bestMove;
      move := bestMove;
    }

    /**
      max_value: the value of a state with Pac-Man to move. Leaves score
      Evaluate; otherwise the legal moves less the opposite of prevMove are
      searched in order, each with itself as the next previous move, and the
      loop stops at the first child that lifts the running maximum to beta.
    */
    method MaxValue<S>(e: Engine<S>, state: S, prevMove: Move, alpha: Score, beta: Score, depth: int)
      returns (v: Score)
      ensures v == AlphaBetaMax(e, state, prevMove, alpha, beta, depth)
      decreases depth
    {
      if e.isFinal(state) || depth < 1 {
        return Fin(Evaluate(e, state));
      }
      v := NegInf;
      var moves := e.legalPacManMoves(state);
      moves := RemoveFirst(moves, e.opposite(prevMove));
      var a := alpha;
      var i := 0;
      assert moves[0..] == moves;
      while i < |moves|
        invariant 0 <= i <= |moves|
        invariant MaxLoop(e, state, moves[i..], a, beta, v, depth - 1)
               == AlphaBetaMax(e, state, prevMove, alpha, beta, depth)
      {
        var move := moves[i];
        var score := MinValue(e, e.nextStateByPacMan(state, move), move, a, beta, depth - 1);
        MaxLoopStep(e, state, moves, i, a, beta, v, depth - 1);
        v := Max(v, score);
        if Lt(v, beta) {
          a := Max(a, v);
        } else {
          break;
        }
        i := i + 1;
      }
    }

    /**
      min_value with optimal ghosts: the value of a state with the ghosts to
      move. Leaves score Evaluate; otherwise every combined ghost move is
      searched in order with prevMove passed through unchanged, and the loop
      stops at the first child that brings the running minimum down to alpha.
    */
    method MinValue<S>(e: Engine<S>, state: S, prevMove: Move, alpha: Score, beta: Score, depth: int)
      returns (v: Score)
      ensures v == AlphaBetaMin(e, state, prevMove, alpha, beta, depth)
      decreases depth
    {
      if e.isFinal(state) || depth < 1 {
        return Fin(Evaluate(e, state));
      }
      var combined := e.legalCombinedGhostMoves(state);
      v := PosInf;
      var b := beta;
      var i := 0;
      assert combined[0..] == combined;
      while i < |combined|
        invariant 0 <= i <= |combined|
        invariant MinLoop(e, state, combined[i..], prevMove, alpha, b, v, depth - 1)
               == AlphaBetaMin(e, state, prevMove, alpha, beta, depth)
      {
        var joint := combined[i];
        var score := MaxValue(e, e.nextStateByGhosts(state, joint), prevMove, alpha, b, depth - 1);
        MinLoopStep(e, state, combined, i, prevMove, alpha, b, v, depth - 1);
        v := Min(v, score);
        if Lt(alpha, v) {
          b := Min(b, v);
        } else {
          break;
        }
        i := i + 1;
      }
    }
  }

  /**
    One iteration of the root loop: with the root window (alpha, +infinity),
    the pruned and penalised score of a move beats alpha exactly when its
    reference score does, and then the two are equal; so the root loop makes
    the same choice and keeps the same alpha as the reference.
  */
  lemma RootStep<S>(e: Engine<S>, current: S, lastMove: Move, move: Move, alpha: Score, searched: Score, score: Score)
    requires alpha != PosInf
    requires searched == AlphaBetaMin(e, e.nextStateByPacMan(current, move), move, alpha, PosInf, MaxDepth - 1)
    requires score == if lastMove == e.opposite(move) then Minus(searched, OppositeMovePenalty) else searched
    ensures var reference := AdjustedScore(e, current, lastMove, move);
            && (Lt(alpha, score) <==> Lt(alpha, reference))
            && (Lt(alpha, score) ==> score == reference)
            && (score == PosInf <==> reference == PosInf)
  {
    AlphaBetaMinSound(e, e.nextStateByPacMan(current, move), move, alpha, PosInf, MaxDepth - 1);
  }
}
