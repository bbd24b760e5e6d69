/**
  The root decision as a reference definition: every legal move is scored by
  minimax and the earliest move with the strictly greatest score is chosen.
*/
module Selection {
  import opened Scores
  import opened GameInterface
  import opened Tuning
  import opened Minimax

  /**
    The root score of a move: the minimax value of its successor, with the
    ghosts to move, MaxDepth - 1 plies left and the move itself as the
    previous move, less OppositeMovePenalty when the move reverses lastMove.
  */
  function AdjustedScore<S>(e: Engine<S>, current: S, lastMove: Move, move: Move): Score {
    var raw := MinimaxMin(e, e.nextStateByPacMan(current, move), move, MaxDepth - 1);
    if lastMove == e.opposite(move) then Minus(raw, OppositeMovePenalty) else raw
  }

  /** The index of the chosen move (-1 for none) and its score */
  datatype Choice = Choice(index: int, score: Score)

  /**
    The root loop over `moves` run on reference scores: starting from "no move"
    at -infinity, a move replaces the current choice when its adjusted score is
    strictly greater.
  */
  function BestChoice<S>(e: Engine<S>, current: S, lastMove: Move, moves: seq<Move>): (c: Choice)
    ensures -1 <= c.index < |moves|
  {
    if moves == [] then Choice(-1, NegInf)
    else
      var n := |moves| - 1;
      var previous := BestChoice(e, current, lastMove, moves[..n]);
      var score := AdjustedScore(e, current, lastMove, moves[n]);
      if Lt(previous.score, score) then Choice(n, score) else previous
  }

  /** Extending the list by one move: the move is taken when its score beats the choice so far */
  lemma BestChoiceStep<S>(e: Engine<S>, current: S, lastMove: Move, moves: seq<Move>, i: nat)
    requires i < |moves|
    ensures var previous := BestChoice(e, current, lastMove, moves[..i]);
      var score := AdjustedScore(e, current, lastMove, moves[i]);
      BestChoice(e, current, lastMove, moves[..i + 1])
      == if Lt(previous.score, score) then Choice(i, score) else previous
  {
    assert moves[..i + 1][..i] == moves[..i];
  }

  /**
    BestChoice picks the earliest move whose adjusted score is strictly greater
    than every earlier score and at least every later one; it picks no move
    exactly when every score is -infinity (in particular when there is no
    legal move).
  */
  lemma {:induction false} BestChoiceIsEarliestMaximum<S>(e: Engine<S>, current: S, lastMove: Move, moves: seq<Move>)
    ensures var c := BestChoice(e, current, lastMove, moves);
      && (c.index == -1 <==> forall j :: 0 <= j < |moves| ==> AdjustedScore(e, current, lastMove, moves[j]) == NegInf)
      && (c.index == -1 ==> c.score == NegInf)
      && (0 <= c.index ==> c.score == AdjustedScore(e, current, lastMove, moves[c.index]))
      && (forall j :: 0 <= j < c.index ==> Lt(AdjustedScore(e, current, lastMove, moves[j]), c.score))
      && (forall j :: 0 <= j < |moves| ==> Le(AdjustedScore(e, current, lastMove, moves[j]), c.score))
    decreases |moves|
  {
    if moves != [] {
      var n := |moves| - 1;
      BestChoiceIsEarliestMaximum(e, current, lastMove, moves[..n]);
      assert forall j :: 0 <= j < n ==> moves[..n][j] == moves[j];
    }
  }

  /** The move a choice stands for: Move.None when nothing was chosen */
  function ChosenMove(moves: seq<Move>, c: Choice): Move
    requires c.index < |moves|
  {
    if c.index < 0 then None else moves[c.index]
  }

  /**
    Reversal bias: of two legal moves whose searches score the same finite
    value, the one that reverses the last move is never chosen when the other
    does not reverse it.
  */
  lemma ReversalLosesTie<S>(e: Engine<S>, current: S, lastMove: Move, moves: seq<Move>, keep: nat, reverse: nat)
    requires keep < |moves| && reverse < |moves|
    requires lastMove != e.opposite(moves[keep]) && lastMove == e.opposite(moves[reverse])
    requires MinimaxMin(e, e.nextStateByPacMan(current, moves[keep]), moves[keep], MaxDepth - 1)
          == MinimaxMin(e, e.nextStateByPacMan(current, moves[reverse]), moves[reverse], MaxDepth - 1)
    requires MinimaxMin(e, e.nextStateByPacMan(current, moves[keep]), moves[keep], MaxDepth - 1).Fin?
    ensures BestChoice(e, current, lastMove, moves).index != reverse
  {
    BestChoiceIsEarliestMaximum(e, current, lastMove, moves);
  }

  /**
    Once the best score is +infinity no later move can beat it: the choice
    over a longer list is the choice over the prefix.
  */
  lemma {:induction false} TopScoreIsFinal<S>(e: Engine<S>, current: S, lastMove: Move, moves: seq<Move>, k: nat)
    requires k <= |moves|
    requires BestChoice(e, current, lastMove, moves[..k]).score == PosInf
    ensures BestChoice(e, current, lastMove, moves) == BestChoice(e, current, lastMove, moves[..k])
    decreases |moves|
  {
    if k < |moves| {
      var n := |moves| - 1;
      assert moves[..n][..k] == moves[..k];
      TopScoreIsFinal(e, current, lastMove, moves[..n], k);
      BestChoiceIsEarliestMaximum(e, current, lastMove, moves[..n]);
    } else {
      assert moves[..k] == moves;
    }
  }
}
