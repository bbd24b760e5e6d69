/**
  The part of the game engine the player consumes. The engine's classes
  (Game, State, Location, Move) are not part of this model: every query the
  player makes of them is a field of `Engine`, an arbitrary total function, so
  every property proved here holds whatever the engine does.
*/
module GameInterface {

  /** Pac-Man's directions and the "no move" sentinel */
  datatype Move = Up | Down | Left | Right | None

  /**
    A board position. The player never reads the coordinates itself: every
    distance goes through the engine's manhattanDistanceToClosest, so the
    fields only name what a location holds.
  */
  datatype Location = Location(x: int, y: int)

  /** A combined ghost move: one move per ghost */
  type JointMove = seq<Move>

  /**
    The engine queries used by the search: Game.isFinal, Game.isLosing,
    Game.isWinning, Game.getLegalPacManMoves(state),
    Game.getLegalCombinedGhostMoves(state) (in its iteration order), the two
    Game.getNextState overloads, the State accessors, the static
    Location.manhattanDistanceToClosest and Move.getOpposite.
  */
  datatype Engine<!S> = Engine(
    isFinal: S -> bool,
    isLosing: S -> bool,
    isWinning: S -> bool,
    legalPacManMoves: S -> seq<Move>,
    legalCombinedGhostMoves: S -> seq<JointMove>,
    nextStateByPacMan: (S, Move) -> S,
    nextStateByGhosts: (S, JointMove) -> S,
    pacManLocation: S -> Location,
    ghostLocations: S -> seq<Location>,
    dotLocations: S -> seq<Location>,
    manhattanDistanceToClosest: (Location, seq<Location>) -> int,
    opposite: Move -> Move
  )

  /** What `chooseMove` reads from the live game: the current state and Pac-Man's legal moves */
  datatype GameView<S> = GameView(currentState: S, legalPacManMoves: seq<Move>)

  predicate NoDuplicates(s: seq<Move>) {
    forall i, j :: 0 <= i < j < |s| ==> s[i] != s[j]
  }

  /**
    java.util.List.remove(Object) on a list of moves: the first element equal
    to x is removed, the others keep their order.
  */
  function RemoveFirst(s: seq<Move>, x: Move): (r: seq<Move>)
  {
    if s == [] then []
    else if s[0] == x then s[1..]
    else [s[0]] + RemoveFirst(s[1..], x)
  }

  /**
    RemoveFirst shortens a list holding x by one, and returns a list without
    x unchanged.
  */
  lemma {:induction false} RemoveFirstLength(s: seq<Move>, x: Move)
    ensures x !in s ==> RemoveFirst(s, x) == s
    ensures x in s ==> |RemoveFirst(s, x)| == |s| - 1
  {
    if s != [] && s[0] != x {
      RemoveFirstLength(s[1..], x);
      assert s == [s[0]] + s[1..];
    }
  }

  /** RemoveFirst takes away one x, if there is one, and nothing else */
  lemma {:induction false} RemoveFirstRemovesOne(s: seq<Move>, x: Move)
    ensures multiset(RemoveFirst(s, x)) == multiset(s) - multiset{x}
  {
    if s != [] {
      var tail := s[1..];
      assert s == [s[0]] + tail;
      assert multiset(s) == multiset{s[0]} + multiset(tail);
      if s[0] != x {
        RemoveFirstRemovesOne(tail, x);
        assert RemoveFirst(s, x) == [s[0]] + RemoveFirst(tail, x);
        assert multiset(RemoveFirst(s, x)) == multiset{s[0]} + multiset(RemoveFirst(tail, x));
      }
    }
  }

  /**
    RemoveFirst deletes exactly one position, the first occurrence of x, and
    keeps the order of everything else.
  */
  lemma {:induction false} RemoveFirstDeletesFirstOccurrence(s: seq<Move>, x: Move, i: nat)
    requires i < |s| && s[i] == x && x !in s[..i]
    ensures RemoveFirst(s, x) == s[..i] + s[i + 1..]
  {
    if i > 0 {
      assert s[0] == s[..i][0];
      assert s[1..][..i - 1] == s[1..i];
      RemoveFirstDeletesFirstOccurrence(s[1..], x, i - 1);
      assert s[..i] == [s[0]] + s[1..][..i - 1];
      assert s[i + 1..] == s[1..][i..];
    }
  }

  /**
    On a list without duplicates, removing x leaves no x at all: the removal
    is the filter "every move except x".
  */
  lemma {:induction false} RemoveFirstExcludes(s: seq<Move>, x: Move)
    requires NoDuplicates(s)
    ensures x !in RemoveFirst(s, x)
    ensures forall y :: y != x ==> (y in RemoveFirst(s, x) <==> y in s)
  {
    if s != [] {
      assert NoDuplicates(s[1..]);
      RemoveFirstExcludes(s[1..], x);
      if s[0] == x {
        assert x !in s[1..];
      }
    }
  }
}
