/** Turn alternation: whose move it is, and how a selected square extends the
    history. A history lists its turns most recent first. */
module Turns {
  import opened Game

  /** The player to move: X opens the game; afterwards the opponent of the
      player who made the most recent (head) turn. */
  function DeriveActivePlayer(gameTurns: seq<Turn>): (currentPlayer: Symbol)
    ensures gameTurns == [] ==> currentPlayer == X
    ensures gameTurns != [] ==> currentPlayer != gameTurns[0].player
  {
    if |gameTurns| > 0 && gameTurns[0].player == X then O else X
  }

  /** The history after the player to move selects (rowIndex, colIndex): a new
      turn at the head, the previous history untouched behind it. Occupancy
      is not checked. */
  function HandleSwitchPlayer(prevTurns: seq<Turn>, rowIndex: Coord, colIndex: Coord): (updatedTurns: seq<Turn>)
    ensures |updatedTurns| == |prevTurns| + 1
    ensures updatedTurns[0] == Turn(Square(rowIndex, colIndex), DeriveActivePlayer(prevTurns))
    ensures updatedTurns[1..] == prevTurns
    ensures DeriveActivePlayer(updatedTurns) != DeriveActivePlayer(prevTurns)
  {
    [Turn(Square(rowIndex, colIndex), DeriveActivePlayer(prevTurns))] + prevTurns
  }

  /** Reference rule by counting: in a history of n turns, the turn at index i
      (most recent first) was the game's (n - i)-th move, which X makes when
      n - i is odd. */
  ghost predicate Alternates(gameTurns: seq<Turn>)
  {
    forall i :: 0 <= i < |gameTurns| ==>
      gameTurns[i].player == if (|gameTurns| - i) % 2 == 1 then X else O
  }

  /** The history produced by selecting `squares` in order (oldest first),
      starting from the empty history after a restart. */
  function Play(squares: seq<Square>): (gameTurns: seq<Turn>)
    ensures |gameTurns| == |squares|
    ensures forall i :: 0 <= i < |gameTurns| ==> gameTurns[i].square == squares[|squares| - 1 - i]
  {
    if squares == [] then []
    else
      var last := squares[|squares| - 1];
      HandleSwitchPlayer(Play(squares[..|squares| - 1]), last.row, last.col)
  }

  /** On an alternating history the head-based rule agrees with counting:
      X moves after an even number of turns, O after an odd number. */
  lemma {:induction false} ActivePlayerByParity(gameTurns: seq<Turn>)
    requires Alternates(gameTurns)
    ensures DeriveActivePlayer(gameTurns) == if |gameTurns| % 2 == 0 then X else O
  {
    if gameTurns != [] {
      assert gameTurns[0].player == if |gameTurns| % 2 == 1 then X else O;
    }
  }

  /** Selecting a square keeps a history alternating. */
  lemma {:induction false} SwitchPreservesAlternation(prevTurns: seq<Turn>, rowIndex: Coord, colIndex: Coord)
    requires Alternates(prevTurns)
    ensures Alternates(HandleSwitchPlayer(prevTurns, rowIndex, colIndex))
  {
    var updatedTurns := HandleSwitchPlayer(prevTurns, rowIndex, colIndex);
    ActivePlayerByParity(prevTurns);
    forall i | 0 <= i < |updatedTurns|
      ensures updatedTurns[i].player == if (|updatedTurns| - i) % 2 == 1 then X else O
    {
      if i > 0 {
        assert updatedTurns[i] == prevTurns[i - 1];
      }
    }
  }

  /** A history built only by selecting squares from a fresh game alternates
      X, O, X, ... from its oldest turn to its newest. */
  lemma {:induction false} PlayAlternates(squares: seq<Square>)
    ensures Alternates(Play(squares))
  {
    if squares != [] {
      var last := squares[|squares| - 1];
      PlayAlternates(squares[..|squares| - 1]);
      SwitchPreservesAlternation(Play(squares[..|squares| - 1]), last.row, last.col);
    }
  }

  /** After any sequence of selections from a fresh game, X is to move after an
      even number of selections and O after an odd number; the opening move is X's. */
  lemma PlayedActivePlayer(squares: seq<Square>)
    ensures DeriveActivePlayer(Play(squares)) == if |squares| % 2 == 0 then X else O
    ensures squares != [] ==> Play(squares)[|squares| - 1].player == X
  {
    PlayAlternates(squares);
    ActivePlayerByParity(Play(squares));
  }
}
