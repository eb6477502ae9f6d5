/** The symbol-to-name registry and its one update. */
module Registry {
  import opened Game

  /** handlePlayerNameChange: a new registry that maps `playerSymbol` to
      `playerName` and keeps every other entry. */
  function HandlePlayerNameChange(prevPlayers: Players, playerSymbol: Symbol, playerName: string): (players: Players)
    ensures players.Keys == prevPlayers.Keys + {playerSymbol}
    ensures players[playerSymbol] == playerName
    ensures forall s :: s in prevPlayers && s != playerSymbol ==> players[s] == prevPlayers[s]
  {
    prevPlayers[playerSymbol := playerName]
  }

  /** The registry after a sequence of name edits, oldest first. */
  function ApplyEdits(players: Players, edits: seq<(Symbol, string)>): Players
  {
    if edits == [] then players
    else
      var (playerSymbol, playerName) := edits[|edits| - 1];
      HandlePlayerNameChange(ApplyEdits(players, edits[..|edits| - 1]), playerSymbol, playerName)
  }

  /** Starting from the initial names, any sequence of edits keeps an entry for
      both symbols. */
  lemma {:induction false} EditsKeepBothSymbols(edits: seq<(Symbol, string)>)
    ensures var players := ApplyEdits(PLAYERS, edits); X in players && O in players
  {
    if edits != [] {
      EditsKeepBothSymbols(edits[..|edits| - 1]);
    }
  }
}
