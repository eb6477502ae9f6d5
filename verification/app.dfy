/** The derivation pass of one render: active player, board, winner and draw
    flag, all recomputed from the history and the registry. */
module App {
  import opened Game
  import opened Turns
  import opened Board
  import opened Winner
  import opened Registry

  /** The draw flag: nine turns and no winner, with the winner computed first. */
  function HasDraw(turnCount: nat, winner: Option<string>): (hasDraw: bool)
    ensures hasDraw ==> winner.None?
  {
    turnCount == 9 && winner.None?
  }

  /** What evaluating an expression yields: a value, or the ReferenceError
      JavaScript throws on reading a `const` before its declaration has run. */
  datatype Evaluation = Value(b: bool) | ReferenceError

  /** The draw flag as written: it is computed on the line before `winner` is
      declared, so the `&&` reaches `!winner` only on the ninth turn, and there
      it throws instead of producing a value. */
  function HasDrawAsWritten(turnCount: nat): (r: Evaluation)
    ensures r != Value(true)
    ensures r == ReferenceError <==> turnCount == 9
  {
    if turnCount == 9 then ReferenceError else Value(false)
  }

  /** Everything a render derives. */
  datatype GameState = GameState(activePlayer: Symbol, gameBoard: array<array<Cell>>, winner: Option<string>, hasDraw: bool)

  /** One render's derivation, in the intended order: the winner before the
      draw flag that reads it. */
  method DeriveState(gameTurns: seq<Turn>, players: Players) returns (state: GameState)
    ensures state.activePlayer == DeriveActivePlayer(gameTurns)
    ensures fresh(state.gameBoard) && ValidBoard(state.gameBoard)
    ensures Snapshot(state.gameBoard) == BoardOf(gameTurns)
    ensures state.winner == WinnerOf(BoardOf(gameTurns), players)
    ensures state.hasDraw == HasDraw(|gameTurns|, state.winner)
  {
    var activePlayer := DeriveActivePlayer(gameTurns);
    var gameBoard := DeriveGameBoard(gameTurns);
    var winner := DeriveWinner(gameBoard, players);
    var hasDraw := HasDraw(|gameTurns|, winner);
    state := GameState(activePlayer, gameBoard, winner, hasDraw);
  }

  /** With both symbols registered, a history is a draw exactly when it has
      nine turns and no win-line of its board is filled; in particular a full
      board with a filled line is a win, not a draw. */
  lemma DrawIffFullWithoutFilledLine(gameTurns: seq<Turn>, players: Players)
    requires X in players && O in players
    ensures HasDraw(|gameTurns|, WinnerOf(BoardOf(gameTurns), players)) <==>
      |gameTurns| == 9 &&
      forall k :: 0 <= k < |WINNING_COMBINATIONS| ==> LineOwner(BoardOf(gameTurns), WINNING_COMBINATIONS[k]).None?
  {
    WinnerIffFilledLine(BoardOf(gameTurns), players);
  }

  /** Renaming a player changes only the name reported for a win by that
      player's symbol: whether there is a winner, and the name for the other
      symbol's win, stay as they were. */
  lemma RenameChangesOnlyWinnerName(g: Grid, players: Players, playerSymbol: Symbol, playerName: string)
    requires X in players && O in players
    ensures var renamed := HandlePlayerNameChange(players, playerSymbol, playerName);
      (WinnerOf(g, renamed).Some? <==> WinnerOf(g, players).Some?) &&
      (LastOwner(g, WINNING_COMBINATIONS) == Some(playerSymbol) ==> WinnerOf(g, renamed) == Some(playerName)) &&
      (LastOwner(g, WINNING_COMBINATIONS) != Some(playerSymbol) ==> WinnerOf(g, renamed) == WinnerOf(g, players))
  {
    var owner := LastOwner(g, WINNING_COMBINATIONS);
    if owner.Some? {
      assert owner.value in players by {
        if owner.value == X {} else {}
      }
    }
  }

  /** Selecting a free square shows the mover's symbol there and nowhere else. */
  lemma SwitchOnFreeSquare(prevTurns: seq<Turn>, rowIndex: Coord, colIndex: Coord, sq: Square)
    requires CellAt(prevTurns, Square(rowIndex, colIndex)) == Empty
    ensures CellAt(HandleSwitchPlayer(prevTurns, rowIndex, colIndex), sq) ==
      if sq == Square(rowIndex, colIndex) then Marked(DeriveActivePlayer(prevTurns)) else CellAt(prevTurns, sq)
  {
    var t := Turn(Square(rowIndex, colIndex), DeriveActivePlayer(prevTurns));
    assert HandleSwitchPlayer(prevTurns, rowIndex, colIndex) == [t] + prevTurns;
    PrependTurn(t, prevTurns, sq);
  }

  /** Selecting an occupied square (which nothing in this core forbids) leaves
      the board as it was: the older turn is written last and wins. */
  lemma SwitchOnOccupiedSquare(prevTurns: seq<Turn>, rowIndex: Coord, colIndex: Coord)
    requires CellAt(prevTurns, Square(rowIndex, colIndex)) != Empty
    ensures BoardOf(HandleSwitchPlayer(prevTurns, rowIndex, colIndex)) == BoardOf(prevTurns)
  {
    var t := Turn(Square(rowIndex, colIndex), DeriveActivePlayer(prevTurns));
    var updatedTurns := HandleSwitchPlayer(prevTurns, rowIndex, colIndex);
    assert updatedTurns == [t] + prevTurns;
    var g, h := BoardOf(updatedTurns), BoardOf(prevTurns);
    forall r | 0 <= r < 3 ensures g[r] == h[r] {
      forall c | 0 <= c < 3 ensures g[r][c] == h[r][c] {
        PrependTurn(t, prevTurns, Square(r, c));
        assert At(g, Square(r, c)) == At(h, Square(r, c));
      }
    }
  }

  /** In a game played from a restart on distinct squares, the k-th selected
      square (oldest first, from 0) shows X when k is even and O when k is odd. */
  lemma PlayedBoard(squares: seq<Square>, k: nat)
    requires forall i, j :: 0 <= i < j < |squares| ==> squares[i] != squares[j]
    requires k < |squares|
    ensures CellAt(Play(squares), squares[k]) == Marked(if k % 2 == 0 then X else O)
  {
    var gameTurns := Play(squares);
    var n := |squares|;
    PlayAlternates(squares);
    var i := n - 1 - k;
    assert gameTurns[i].square == squares[k];
    assert gameTurns[i].player == if (n - i) % 2 == 1 then X else O;
    CellOfOldestTurn(gameTurns, i);
  }

  /** A fresh game: X to move, an all-null board, no winner, no draw. */
  lemma RestartedGame(players: Players)
    ensures DeriveActivePlayer([]) == X
    ensures BoardOf([]) == INITIAL_GAME_BOARD
    ensures WinnerOf(BoardOf([]), players) == None
    ensures !HasDraw(0, WinnerOf(BoardOf([]), players))
  {
    var g := BoardOf([]);
    forall r | 0 <= r < 3 ensures g[r] == INITIAL_GAME_BOARD[r] {
      assert At(g, Square(r, 0)) == At(g, Square(r, 1)) == At(g, Square(r, 2)) == Empty;
    }
    EmptyBoardHasNoWinner(players);
  }

  /** After X opens at (0, 0): O to move, and the board shows X at (0, 0) only. */
  lemma OpeningMove(sq: Square)
    ensures DeriveActivePlayer([Turn(Square(0, 0), X)]) == O
    ensures CellAt([Turn(Square(0, 0), X)], sq) == if sq == Square(0, 0) then Marked(X) else Empty
  {
    assert [Turn(Square(0, 0), X)][..0] == [];
  }

  /** A game in which O fills the anti-diagonal on the sixth move (most recent first). */
  const DIAGONAL_GAME: seq<Turn> :=
    [Turn(Square(2, 0), O), Turn(Square(2, 2), X), Turn(Square(1, 1), O),
     Turn(Square(0, 1), X), Turn(Square(0, 2), O), Turn(Square(0, 0), X)]

  /** O fills the anti-diagonal and wins under the initial name. */
  lemma DiagonalWin()
    ensures BoardOf(DIAGONAL_GAME) ==
      [[Marked(X), Marked(X), Marked(O)],
       [Empty, Marked(O), Empty],
       [Marked(O), Empty, Marked(X)]]
    ensures WinnerOf(BoardOf(DIAGONAL_GAME), PLAYERS) == Some("Player 2")
  {
    var g := BoardOf(DIAGONAL_GAME);
    assert CellAt(DIAGONAL_GAME, Square(2, 0)) == Marked(O) by { CellOfOldestTurn(DIAGONAL_GAME, 0); }
    assert CellAt(DIAGONAL_GAME, Square(2, 2)) == Marked(X) by { CellOfOldestTurn(DIAGONAL_GAME, 1); }
    assert CellAt(DIAGONAL_GAME, Square(1, 1)) == Marked(O) by { CellOfOldestTurn(DIAGONAL_GAME, 2); }
    assert CellAt(DIAGONAL_GAME, Square(0, 1)) == Marked(X) by { CellOfOldestTurn(DIAGONAL_GAME, 3); }
    assert CellAt(DIAGONAL_GAME, Square(0, 2)) == Marked(O) by { CellOfOldestTurn(DIAGONAL_GAME, 4); }
    assert CellAt(DIAGONAL_GAME, Square(0, 0)) == Marked(X) by { CellOfOldestTurn(DIAGONAL_GAME, 5); }
    forall sq | sq !in SquaresOf(DIAGONAL_GAME) ensures CellAt(DIAGONAL_GAME, sq) == Empty {
      CellEmptyIffUntouched(DIAGONAL_GAME, sq);
    }
    assert Square(1, 0) !in SquaresOf(DIAGONAL_GAME);
    assert Square(1, 2) !in SquaresOf(DIAGONAL_GAME);
    assert Square(2, 1) !in SquaresOf(DIAGONAL_GAME);
    assert g[0] == [Marked(X), Marked(X), Marked(O)];
    assert g[1] == [Empty, Marked(O), Empty];
    assert g[2] == [Marked(O), Empty, Marked(X)];
    SoleWinningSymbol(g, PLAYERS, 7, O);
  }

  /** A full board with no filled line (most recent first). */
  const DRAWN_GAME: seq<Turn> :=
    [Turn(Square(2, 2), X), Turn(Square(2, 0), O), Turn(Square(2, 1), X),
     Turn(Square(1, 2), O), Turn(Square(1, 0), X), Turn(Square(1, 1), O),
     Turn(Square(0, 2), X), Turn(Square(0, 1), O), Turn(Square(0, 0), X)]

  /** The full board has no filled line: the corrected flag reports a draw,
      while the flag as written throws on this ninth turn. */
  lemma DrawnGame()
    ensures BoardOf(DRAWN_GAME) ==
      [[Marked(X), Marked(O), Marked(X)],
       [Marked(X), Marked(O), Marked(O)],
       [Marked(O), Marked(X), Marked(X)]]
    ensures HasDraw(|DRAWN_GAME|, WinnerOf(BoardOf(DRAWN_GAME), PLAYERS))
    ensures HasDrawAsWritten(|DRAWN_GAME|) == ReferenceError
  {
    var g := BoardOf(DRAWN_GAME);
    assert CellAt(DRAWN_GAME, Square(2, 2)) == Marked(X) by { CellOfOldestTurn(DRAWN_GAME, 0); }
    assert CellAt(DRAWN_GAME, Square(2, 0)) == Marked(O) by { CellOfOldestTurn(DRAWN_GAME, 1); }
    assert CellAt(DRAWN_GAME, Square(2, 1)) == Marked(X) by { CellOfOldestTurn(DRAWN_GAME, 2); }
    assert CellAt(DRAWN_GAME, Square(1, 2)) == Marked(O) by { CellOfOldestTurn(DRAWN_GAME, 3); }
    assert CellAt(DRAWN_GAME, Square(1, 0)) == Marked(X) by { CellOfOldestTurn(DRAWN_GAME, 4); }
    assert CellAt(DRAWN_GAME, Square(1, 1)) == Marked(O) by { CellOfOldestTurn(DRAWN_GAME, 5); }
    assert CellAt(DRAWN_GAME, Square(0, 2)) == Marked(X) by { CellOfOldestTurn(DRAWN_GAME, 6); }
    assert CellAt(DRAWN_GAME, Square(0, 1)) == Marked(O) by { CellOfOldestTurn(DRAWN_GAME, 7); }
    assert CellAt(DRAWN_GAME, Square(0, 0)) == Marked(X) by { CellOfOldestTurn(DRAWN_GAME, 8); }
    assert g[0] == [Marked(X), Marked(O), Marked(X)];
    assert g[1] == [Marked(X), Marked(O), Marked(O)];
    assert g[2] == [Marked(O), Marked(X), Marked(X)];
    LastOwnerIsLastFilledLine(g, WINNING_COMBINATIONS);
  }
}
