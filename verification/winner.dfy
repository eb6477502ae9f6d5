/** Win detection: the eight fixed win-lines, scanned in table order; every
    uniformly filled line overwrites the result, so the last one found names
    the winner. */
module Winner {
  import opened Game
  import opened Board

  /** Three board positions read as `combinations[0]`, `[1]` and `[2]`. */
  datatype Line = Line(first: Square, second: Square, third: Square)

  /** The win-line table: the three rows, the three columns, then the two
      diagonals. */
  const WINNING_COMBINATIONS: seq<Line> := [
    Line(Square(0, 0), Square(0, 1), Square(0, 2)),
    Line(Square(1, 0), Square(1, 1), Square(1, 2)),
    Line(Square(2, 0), Square(2, 1), Square(2, 2)),
    Line(Square(0, 0), Square(1, 0), Square(2, 0)),
    Line(Square(0, 1), Square(1, 1), Square(2, 1)),
    Line(Square(0, 2), Square(1, 2), Square(2, 2)),
    Line(Square(0, 0), Square(1, 1), Square(2, 2)),
    Line(Square(0, 2), Square(1, 1), Square(2, 0))
  ]

  /** The symbol that fills all three squares of `line`, if one does. */
  function LineOwner(g: Grid, line: Line): (owner: Option<Symbol>)
    ensures owner.Some? <==> At(g, line.first) != Empty && At(g, line.first) == At(g, line.second) == At(g, line.third)
    ensures owner.Some? ==> At(g, line.first) == Marked(owner.value)
  {
    var firstSquareSymbol := At(g, line.first);
    if firstSquareSymbol.Marked? && firstSquareSymbol == At(g, line.second) && firstSquareSymbol == At(g, line.third)
    then Some(firstSquareSymbol.symbol)
    else None
  }

  /** The owner of the last line of `lines` that a symbol fills. */
  function LastOwner(g: Grid, lines: seq<Line>): Option<Symbol>
  {
    if lines == [] then None
    else if LineOwner(g, lines[|lines| - 1]).Some? then LineOwner(g, lines[|lines| - 1])
    else LastOwner(g, lines[..|lines| - 1])
  }

  /** `players[s]` for a symbol s, undefined for no symbol or a symbol the
      registry lacks. */
  function NameOf(players: Players, s: Option<Symbol>): (name: Option<string>)
    ensures name.Some? <==> s.Some? && s.value in players
    ensures name.Some? ==> name.value == players[s.value]
  {
    if s.Some? && s.value in players then Some(players[s.value]) else None
  }

  /** The name deriveWinner reports for a board value. */
  ghost function WinnerOf(g: Grid, players: Players): Option<string>
  {
    NameOf(players, LastOwner(g, WINNING_COMBINATIONS))
  }

  /** deriveWinner: scans every win-line without stopping early and keeps the
      name for the last uniformly filled one. */
  method DeriveWinner(gameBoard: array<array<Cell>>, players: Players) returns (winner: Option<string>)
    requires ValidBoard(gameBoard)
    ensures winner == WinnerOf(Snapshot(gameBoard), players)
  {
    ghost var g := Snapshot(gameBoard);
    winner := None;
    for i := 0 to |WINNING_COMBINATIONS|
      invariant winner == NameOf(players, LastOwner(g, WINNING_COMBINATIONS[..i]))
    {
      var combinations := WINNING_COMBINATIONS[i];
      var firstSquareSymbol := gameBoard[combinations.first.row][combinations.first.col];
      var secondSquareSymbol := gameBoard[combinations.second.row][combinations.second.col];
      var thirdSquareSymbol := gameBoard[combinations.third.row][combinations.third.col];
      if firstSquareSymbol.Marked? &&
         firstSquareSymbol == secondSquareSymbol &&
         firstSquareSymbol == thirdSquareSymbol
      {
        winner := NameOf(players, Some(firstSquareSymbol.symbol));
      }
      assert WINNING_COMBINATIONS[..i + 1][..i] == WINNING_COMBINATIONS[..i];
    }
    assert WINNING_COMBINATIONS[..|WINNING_COMBINATIONS|] == WINNING_COMBINATIONS;
  }

  /** LastOwner reports no symbol exactly when no line is filled; otherwise it
      reports the owner of a filled line after which no line is filled. */
  lemma {:induction false} LastOwnerIsLastFilledLine(g: Grid, lines: seq<Line>)
    ensures LastOwner(g, lines) == None <==> forall k :: 0 <= k < |lines| ==> LineOwner(g, lines[k]) == None
    ensures LastOwner(g, lines) != None ==>
      exists k :: 0 <= k < |lines| && LineOwner(g, lines[k]) == LastOwner(g, lines) &&
                  (forall j :: k < j < |lines| ==> LineOwner(g, lines[j]) == None)
  {
    if lines != [] {
      var n := |lines|;
      var prefix := lines[..n - 1];
      LastOwnerIsLastFilledLine(g, prefix);
      assert forall k :: 0 <= k < n - 1 ==> lines[k] == prefix[k];
      if LineOwner(g, lines[n - 1]) != None {
        assert LastOwner(g, lines) == LineOwner(g, lines[n - 1]);
      } else {
        assert LastOwner(g, lines) == LastOwner(g, prefix);
        if LastOwner(g, prefix) != None {
          var k :| 0 <= k < n - 1 && LineOwner(g, prefix[k]) == LastOwner(g, prefix) &&
                   (forall j :: k < j < n - 1 ==> LineOwner(g, prefix[j]) == None);
          assert LineOwner(g, lines[k]) == LastOwner(g, lines);
        }
      }
    }
  }

  /** The winner is the mapped name of the symbol filling the last filled line
      in table order. */
  lemma WinnerIsLastFilledLine(g: Grid, players: Players, k: nat, s: Symbol)
    requires k < |WINNING_COMBINATIONS| && LineOwner(g, WINNING_COMBINATIONS[k]) == Some(s)
    requires forall j :: k < j < |WINNING_COMBINATIONS| ==> LineOwner(g, WINNING_COMBINATIONS[j]) == None
    requires s in players
    ensures WinnerOf(g, players) == Some(players[s])
  {
    LastOwnerIsLastFilledLine(g, WINNING_COMBINATIONS);
    var k' :| 0 <= k' < |WINNING_COMBINATIONS| &&
              LineOwner(g, WINNING_COMBINATIONS[k']) == LastOwner(g, WINNING_COMBINATIONS) &&
              (forall j :: k' < j < |WINNING_COMBINATIONS| ==> LineOwner(g, WINNING_COMBINATIONS[j]) == None);
    assert k' == k;
  }

  /** Whatever name the winner has, it is the registered name of a symbol
      that fills some win-line. */
  lemma WinnerFillsALine(g: Grid, players: Players)
    requires WinnerOf(g, players).Some?
    ensures exists k, s :: 0 <= k < |WINNING_COMBINATIONS| && LineOwner(g, WINNING_COMBINATIONS[k]) == Some(s) &&
                           s in players && WinnerOf(g, players) == Some(players[s])
  {
    LastOwnerIsLastFilledLine(g, WINNING_COMBINATIONS);
  }

  /** With both symbols registered, there is a winner exactly when some
      win-line is uniformly filled. */
  lemma WinnerIffFilledLine(g: Grid, players: Players)
    requires X in players && O in players
    ensures WinnerOf(g, players).Some? <==>
      exists k :: 0 <= k < |WINNING_COMBINATIONS| && LineOwner(g, WINNING_COMBINATIONS[k]).Some?
  {
    LastOwnerIsLastFilledLine(g, WINNING_COMBINATIONS);
    if exists k :: 0 <= k < |WINNING_COMBINATIONS| && LineOwner(g, WINNING_COMBINATIONS[k]).Some? {
      var k :| 0 <= k < |WINNING_COMBINATIONS| && LineOwner(g, WINNING_COMBINATIONS[k]).Some?;
      assert LineOwner(g, WINNING_COMBINATIONS[k]) != None;
      var s := LastOwner(g, WINNING_COMBINATIONS).value;
      assert s in players by {
        if s == X {} else {}
      }
    }
  }

  /** When every filled line belongs to the same symbol s, the scan order does
      not matter and the winner is s's name. */
  lemma SoleWinningSymbol(g: Grid, players: Players, k: nat, s: Symbol)
    requires k < |WINNING_COMBINATIONS| && LineOwner(g, WINNING_COMBINATIONS[k]) == Some(s)
    requires forall j :: 0 <= j < |WINNING_COMBINATIONS| ==> LineOwner(g, WINNING_COMBINATIONS[j]) in {None, Some(s)}
    requires s in players
    ensures WinnerOf(g, players) == Some(players[s])
  {
    LastOwnerIsLastFilledLine(g, WINNING_COMBINATIONS);
  }

  /** The all-null board has no winner. */
  lemma EmptyBoardHasNoWinner(players: Players)
    ensures WinnerOf(INITIAL_GAME_BOARD, players) == None
  {
    LastOwnerIsLastFilledLine(INITIAL_GAME_BOARD, WINNING_COMBINATIONS);
  }

  /** The scan does not stop at the first match: on a board where X fills the
      top row and O the bottom row, the later line (O's) decides. */
  lemma LaterLineWins()
    ensures WinnerOf([[Marked(X), Marked(X), Marked(X)],
                      [Empty, Empty, Empty],
                      [Marked(O), Marked(O), Marked(O)]], PLAYERS) == Some("Player 2")
  {
    var g: Grid := [[Marked(X), Marked(X), Marked(X)],
                    [Empty, Empty, Empty],
                    [Marked(O), Marked(O), Marked(O)]];
    WinnerIsLastFilledLine(g, PLAYERS, 2, O);
  }
}
