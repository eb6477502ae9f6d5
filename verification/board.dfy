/** Board reconstruction: a fresh copy of the empty template, then each turn's
    symbol written into its cell, from the head of the history (newest) to the
    tail (oldest), so that the oldest write to a square is the one that stays. */
module Board {
  import opened Game

  /** The cell at `sq` once every turn of `gameTurns` has been written, head
      first: the symbol of the last turn in the list (the oldest) that names
      `sq`, or Empty when none does. */
  function CellAt(gameTurns: seq<Turn>, sq: Square): Cell
  {
    if gameTurns == [] then Empty
    else if gameTurns[|gameTurns| - 1].square == sq then Marked(gameTurns[|gameTurns| - 1].player)
    else CellAt(gameTurns[..|gameTurns| - 1], sq)
  }

  /** The reconstructed board as a value. */
  function BoardOf(gameTurns: seq<Turn>): (g: Grid)
    ensures forall sq: Square :: At(g, sq) == CellAt(gameTurns, sq)
  {
    seq(3, r requires 0 <= r < 3 => seq(3, c requires 0 <= c < 3 => CellAt(gameTurns, Square(r, c))))
  }

  /** A board in memory: three rows of three cells. */
  ghost predicate ValidBoard(gameBoard: array<array<Cell>>)
    reads gameBoard
  {
    gameBoard.Length == 3 && forall r :: 0 <= r < 3 ==> gameBoard[r].Length == 3
  }

  /** The value a board in memory currently holds. */
  ghost function Snapshot(gameBoard: array<array<Cell>>): (g: Grid)
    requires ValidBoard(gameBoard)
    reads gameBoard, gameBoard[..]
    ensures forall sq: Square :: At(g, sq) == gameBoard[sq.row][sq.col]
  {
    [gameBoard[0][..], gameBoard[1][..], gameBoard[2][..]]
  }

  /** `[...array]`: a new array holding the cells of one row. */
  method CopyRow(row: seq<Cell>) returns (copy: array<Cell>)
    ensures fresh(copy) && copy[..] == row
  {
    copy := new Cell[|row|](i requires 0 <= i < |row| => row[i]);
  }

  /** deriveGameBoard: copies the template row by row into a new board and
      writes each turn into it. The result shares no row with anything that
      existed before the call, so neither the template nor an earlier board is
      ever written. */
  method DeriveGameBoard(gameTurns: seq<Turn>) returns (gameBoard: array<array<Cell>>)
    ensures fresh(gameBoard) && ValidBoard(gameBoard)
    ensures forall r :: 0 <= r < 3 ==> fresh(gameBoard[r])
    ensures gameBoard[0] != gameBoard[1] && gameBoard[0] != gameBoard[2] && gameBoard[1] != gameBoard[2]
    ensures forall sq: Square :: gameBoard[sq.row][sq.col] == CellAt(gameTurns, sq)
    ensures Snapshot(gameBoard) == BoardOf(gameTurns)
  {
    var row0 := CopyRow(INITIAL_GAME_BOARD[0]);
    var row1 := CopyRow(INITIAL_GAME_BOARD[1]);
    var row2 := CopyRow(INITIAL_GAME_BOARD[2]);
    gameBoard := new array<Cell>[3][row0, row1, row2];
    for i := 0 to |gameTurns|
      invariant gameBoard[..] == [row0, row1, row2]
      invariant forall sq: Square :: gameBoard[sq.row][sq.col] == CellAt(gameTurns[..i], sq)
    {
      var turn := gameTurns[i];
      var row, col := turn.square.row, turn.square.col;
      gameBoard[row][col] := Marked(turn.player);
      assert gameTurns[..i + 1][..i] == gameTurns[..i];
    }
    assert gameTurns[..|gameTurns|] == gameTurns;
    assert Snapshot(gameBoard) == BoardOf(gameTurns) by {
      var g, h := Snapshot(gameBoard), BoardOf(gameTurns);
      forall r | 0 <= r < 3 ensures g[r] == h[r] {
        forall c | 0 <= c < 3 ensures g[r][c] == h[r][c] {
          assert At(g, Square(r, c)) == At(h, Square(r, c));
        }
      }
    }
  }

  /** The squares some turn of the history names. */
  ghost function SquaresOf(gameTurns: seq<Turn>): set<Square>
  {
    set i | 0 <= i < |gameTurns| :: gameTurns[i].square
  }

  /** The nine squares of the board. */
  const ALL_SQUARES: set<Square> :=
    {Square(0, 0), Square(0, 1), Square(0, 2),
     Square(1, 0), Square(1, 1), Square(1, 2),
     Square(2, 0), Square(2, 1), Square(2, 2)}

  lemma AllSquaresListed(sq: Square)
    ensures sq in ALL_SQUARES
  {
    assert sq.row == 0 || sq.row == 1 || sq.row == 2;
    assert sq.col == 0 || sq.col == 1 || sq.col == 2;
  }

  /** The squares a board value shows a symbol in: its non-null cells. */
  ghost function MarkedSquares(g: Grid): set<Square>
  {
    set sq | sq in ALL_SQUARES && At(g, sq).Marked?
  }

  /** No square is named by two turns of the history. */
  ghost predicate DistinctSquares(gameTurns: seq<Turn>)
  {
    forall i, j :: 0 <= i < j < |gameTurns| ==> gameTurns[i].square != gameTurns[j].square
  }

  lemma SquaresOfLast(gameTurns: seq<Turn>)
    requires gameTurns != []
    ensures SquaresOf(gameTurns) ==
      SquaresOf(gameTurns[..|gameTurns| - 1]) + {gameTurns[|gameTurns| - 1].square}
  {
    var n := |gameTurns|;
    var prefix := gameTurns[..n - 1];
    forall sq | sq in SquaresOf(gameTurns) ensures sq in SquaresOf(prefix) + {gameTurns[n - 1].square} {
      var i :| 0 <= i < n && gameTurns[i].square == sq;
      if i < n - 1 {
        assert prefix[i].square == sq;
      }
    }
    forall sq | sq in SquaresOf(prefix) ensures sq in SquaresOf(gameTurns) {
      var i :| 0 <= i < n - 1 && prefix[i].square == sq;
      assert gameTurns[i].square == sq;
    }
  }

  /** A cell stays null exactly when no turn names its square. */
  lemma {:induction false} CellEmptyIffUntouched(gameTurns: seq<Turn>, sq: Square)
    ensures CellAt(gameTurns, sq) == Empty <==> sq !in SquaresOf(gameTurns)
  {
    if gameTurns != [] {
      CellEmptyIffUntouched(gameTurns[..|gameTurns| - 1], sq);
      SquaresOfLast(gameTurns);
    }
  }

  /** The last write wins: a cell holds the symbol of the oldest turn that
      names its square, even when newer turns name it too. */
  lemma {:induction false} CellOfOldestTurn(gameTurns: seq<Turn>, i: nat)
    requires i < |gameTurns|
    requires forall j :: i < j < |gameTurns| ==> gameTurns[j].square != gameTurns[i].square
    ensures CellAt(gameTurns, gameTurns[i].square) == Marked(gameTurns[i].player)
  {
    var n := |gameTurns|;
    if i < n - 1 {
      CellOfOldestTurn(gameTurns[..n - 1], i);
    }
  }

  /** A symbol in a cell was written there by a turn of the history, namely
      the oldest turn naming that square. */
  lemma {:induction false} MarkedCellComesFromOldestTurn(gameTurns: seq<Turn>, sq: Square)
    requires CellAt(gameTurns, sq) != Empty
    ensures exists i :: 0 <= i < |gameTurns| && gameTurns[i] == Turn(sq, CellAt(gameTurns, sq).symbol) &&
                        (forall j :: i < j < |gameTurns| ==> gameTurns[j].square != sq)
  {
    var n := |gameTurns|;
    if gameTurns[n - 1].square != sq {
      var prefix := gameTurns[..n - 1];
      MarkedCellComesFromOldestTurn(prefix, sq);
      var i :| 0 <= i < n - 1 && prefix[i] == Turn(sq, CellAt(prefix, sq).symbol) &&
               (forall j :: i < j < n - 1 ==> prefix[j].square != sq);
      assert gameTurns[i] == prefix[i];
    } else {
      assert gameTurns[n - 1] == Turn(sq, CellAt(gameTurns, sq).symbol);
    }
  }

  /** With distinct squares, a cell holds p exactly when the history has the
      turn of p at that square. */
  lemma CellWithDistinctSquares(gameTurns: seq<Turn>, sq: Square, p: Symbol)
    requires DistinctSquares(gameTurns)
    ensures CellAt(gameTurns, sq) == Marked(p) <==> Turn(sq, p) in gameTurns
  {
    if CellAt(gameTurns, sq) == Marked(p) {
      MarkedCellComesFromOldestTurn(gameTurns, sq);
    }
    if Turn(sq, p) in gameTurns {
      var i :| 0 <= i < |gameTurns| && gameTurns[i] == Turn(sq, p);
      CellOfOldestTurn(gameTurns, i);
    }
  }

  /** The non-null cells of the reconstructed board are exactly the squares
      the history names. */
  lemma MarkedSquaresAreTurnSquares(gameTurns: seq<Turn>)
    ensures MarkedSquares(BoardOf(gameTurns)) == SquaresOf(gameTurns)
  {
    var g := BoardOf(gameTurns);
    forall sq: Square ensures sq in MarkedSquares(g) <==> sq in SquaresOf(gameTurns) {
      CellEmptyIffUntouched(gameTurns, sq);
      AllSquaresListed(sq);
    }
  }

  /** A history of distinct squares names as many squares as it has turns. */
  lemma {:induction false} DistinctSquaresCount(gameTurns: seq<Turn>)
    requires DistinctSquares(gameTurns)
    ensures |SquaresOf(gameTurns)| == |gameTurns|
  {
    if gameTurns != [] {
      var n := |gameTurns|;
      var prefix := gameTurns[..n - 1];
      DistinctSquaresCount(prefix);
      SquaresOfLast(gameTurns);
      assert gameTurns[n - 1].square !in SquaresOf(prefix);
    }
  }

  /** With distinct squares, the reconstructed board has exactly as many
      non-null cells as the history has turns, so such a history has at most
      nine turns. */
  lemma BoardCountsTurns(gameTurns: seq<Turn>)
    requires DistinctSquares(gameTurns)
    ensures |MarkedSquares(BoardOf(gameTurns))| == |gameTurns|
    ensures |gameTurns| <= 9
  {
    MarkedSquaresAreTurnSquares(gameTurns);
    DistinctSquaresCount(gameTurns);
    var marked := MarkedSquares(BoardOf(gameTurns));
    assert |ALL_SQUARES| == 9;
    assert |ALL_SQUARES - marked| + |marked| == |ALL_SQUARES|;
  }

  /** A new turn at the head of the history is written first, so it shows only
      on a square no older turn names. */
  lemma {:induction false} PrependTurn(t: Turn, gameTurns: seq<Turn>, sq: Square)
    ensures CellAt([t] + gameTurns, sq) ==
      if CellAt(gameTurns, sq) != Empty then CellAt(gameTurns, sq)
      else if t.square == sq then Marked(t.player)
      else Empty
  {
    if gameTurns == [] {
      assert ([t] + gameTurns)[..0] == [];
    } else {
      var n := |gameTurns|;
      assert ([t] + gameTurns)[..n] == [t] + gameTurns[..n - 1];
      PrependTurn(t, gameTurns[..n - 1], sq);
    }
  }
}
