/** The values the game's derivations work on: symbols, squares, turns,
    board cells, board snapshots and the player registry. */
module Game {

  /** The conventional Some/None wrapper; None plays the part of JavaScript's
      `undefined`. */
  datatype Option<+T> = None | Some(value: T)

  /** A player's mark. */
  datatype Symbol = X | O

  /** A zero-based row or column index of the 3x3 board. */
  type Coord = i: int | 0 <= i < 3

  /** A board position, `{row, col}` in a turn and `{row, column}` in the
      win-line table. */
  datatype Square = Square(row: Coord, col: Coord)

  /** One move: the square selected and the symbol of the player who selected it. */
  datatype Turn = Turn(square: Square, player: Symbol)

  /** A board cell: `null` while nobody has played it, otherwise a symbol. */
  datatype Cell = Empty | Marked(symbol: Symbol)

  /** A board snapshot as a value: three rows of three cells. */
  type Grid = g: seq<seq<Cell>> | |g| == 3 && forall r :: 0 <= r < 3 ==> |g[r]| == 3
    witness [[Empty, Empty, Empty], [Empty, Empty, Empty], [Empty, Empty, Empty]]

  /** The cell of `g` at `sq`, `gameBoard[row][col]`. */
  function At(g: Grid, sq: Square): Cell
  {
    g[sq.row][sq.col]
  }

  /** The all-null template every board derivation copies. */
  const INITIAL_GAME_BOARD: Grid :=
    [[Empty, Empty, Empty],
     [Empty, Empty, Empty],
     [Empty, Empty, Empty]]

  /** The symbol-to-name registry. */
  type Players = map<Symbol, string>

  /** The names the registry starts with. */
  const PLAYERS: Players := map[X := "Player 1", O := "Player 2"]
}
