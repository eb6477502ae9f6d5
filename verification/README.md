# Tic-tac-toe game-state derivation

A Dafny model of the rules of a two-player 3x3 tic-tac-toe web app. The app keeps
one source of truth, the history of turns, most recent first. On every render it
derives four things from that history and the symbol-to-name registry:

- the player to move (`deriveActivePlayer`);
- the board (`deriveGameBoard`), rebuilt from a fresh copy of an all-null template;
- the winner's name (`deriveWinner`), found by scanning eight fixed win-lines;
- the draw flag (`hasDraw`): nine turns and no winner.

Two update rules produce new values. `handleSwitchPlayer` puts a new turn at the
head of the history. `handlePlayerNameChange` replaces one entry of the registry.

Modules, one per part of the derivation:

- `Game` (`game.dfy`) holds the values. These are the symbols `X` and `O`, squares
  with indices 0..2, turns, cells (`Empty` for the source's `null`) and board
  values (`Grid`). It also holds the registry type, the initial names
  `PLAYERS` and the template `INITIAL_GAME_BOARD`.
- `Turns` (`turns.dfy`) models `deriveActivePlayer` and `handleSwitchPlayer` as
  functions. `Alternates` is a counting rule for who made each turn, independent
  of the head-based rule. `Play` gives the history produced by a sequence of
  selections after a restart.
- `Board` (`board.dfy`) models `deriveGameBoard` as a method. It copies the
  template row by row into a new `array<array<Cell>>` and writes each turn in a
  `for` loop. `CellAt` is the reference definition of a cell: the symbol of the
  oldest turn naming the square, or `Empty`. `BoardOf` is the whole board as a
  value, and `Snapshot` reads a board in memory as a value.
- `Winner` (`winner.dfy`) models `deriveWinner` as a method. Its loop scans the
  win-line table and overwrites the result at every filled line. `LineOwner` is
  the symbol filling one line. `LastOwner` is the owner of the last filled line
  in table order, and `WinnerOf` is its registered name.
- `Registry` (`registry.dfy`) models `handlePlayerNameChange`.
- `App` (`app.dfy`) holds the draw flag and one render's derivation
  (`DeriveState`). It also holds the draw flag as written (see Findings), the
  lemmas connecting the parts, and concrete games.

The win-line table lives in `src/components/winning_combinations.js`, which is
not part of this model. `Winner.WINNING_COMBINATIONS` defines it as the three
rows, then the three columns, then the two diagonals. The order only matters on
a board where two lines are filled.

## Model

| member | source | states |
|---|---|---|
| `Turns.DeriveActivePlayer` | src/App.jsx:27-34 | X moves first on an empty history; otherwise the active player is the opponent of the head (most recent) turn's player |
| `Turns.HandleSwitchPlayer` | src/App.jsx:109-117 | the new history is one turn longer; its head is the selected square with the player to move; its tail is the previous history unchanged; the player to move flips |
| `Turns.Play` | src/App.jsx:109-117 | selecting n squares after a restart gives n turns, the newest first, each on its selected square |
| `Turns.ActivePlayerByParity` | src/App.jsx:27-34 | on an alternating history the head rule agrees with counting: X after an even number of turns, O after an odd number |
| `Turns.SwitchPreservesAlternation` | src/App.jsx:109-117 | adding a turn keeps a history alternating |
| `Turns.PlayAlternates` | src/App.jsx:109-117 | a history built only by selections from a restart alternates X, O, X, ... from oldest to newest |
| `Turns.PlayedActivePlayer` | src/App.jsx:27-34 | after n selections from a restart X is to move exactly when n is even, and the opening turn is X's |
| `Board.CopyRow` | src/App.jsx:42 | copying a template row gives a new array with the same cells |
| `Board.DeriveGameBoard` | src/App.jsx:41-50 | the board is a new 3x3 array whose three rows are new and distinct, so neither the template nor an earlier board is written; every cell equals `CellAt` of the history |
| `Board.CellEmptyIffUntouched` | src/App.jsx:43-48 | a cell stays null exactly when no turn names its square |
| `Board.CellOfOldestTurn` | src/App.jsx:43-48 | the last write wins: a cell holds the symbol of the oldest turn naming it, even when newer turns name it too |
| `Board.MarkedCellComesFromOldestTurn` | src/App.jsx:43-48 | a symbol in a cell comes from a turn of the history at that square, with no older turn at that square |
| `Board.CellWithDistinctSquares` | src/App.jsx:43-48 | with distinct squares, a cell holds p exactly when the history has p's turn at that square |
| `Board.MarkedSquaresAreTurnSquares` | src/App.jsx:41-50 | the non-null cells of the board are exactly the squares the history names |
| `Board.BoardCountsTurns` | src/App.jsx:41-50 | with distinct squares, the board has exactly as many non-null cells as the history has turns, and the history has at most nine turns |
| `Board.PrependTurn` | src/App.jsx:43-48 | a new head turn shows only on a square no older turn names |
| `Winner.LineOwner` | src/App.jsx:64-70 | a line has an owner exactly when its three cells hold the same symbol, and the owner is that symbol |
| `Winner.NameOf` | src/App.jsx:71 | the name is defined exactly for a symbol the registry holds, and it is that symbol's registered name |
| `Winner.DeriveWinner` | src/App.jsx:61-75 | the scan over every line returns `WinnerOf` of the board's current contents |
| `Winner.LastOwnerIsLastFilledLine` | src/App.jsx:63-72 | there is no owner exactly when no line is filled; otherwise the owner fills some line after which no line in the table is filled |
| `Winner.WinnerIsLastFilledLine` | src/App.jsx:61-75 | the winner is the registered name of the symbol filling the last filled line in table order |
| `Winner.WinnerFillsALine` | src/App.jsx:61-75 | any reported winner is the registered name of a symbol that fills some win-line |
| `Winner.WinnerIffFilledLine` | src/App.jsx:61-75 | with both symbols registered, there is a winner exactly when some win-line is uniformly filled |
| `Winner.SoleWinningSymbol` | src/App.jsx:63-72 | when all filled lines belong to one symbol, the scan order does not matter and that symbol's name is returned |
| `Winner.EmptyBoardHasNoWinner` | src/App.jsx:61-75 | the all-null board has no winner |
| `Winner.LaterLineWins` | src/App.jsx:63-72 | the scan does not stop at the first match: with X on the top row and O on the bottom row, O's name is returned |
| `Registry.HandlePlayerNameChange` | src/App.jsx:94-101 | the edited symbol maps to the new name; every other entry is kept; no other key is added |
| `Registry.EditsKeepBothSymbols` | src/App.jsx:94-101 | starting from the initial names, any sequence of edits keeps an entry for both X and O |
| `App.HasDraw` | src/App.jsx:82-83 | a draw never has a winner |
| `App.HasDrawAsWritten` | src/App.jsx:82-83 | the flag as written never reports a draw; it throws a ReferenceError exactly on the ninth turn |
| `App.DeriveState` | src/App.jsx:80-83 | one render gives the active player, a new board holding `BoardOf` the history, the winner of that board, and then the draw flag from the winner |
| `App.DrawIffFullWithoutFilledLine` | src/App.jsx:82-83 | with both symbols registered, a draw happens exactly when there are nine turns and no filled line, so a full board with a filled line is not a draw |
| `App.RenameChangesOnlyWinnerName` | src/App.jsx:94-101 | renaming changes only the name reported for a win by the renamed symbol; whether there is a winner does not change |
| `App.SwitchOnFreeSquare` | src/App.jsx:109-117 | selecting a free square shows the mover's symbol there and changes no other cell |
| `App.SwitchOnOccupiedSquare` | src/App.jsx:109-117 | selecting an occupied square leaves the board unchanged, because the older turn is written last |
| `App.PlayedBoard` | src/App.jsx:109-117 | in a game on distinct squares, the k-th selected square shows X for even k and O for odd k |
| `App.RestartedGame` | src/App.jsx:85-87 | after a restart X is to move, the board is the all-null template, and there is no winner and no draw |
| `App.OpeningMove` | src/App.jsx:27-34 | after X opens at (0, 0), O is to move and the board shows X at (0, 0) only |
| `App.DiagonalWin` | src/App.jsx:41-75 | a six-turn history rebuilds the board with O on the anti-diagonal, and O wins under the initial name "Player 2" |
| `App.DrawnGame` | src/App.jsx:41-83 | a nine-turn history rebuilds a full board with no filled line; it is a draw under the corrected flag, while the flag as written throws |

## Findings

| source | as written | input that shows it | evidently intended | confidence | as-written member | corrected member |
|---|---|---|---|---|---|---|
| src/App.jsx:82-83 | `hasDraw` reads `winner` on line 82, but `const winner` is only declared on line 83. `&&` reaches `!winner` only when there are nine turns, and there reading the uninitialised `const` throws a ReferenceError. So no draw is ever reported, and the ninth move of any game throws. | any history of nine turns, e.g. the drawn game in `App.DrawnGame` | compute the winner first, then the flag: nine turns and no winner | high; not executed | `App.HasDrawAsWritten` | `App.HasDraw` |

`App.DeriveState` and all lemmas about the draw use the corrected order.

## Left out

- Rendering is left out as presentation code. This covers the JSX, the React state hooks (`useState` and the state setters), the `GameBoard`, `GameOver` and `Log` components, and `src/components/PlayerInfo.jsx` (local edit state and text input). So is the game-over gate `winner || hasDraw` on line 137.
- `handleRestart` (lines 85-87) only resets the history to empty. It appears only as the empty history (`App.RestartedGame`).
- `src/components/winning_combinations.js` is not part of this model. The table is defined as described above.
- The empty stub `deriveWinner` at lines 58-60 is replaced by the later declaration, which is the one modelled.
- Move legality is not modelled. The core checks neither occupancy nor play after a win. The model admits any history and proves the distinct-squares facts under that assumption.
- Square indices have the type `Coord` (0..2). The board component only passes such indices. An out-of-range index would make the source throw, or grow a row array.
- A turn's player is one of two symbols. The source stores strings that only `deriveActivePlayer` produces.
- HasDraw: tests for an absent winner. The source's `!winner` would also treat a registered name equal to the empty string as no winner. That truthiness is not modelled.
