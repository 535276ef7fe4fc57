# Tic-tac-toe game engine

A Dafny model of the game logic inside the `App` component of a browser
tic-tac-toe game with move history and time travel. The model covers:

- the 3×3 board of cells (empty, `X` or `O`);
- the win check, which scans a table of eight lines in a fixed order over the
  row-major flattening of the board;
- a click on a cell, which marks the cell, passes the turn, appends a snapshot
  to the history and selects the cell;
- a jump back to a history entry, which cuts the history there and restores
  that entry's board, turn and selection;
- the status line ("Winner: X", "Draw", "Next player: O") and the winning
  line derived from the state;
- which cells are highlighted.

Files:

- `board.dfy`, module `Board`: cells, boards, `CreateMatrix`, the flattening,
  the line table, the win check as a function (`WinnerOf`) and as the loop
  the program runs (`CalculateWinner`), and a reference statement of the win
  rule in grid coordinates (`ReferenceWinner`). The two are proved equal.
- `game.dfy`, module `Game`: the state (`matrix`, `history`, `xPlayer`,
  `selected`), the click and the jump as functions of the state (`Click`,
  `Jump`), the derived view (`DeriveView`) and the invariant of reachable
  states (`ValidState`). The class `Game` holds the state in fields. Its
  methods `HandleClick` and `JumpTo` are proved to change the state as
  `Click` and `Jump` say.
- `scenarios.dfy`, module `Scenarios`: two whole games played through the
  class. One is won by X on the top row; in it a further click is ignored and
  a jump to the start resets the game. The other ends in a draw.

The history and the boards are values (`seq<seq<Cell>>`), so each snapshot
is independent of the current board and of every other snapshot. The program
gets the same isolation by deep-copying through JSON. The win check takes
its board by value and cannot change it.

The program has no error results. It ignores a click on a board that
already has a winner. Its view attaches click handlers only to empty cells,
and they only ever carry coordinates 0–2. In the model these become the
preconditions of `Click`/`HandleClick`: the cell is on the board and empty.
A jump is only offered for entries of the history, which becomes the
precondition `move < |history|`.

The program shows "Draw" when there is no winner and the history has 10
entries. `DrawIffFullWithoutLine` proves that on every reachable state this
is exactly a full board with no line of three.

## Model

| member | source | states |
|---|---|---|
| Board.CreateMatrix | src/App.js:4-6 | the result is an n×n grid and every cell is empty |
| Board.Place | src/App.js:127-132 | writing a mark gives a 3×3 board with that mark at (row, col) and every other cell unchanged; the input board is a value and is left as it was |
| Board.FlatBoard | src/App.js:62 | the row-major flattening of a 3×3 board has nine cells, with cell (r, c) at position r*3 + c |
| Board.FlattenIndex | src/App.js:62 | for any board with rows of length n, cell (r, c) is at position r*n + c of the flattening |
| Board.FirstLine | src/App.js:78-86 | the scan from line i returns the first complete line at or after i, or the table length if none is complete |
| Board.WinnerOf | src/App.js:59-88 | no winner exactly when none of the 8 lines has three equal non-empty cells; otherwise the reported line is the first complete line of the table, its three flattened cells all hold the reported mark, and that mark is not empty |
| Board.CalculateWinner | src/App.js:59-88 | the loop over the line table, returning at the first complete line, gives exactly what `WinnerOf` specifies |
| Board.WinnerOfIsReference | src/App.js:65-85 | the table scan equals the rule stated on the grid: first complete row, else first complete column, else the main diagonal, else the anti-diagonal, with the same mark and line |
| Board.NoWinnerIffNoThreeInARow | src/App.js:78-87 | no winner is reported exactly when no row, column or diagonal holds three equal marks |
| Board.WinningLineOnGrid | src/App.js:62-84 | every position r*3 + c of a reported line is a grid cell holding the winning mark |
| Board.PlaceFills | src/App.js:132 | marking an empty cell raises the number of marks on the board by one |
| Board.FilledBoard | src/App.js:113-116 | a board holds at most nine marks, and nine exactly when it is full |
| Game.Click | src/App.js:126-159 | on a board with a winner the state is unchanged; otherwise the mover's mark (X if xPlayer, else O) is written into exactly (row, col), all other cells stay, the turn flips, the selection becomes (row, col), and the history gains exactly one entry (the move and the new board) with earlier entries unchanged |
| Game.ClickPreservesValid | src/App.js:126-159 | a click on an empty cell of a reachable state gives a reachable state: each history entry follows the previous one by one legal, alternating move, and the current board, turn and selection match the last entry |
| Game.ClickCountsOneMove | src/App.js:136-156 | an accepted move adds one mark, and the history stays one entry longer than the number of moves played |
| Game.HistoryCountsMoves | src/App.js:94-156 | in a reachable history entry i holds a 3×3 board with exactly i marks, so there are at most ten entries |
| Game.FirstMoveIsX | src/App.js:105 | in a reachable history with at least one move, the first move is made with X |
| Game.TurnsAlternate | src/App.js:131-135 | no two consecutive moves of a reachable history use the same mark |
| Game.Jump | src/App.js:161-171 | the history becomes its first k+1 entries, the board becomes entry k's, X is not to move exactly when entry k's play was X, and the selection becomes entry k's cell (none for the first entry) |
| Game.JumpPreservesValid | src/App.js:161-171 | a jump from a reachable state gives a reachable state, and X moves next exactly when k is even (after the initial entry, whose play is empty, X moves) |
| Game.JumpIdempotent | src/App.js:161-171 | jumping to entry k twice gives the same state as jumping once |
| Game.JumpToStart | src/App.js:161-171 | jumping to entry 0 from a reachable state gives the starting state: empty board, history of one entry, X to move, nothing selected |
| Game.JumpRestoresEntry | src/App.js:162-168 | after a jump to k the history is its first k+1 entries and the board is entry k's, a 3×3 board with k marks |
| Game.DeriveView | src/App.js:110-124 | the status is "Winner: w", with the reported line as the win line, exactly when some line holds three equal marks, even with 10 history entries; "Draw" exactly when there is no such line and the history has 10 entries; otherwise "Next player" with the mark given by xPlayer; the win line is empty unless there is a winner |
| Game.StatusLine | src/App.js:113-122 | the status text is "Winner: X" or "Winner: O" (the reported mark) whenever a line holds three equal marks, whatever the history length; otherwise "Draw" with ten history entries; otherwise "Next player: X" or "Next player: O" according to xPlayer |
| Game.DrawIffFullWithoutLine | src/App.js:113-116 | in a reachable state the status is "Draw" exactly when the board is full and no line holds three equal marks |
| Game.HighlightShowsWinningLine | src/App.js:28-35 | `IsHighlighted`, the test of `getSelected`, is true exactly when the cell is the selected one or its position r*3 + c is on the line `WinnerOf` reports; every such line cell holds the winning mark |
| Game.StartIsValid | src/App.js:93-108 | the starting state (empty board, one history entry with no move, X to move, nothing selected) satisfies the invariant of reachable states |
| Game.Game.constructor | src/App.js:93-108 | the new game has an empty board, one history entry (no move, an empty board), X to move and nothing selected, and it is valid |
| Game.Game.HandleClick | src/App.js:126-159 | the new state is `Click` of the old state; it stays valid, and nothing changes when the board already had a winner |
| Game.Game.JumpTo | src/App.js:161-171 | the new state is `Jump` of the old state: the history is its first move+1 entries, the board is that entry's, xPlayer is false exactly when that entry's play was X, the selection is that entry's cell, and the state stays valid |

## Left out

- Rendering: `Square`, the markup of `Board` and of `App`, and the labels of the move-list buttons (src/App.js:8-17, 37-56, 175-205). They only present the state.
- React's state setters and effect scheduling. The status and winning line are the function `DeriveView` of the state. The status text that `jumpTo` sets (src/App.js:172) is overwritten by that effect, so it has no member of its own.
- The JSON deep copy of history entries. Value semantics give the same isolation. The shared rows of the shallow copy `[...matrix]` are not modelled; no state the program keeps can observe them.
- The "no winner" win line is `Array(3).fill(null)` in the program and `[]` in the model. Neither contains a cell position, so the same cells are highlighted.
- Game.Game.HandleClick: requires the class invariant `Valid()`, which the program never checks. The constructor establishes it and every method keeps it.
- Game.Game.JumpTo: likewise requires `Valid()`, and it takes the entry number only, since the program always passes the entry at that number as its `step` argument.
- CSS and the module's import and export lines.
