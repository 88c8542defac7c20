# Connect Four rules engine, in Dafny

This project models the rules engine of a browser Connect Four game: two
players take turns dropping pieces into a 7-wide, 6-tall board, and the first
to get four in a row horizontally, vertically or diagonally wins. The source
keeps its state in two globals, `board` (rows of `null`, 1 or 2) and
`currPlayer`. Clicks reach it through the HTML table. Here the state is a
value, `Game.GameState`, and every operation is a pure function of it.

Modules:

- `Grid` holds cells, the board shape, `makeBoard`, the one-cell write, the
  full-board test, the source's tie test, and the gravity invariant.
- `Drop` holds `findSpotForCol`, which finds the lowest empty row of a column.
- `FourInARow` holds `checkForWin` and `_win`, plus facts about wins: an
  opponent cannot win on your move, wins are never lost, and wins are
  mirror-symmetric.
- `Game` holds the game state, the non-DOM part of `handleClick`, the effect
  of `endGame` (input switched off), and the reset button. It also proves a
  state invariant that holds along any sequence of clicks and resets.
- `TieFinding` holds the tie test as the source writes it, plus a drawn
  position on which that test fails.

Both copies of the engine are modelled by the same members. `connect4.js` is
the older copy and `scripts/connect4.js` the newer one. Their rules are the
same. The older `makeBoard` reads `HEIGHT` and `WIDTH` directly instead of
taking them as arguments. Its `_win` tests the bounds in a different order,
and the result is the same.

Grid, drop and win detection are written for any height `h` and width `w`.
The game fixes `HEIGHT = 6` and `WIDTH = 7`, as the source does. The source's
`findSpotForCol` scans table rows 6 down to 1. Table row 0 holds the column
tops, so table row `i` is board row `i - 1`. `Drop.FindSpotForCol` performs
the same scan from the board's own height.

`FourInARow.Owns` tests that a coordinate is on the board before it reads the
cell. Dafny checks every sequence index, so the model shows that win
detection never reads a cell off the board.

## Model

| member | source | states |
|---|---|---|
| Grid.MakeBoard | scripts/connect4.js:24-32 | the board built has exactly `height` rows of exactly `width` cells, and every cell is empty |
| Grid.EmptyBoard | connect4.js:17-24 | the board the game starts from and resets to has the HEIGHT by WIDTH shape with every cell empty |
| Grid.Place | scripts/connect4.js:48-49 | writing `board[y][x]` sets that cell to the given value, keeps the board's shape, and leaves every other cell as it was |
| Grid.SourceTieNeverHolds | scripts/connect4.js:60-66 | the tie test as written is false on every board of the game's shape, full or not |
| Drop.ScanUp | scripts/connect4.js:114-123 | the bottom-up scan returns an empty row with every row below it (up to where the scan began) occupied, and returns nothing exactly when every scanned cell is occupied |
| Drop.DropRow | scripts/connect4.js:109-124 | the landing row is empty and has every cell below it in the column occupied, so it is the lowest empty row; nothing is returned exactly when the whole column is occupied |
| Drop.FindSpotForCol | connect4.js:101-116 | the loop over table rows from the bottom returns the same answer as the lowest-empty-row function |
| Drop.FullIffTopOccupied | scripts/connect4.js:109-124 | on a board obeying gravity, a column has no landing row exactly when its top cell is occupied |
| Drop.DropRowIsTopOfStack | scripts/connect4.js:39-49 | on a board obeying gravity, every cell from the top of the column down to the landing row is empty |
| Drop.DropKeepsGravity | scripts/connect4.js:40-49 | putting a piece in the landing row keeps gravity in every column: no empty cell lies below an occupied one |
| FourInARow.CheckForWin | scripts/connect4.js:160-213 | the row-by-row scan with early return yields true exactly when some cell starts four cells of the player to the right, downward, down-right or down-left, all on the board |
| FourInARow.NoWinForOpponent | scripts/connect4.js:161-172 | a piece of one player never completes four in a row for another player, so checking only `currPlayer` after a move misses no win |
| FourInARow.WinSurvivesPlacement | connect4.js:153-182 | filling an empty cell never destroys an existing four in a row |
| FourInARow.MirrorMapsRuns | scripts/connect4.js:179-202 | a run starting at (y, x) reappears in the left-right mirror image: a horizontal run starts at (y, w-4-x) and stays horizontal, a vertical one starts at (y, w-1-x) and stays vertical, and a down-right run becomes a down-left run from (y, w-1-x) and the other way round |
| FourInARow.MirrorKeepsWin | connect4.js:172-177 | every run on the board, in each of the four directions, reappears reflected in the mirror image as above, so a win on the board is a win on its mirror image |
| FourInARow.WinMirrorSymmetric | connect4.js:153-182 | a player has four in a row on a board exactly when they have it on its mirror image |
| Game.Flip | scripts/connect4.js:70-71 | the turn switch always yields player 1 or 2, and hands the turn to the other player when the mover is 1 or 2 |
| Game.FlipTwice | connect4.js:62-63 | switching turns twice gives the turn back to the same player |
| Game.NewGame | connect4.js:11-24 | the game starts with an empty HEIGHT by WIDTH board, player 1 to move, input on |
| Game.Settle | scripts/connect4.js:51-71 | after the piece is placed: the game ends with the mover as winner exactly when they have four in a row; it ends in a tie exactly when they have none and the tie test holds; it stays in play exactly when neither holds; the turn stays with the mover when the game ends and flips when it goes on |
| Game.Click | scripts/connect4.js:35-72 | a click on a finished game or a full column changes nothing; otherwise exactly one cell changes, the lowest empty cell of the column, to `currPlayer`; the game is won exactly on four in a row for the mover, tied exactly on a full board with no such run, and stays in play exactly when neither holds, in which case the turn is flipped; on a win or tie the turn stays with the mover |
| Game.Reset | scripts/connect4.js:241-253 | reset gives an empty HEIGHT by WIDTH board and switches input back on, leaving `currPlayer` unchanged |
| Game.EmptyHasNoWin | scripts/connect4.js:243-244 | a freshly built board has no four in a row for anyone |
| Game.NewGameValid | scripts/connect4.js:8-12 | the starting state satisfies the game invariant |
| Game.ResetValid | connect4.js:204-217 | the state after reset satisfies the game invariant |
| Game.ClickValid | connect4.js:26-64 | every click keeps the invariant: board shape, gravity, `currPlayer` and every piece in {1, 2}, no four in a row while in play, the winner's run present with the turn still on the winner, and a tie only on a full board with no run |
| Game.Step | scripts/connect4.js:34-72 | one click or reset applied to a state satisfying the invariant gives a state satisfying it |
| Game.Play | scripts/connect4.js:1-5 | after any sequence of clicks and resets from a valid state, the invariant, and with it gravity, still holds |
| Game.OverIsFinal | scripts/connect4.js:151-156 | once `endGame` has run, any number of clicks leaves the state unchanged |
| TieFinding.SourceClick | scripts/connect4.js:60-69 | the click as written gives the same board as the corrected click, and never ends a game as a tie |
| TieFinding.LastMoveStateValid | scripts/connect4.js:60-69 | the position used to show the tie defect satisfies the game invariant: a drawn board with only the top of column 0 empty, 21 pieces of player 1 and 20 of player 2, player 2 to move, and no four in a row for anyone. Its piece counts fit a game player 1 opened; reachability by clicks is not proved |
| TieFinding.LastMoveFillsBoard | scripts/connect4.js:39-66 | in that position the click on column 0 lands in row 0 and leaves a full board on which player 2 has no four in a row, so the tie test is what decides the outcome |
| TieFinding.SourceMissesDraw | connect4.js:52-61 | from that position the corrected click declares a tie; the click as written leaves a full board in play with player 1 to move, and every later click is ignored |

## Left out

- Rendering is left out: `makeHtmlBoard`, `placeInTable`, clearing the cells' `innerHTML` on reset, and the `alert` text in `endGame`. These only draw the board. The status `Over(outcome)` stands for the message the alert would show.
- The `pointerEvents` style is left out. It appears only as the `InPlay` / `Over` status that decides whether a click is handled.
- Event wiring is left out: `addEventListener`, reading `evt.target.id`, turning the id into a number, and `td.id[0]`. `findSpotForCol` returns the row's digit as a string. The model returns the row number, which is the same thing while the height is below 10.
- Player-name form handling and the Lord of the Rings theme (`changeExistingBoardPieces`) are left out. They only configure the interface.
- Game.Click: requires `0 <= x < WIDTH` instead of modelling an out-of-range column. The source does not handle one: `childNodes[x]` would be undefined and the handler would throw. The clickable header cells carry ids 0 to WIDTH - 1 (scripts/connect4.js:85-88).
- Game.Click: a click that changes nothing returns the state unchanged, not an error value. The source ignores a full column with a silent `return`. It never runs the handler after `endGame`, because pointer events are off.
- Game.Reset: keeps `currPlayer` as it was, as the source's reset handler does. It does not restart with player 1. After a win, the winner moves first in the next game.
- Grid.MakeBoard: builds a fresh board, while the source pushes rows onto the global `board`. The two agree because `board` is `[]` when the page loads and the reset handler sets it to `[]` before calling `makeBoard` (scripts/connect4.js:12, 243; connect4.js:12, 207).
- Grid.MakeBoard: takes natural-number dimensions. The source only ever calls it with HEIGHT and WIDTH. Its loops would produce an empty board for negative arguments.
- The scan in `Drop.FindSpotForCol` starts from the board's height. The source hard-codes 6 there, which equals HEIGHT.
- Game.Click: settles ties with the intended "every cell is filled" test, not the source's always-false test. The as-written behaviour is `TieFinding.SourceClick`; see Findings.

## Findings

| source | as written | input that shows it | evidently intended | confidence | as-written member | corrected member |
|---|---|---|---|---|---|---|
| scripts/connect4.js:60-69 (also connect4.js:52-61) | the row callback passed to the outer `every` has a block body with no `return`, so it yields `undefined` and `tie` is false on every board with at least one row | the drawn position `TieFinding.DrawBoard` with only the top of column 0 empty, player 2 to move, then a click on column 0: the board becomes full with no four in a row, the game stays in play, and every later click is ignored | end the game as a tie once every cell is filled, as the comment on line 61 says | high; not executed | TieFinding.SourceMissesDraw | Game.Click |
