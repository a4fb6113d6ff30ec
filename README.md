# Lights Out board logic in Dafny

This project models the puzzle logic of the `Board` component of a React
implementation of Lights Out. The board is a grid of lights, `nrows` rows of
`ncols` cells, where `true` means lit. The model covers four things:

- **Creating a board** (`createBoard`). The board is built row by row, with one
  random draw per cell.
- **The toggle rule** (`flipCellsAround` and its inner `flipCell`). A click
  deep-copies the board. In the copy it then flips the clicked cell and its
  up, down, left and right neighbours that lie on the board.
- **The win check** (`hasWon`). The game is won when every light is on.
- **The cell key**. Each cell is named by the string `` `${rowIdx}-${cellIdx}` ``.
  The click handler decodes that string with `split("-").map(Number)`.

Files:

- `cell_keys.dfy`, module `CellKeys`. It builds the key: `Decimal` renders an
  index in decimal and `CellKey` joins two of them. It decodes the key:
  `Split` works like `String.prototype.split` with a one-character separator,
  `ToNumber` works like `Number()` on the pieces, and `DecodeKey` puts the two
  together. It proves that decoding a cell's key gives back that cell.
- `board.dfy`, module `Board`.
  - A board value is a `seq<seq<bool>>`, like the JavaScript array of arrays.
  - `CreateBoard` is a method with nested loops. It appends a row, then pushes
    one cell per draw onto that row.
  - `HasWon` is the nested `every`, written as recursive functions.
  - `FlipCellsAround` is the body of the state updater. It copies the old
    board into a fresh `array2<bool>`. `FlipCell` flips cells of that copy in
    place. The method returns the contents of the copy.
  - `Toggled` is a separate cell-by-cell definition of what a click does.
    `FlipCellsAround` is proved equal to it. The locality, self-inverse and
    counting lemmas are stated about `Toggled`.

Two edge cases of the code are kept as the code behaves:

- With zero rows or zero columns the code builds an empty board (`[]`, or
  rows of `[]`), and `every` over it is true. The model takes `nrows` and
  `ncols` as natural numbers and keeps this behaviour (see `HasWon`).
- A key that does not decode to two numbers makes every bounds check compare
  against `NaN` or `undefined`, which is false, so the copy comes back
  unchanged (see `FlipCellsAround`).

## Model

| member | source | states |
|---|---|---|
| `Board.CreateBoard` | src/Board.js:34-47 | The result has exactly `nrows` rows of `ncols` cells each. Reading it row after row, left to right, gives the draws in the order they were made. |
| `Board.DealtCell` | src/Board.js:37-44 | In a created board, cell `(j, i)` holds draw number `j * ncols + i`, which is row-major fill order. |
| `Board.EveryDrawDealt` | src/Board.js:37-44 | Every draw is used: draw `k` lands in row `k / ncols`, column `k % ncols`, and that row exists. |
| `Board.DealtFromDeterministic` | src/Board.js:34-47 | Once the random outcomes are fixed, creation is deterministic: two boards dealt from the same draws are equal. |
| `Board.DealtAllLitIsWon` | src/Board.js:40-42 | If every draw says "lit" (a chance of 1), the new board is already won. |
| `Board.DealtAllUnlitIsDark` | src/Board.js:40-42 | If no draw says "lit" (a chance of 0), every light of the new board is off. |
| `Board.RowLit` | src/Board.js:51 | The inner `row.every(cell => cell === true)` is true iff every cell of the row is lit. An empty row counts as lit. |
| `Board.HasWon` | src/Board.js:49-52 | True iff every cell of every row is lit. A board with no rows, or with only empty rows, counts as won. |
| `Board.FlipCell` | src/Board.js:58-64 | Flips exactly cell `(y, x)` of the copy when `0 <= x < ncols` and `0 <= y < nrows`. Otherwise the copy is unchanged and there is no error. |
| `Board.FlipCellsAround` | src/Board.js:54-78 | A key that decodes to `(y, x)` gives `Toggled(oldBoard, y, x)`. A key that does not decode gives an unchanged copy. The old board is a value, so it is never touched. |
| `Board.Toggled` | src/Board.js:66-77 | The board after a click has the same dimensions as before. |
| `Board.ToggledTwice` | src/Board.js:69-74 | Clicking the same cell twice restores the original board. |
| `Board.ToggledChangesCross` | src/Board.js:61-74 | The cells that a click changes are exactly the on-board positions among the clicked cell and its four neighbours. Every other cell keeps its value, and nothing wraps around. |
| `Board.CornerClickChangesThree` | src/Board.js:61-74 | On a board of at least 2 x 2, a click on any corner changes exactly 3 lights. |
| `Board.EdgeClickChangesFour` | src/Board.js:61-74 | A click on a top or bottom border cell that is not a corner changes exactly 4 lights when the board has at least two rows; a click on a left or right border cell that is not a corner changes exactly 4 when it has at least two columns. |
| `Board.SingleRowMiddleClickChangesThree` | src/Board.js:61-74 | On a board of one row, a click on a cell that is not at either end changes exactly 3 lights, because both vertical neighbours fail the bounds check. |
| `Board.InteriorClickChangesFive` | src/Board.js:61-74 | A click on a cell off the border changes exactly 5 lights. |
| `Board.ClicksOnDarkThreeByThree` | src/Board.js:69-74 | On a dark 3 x 3 board, a centre click lights a plus sign and a corner click lights an L of three cells. Neither board is won. |
| `CellKeys.Decimal` | src/Board.js:97-98 | An index renders as one or more decimal digits. The first digit is `0` only for the index 0. |
| `CellKeys.CellKey` | src/Board.js:97-98 | The key `` `${rowIdx}-${cellIdx}` `` splits on `-` into exactly two pieces, the decimal texts of the row and of the column. Its full round trip is `DecodeCellKey`. |
| `CellKeys.ToNumber` | src/Board.js:56 | `Number("")` is 0, and a leading zero does not change the value. Its value on every rendered index is fixed by `DecimalRoundTrip`. Forms other than digit strings are under "Left out". |
| `CellKeys.DecodeKey` | src/Board.js:56 | A decoded coordinate is never negative, because `-` is the separator and so no piece carries a sign. A text without `-` has no second piece, so `x` is `undefined` and nothing decodes. On cell keys the result is pinned down by `DecodeCellKey`. |
| `CellKeys.DecimalRoundTrip` | src/Board.js:56 | `Number()` applied to the decimal text of `n` gives `n`. |
| `CellKeys.Split` | src/Board.js:56 | `split("-")` gives at least one piece. No piece contains a `-`. Joining the pieces with `-` gives back the input. |
| `CellKeys.SplitJoin` | src/Board.js:56 | Pieces that contain no separator survive a join followed by a split unchanged. |
| `CellKeys.DecodeCellKey` | src/Board.js:56 | Decoding the key `` `${rowIdx}-${cellIdx}` `` gives `(rowIdx, cellIdx)`, for every pair of non-negative indices. |
| `CellKeys.CellKeyInjective` | src/Board.js:97-98 | Different cells have different keys. |

## Left out

- The React rendering is not modelled: the table, the `Cell` children, the "You won!" branch and the CSS import. This is view code with no logic to state.
- The `useState` / `setBoard` machinery is not modelled. The updater passed to `setBoard` is modelled as a method from the old board to the new one.
- `Math.random()` and the floating-point comparison with `chanceLightStartsOn` are replaced by an injected sequence of outcomes, one per cell, in fill order. Probability is not modelled.
- Board.CreateBoard: the draw sequence must hold exactly `nrows * ncols` outcomes, because there is one call to `Math.random()` per cell.
- Board.CreateBoard: `nrows` and `ncols` are natural numbers. Negative or fractional props are not modelled. Negative props would give an empty board, and fractional props would round the loop counts up.
- Board.FlipCellsAround: the old board must be `nrows` x `ncols`. Every board the component creates has that shape. The case where the props change after the first render, and the board no longer matches them, is not modelled.
- CellKeys.ToNumber: only strings of decimal digits are modelled, including the empty string, which gives 0. Every other text reads as NaN. JavaScript's `Number()` also accepts surrounding whitespace, a sign, a fraction, an exponent, hexadecimal and `Infinity`, but no key built by the component contains any of these.
- CellKeys.Decimal: numbers are unbounded integers. JavaScript loses precision above 2^53 and switches to exponent notation at 10^21. Array indices never get that large.
