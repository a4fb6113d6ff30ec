/** The puzzle logic of the Lights Out board component.
    A board is an nrows x ncols grid of lights, row by row; true means lit.
    The component creates a board from one random draw per cell, turns a
    click on a cell into a new board on which that cell and its in-bounds
    orthogonal neighbours are flipped, and reports a win when every light
    is on. */
module Board {
  import opened CellKeys

  /** A board value: a sequence of rows, each a sequence of lights. */
  type Grid = seq<seq<bool>>

  /** g has exactly nrows rows of exactly ncols lights each. */
  predicate IsGrid(g: Grid, nrows: nat, ncols: nat) {
    |g| == nrows && forall j :: 0 <= j < nrows ==> |g[j]| == ncols
  }

  // ---------------------------------------------------------------------
  // Board creation

  /** The lights of g read row after row, each row left to right. */
  function Flatten(g: Grid): seq<bool>
    decreases |g|
  {
    if g == [] then [] else Flatten(g[..|g| - 1]) + g[|g| - 1]
  }

  /** An nrows x ncols board holds nrows * ncols lights. */
  lemma {:induction false} FlattenLength(g: Grid, nrows: nat, ncols: nat)
    requires IsGrid(g, nrows, ncols)
    ensures |Flatten(g)| == nrows * ncols
    decreases nrows
  {
    if nrows > 0 {
      FlattenLength(g[..nrows - 1], nrows - 1, ncols);
      assert nrows * ncols == (nrows - 1) * ncols + ncols;
    }
  }

  /** For cell (j, i) of an nrows x ncols board, position j * ncols + i
      lies among the nrows * ncols cells. */
  lemma RowMajorInRange(j: nat, i: nat, nrows: nat, ncols: nat)
    requires j < nrows && i < ncols
    ensures j * ncols + i < nrows * ncols
  {
    var rest: nat := nrows - 1 - j;
    assert nrows * ncols == j * ncols + ncols + rest * ncols;
  }

  /** Row j of an nrows x ncols board starts ncols positions before row
      j + 1, which starts at most at the end of the board. */
  lemma NextRowStart(j: nat, nrows: nat, ncols: nat)
    requires j < nrows
    ensures (j + 1) * ncols == j * ncols + ncols <= nrows * ncols
  {
    MulMonotone(j + 1, nrows, ncols);
  }

  /** Multiplying by the same natural number keeps the order. */
  lemma MulMonotone(a: nat, b: nat, c: nat)
    requires a <= b
    ensures a * c <= b * c
  {
    var d: nat := b - a;
    assert b * c == a * c + d * c;
  }

  /** Reading an nrows x ncols board row by row meets cell (j, i) at
      position j * ncols + i. */
  lemma {:induction false} FlattenAt(g: Grid, nrows: nat, ncols: nat, j: nat, i: nat)
    requires IsGrid(g, nrows, ncols) && j < nrows && i < ncols
    ensures j * ncols + i < |Flatten(g)| && Flatten(g)[j * ncols + i] == g[j][i]
    decreases nrows
  {
    var front := g[..nrows - 1];
    FlattenLength(g, nrows, ncols);
    FlattenLength(front, nrows - 1, ncols);
    RowMajorInRange(j, i, nrows, ncols);
    if j < nrows - 1 {
      FlattenAt(front, nrows - 1, ncols, j, i);
    } else {
      assert j * ncols + i == |Flatten(front)| + i;
    }
  }

  /** Pushing the next draw onto the last row extends the row-major reading
      by that draw. */
  lemma FlattenPush(g: Grid, draws: seq<bool>, next: nat)
    requires g != [] && next < |draws| && Flatten(g) == draws[..next]
    ensures Flatten(g[|g| - 1 := g[|g| - 1] + [draws[next]]]) == draws[..next + 1]
  {
  }

  /** Appending an empty row leaves the row-major reading as it is. */
  lemma FlattenNewRow(g: Grid)
    ensures Flatten(g + [[]]) == Flatten(g)
  {
  }

  /** Position k of an nrows x ncols board lies in row k / ncols. */
  lemma RowOfPosition(k: nat, nrows: nat, ncols: nat)
    requires k < nrows * ncols
    ensures ncols > 0 && k / ncols < nrows && k == (k / ncols) * ncols + k % ncols
  {
  }

  /** g is the board dealt from draws: nrows rows of ncols lights which,
      read row after row, are the draws in order. */
  predicate DealtFrom(g: Grid, nrows: nat, ncols: nat, draws: seq<bool>) {
    IsGrid(g, nrows, ncols) && Flatten(g) == draws
  }

  /** createBoard: builds the board one row at a time, pushing one light per
      draw onto the current row. Each draw stands for the outcome of
      `Math.random() < chanceLightStartsOn` for that cell, in the order the
      cells are visited. */
  method CreateBoard(nrows: nat, ncols: nat, draws: seq<bool>) returns (initialBoard: Grid)
    requires |draws| == nrows * ncols
    ensures DealtFrom(initialBoard, nrows, ncols, draws)
  {
    initialBoard := [];
    var next := 0;  // index of the next draw
    for j := 0 to nrows
      invariant |initialBoard| == j && next == j * ncols && next <= |draws|
      invariant forall r | 0 <= r < j :: |initialBoard[r]| == ncols
      invariant Flatten(initialBoard) == draws[..next]
    {
      NextRowStart(j, nrows, ncols);
      FlattenNewRow(initialBoard);
      initialBoard := initialBoard + [[]];
      for i := 0 to ncols
        invariant |initialBoard| == j + 1 && next == j * ncols + i && next <= |draws|
        invariant |initialBoard[j]| == i
        invariant forall r | 0 <= r < j :: |initialBoard[r]| == ncols
        invariant Flatten(initialBoard) == draws[..next]
      {
        var isCellLit := draws[next];
        FlattenPush(initialBoard, draws, next);
        initialBoard := initialBoard[j := initialBoard[j] + [isCellLit]];
        next := next + 1;
      }
    }
    assert draws[..next] == draws;
  }

  /** In a dealt board, cell (j, i) holds the (j * ncols + i)-th draw. */
  lemma DealtCell(g: Grid, nrows: nat, ncols: nat, draws: seq<bool>, j: nat, i: nat)
    requires DealtFrom(g, nrows, ncols, draws) && j < nrows && i < ncols
    ensures j * ncols + i < |draws| && g[j][i] == draws[j * ncols + i]
  {
    FlattenAt(g, nrows, ncols, j, i);
  }

  /** Every draw is used: the k-th draw lands in row k / ncols, column
      k % ncols. */
  lemma EveryDrawDealt(g: Grid, nrows: nat, ncols: nat, draws: seq<bool>, k: nat)
    requires DealtFrom(g, nrows, ncols, draws) && k < |draws|
    ensures ncols > 0 && k / ncols < nrows
    ensures g[k / ncols][k % ncols] == draws[k]
  {
    FlattenLength(g, nrows, ncols);
    RowOfPosition(k, nrows, ncols);
    var j, i := k / ncols, k % ncols;
    DealtCell(g, nrows, ncols, draws, j, i);
  }

  /** The board dealt from a sequence of draws is determined by it. */
  lemma DealtFromDeterministic(g1: Grid, g2: Grid, nrows: nat, ncols: nat, draws: seq<bool>)
    requires DealtFrom(g1, nrows, ncols, draws) && DealtFrom(g2, nrows, ncols, draws)
    ensures g1 == g2
  {
    forall j, i | 0 <= j < nrows && 0 <= i < ncols
      ensures g1[j][i] == g2[j][i]
    {
      DealtCell(g1, nrows, ncols, draws, j, i);
      DealtCell(g2, nrows, ncols, draws, j, i);
    }
    SameCells(g1, g2, nrows, ncols);
  }

  // ---------------------------------------------------------------------
  // Win check

  /** `row.every(cell => cell === true)` */
  function RowLit(row: seq<bool>): (lit: bool)
    ensures lit <==> forall i :: 0 <= i < |row| ==> row[i]
  {
    row == [] || (row[0] && RowLit(row[1..]))
  }

  /** hasWon: `board.every(row => row.every(cell => cell === true))`. True
      exactly when every light of every row is on, so in particular on a
      board without rows or without cells. */
  function HasWon(board: Grid): (won: bool)
    ensures won <==> forall j, i :: 0 <= j < |board| && 0 <= i < |board[j]| ==> board[j][i]
  {
    board == [] || (RowLit(board[0]) && HasWon(board[1..]))
  }

  /** A board dealt only "lit" outcomes is won as soon as it is created. */
  lemma DealtAllLitIsWon(g: Grid, nrows: nat, ncols: nat, draws: seq<bool>)
    requires DealtFrom(g, nrows, ncols, draws)
    requires forall k | 0 <= k < |draws| :: draws[k]
    ensures HasWon(g)
  {
    forall j, i | 0 <= j < |g| && 0 <= i < |g[j]|
      ensures g[j][i]
    {
      DealtCell(g, nrows, ncols, draws, j, i);
    }
  }

  /** A board dealt no "lit" outcome has every light off. */
  lemma DealtAllUnlitIsDark(g: Grid, nrows: nat, ncols: nat, draws: seq<bool>)
    requires DealtFrom(g, nrows, ncols, draws)
    requires forall k | 0 <= k < |draws| :: !draws[k]
    ensures forall j, i | 0 <= j < nrows && 0 <= i < ncols :: !g[j][i]
  {
    forall j, i | 0 <= j < nrows && 0 <= i < ncols
      ensures !g[j][i]
    {
      DealtCell(g, nrows, ncols, draws, j, i);
    }
  }

  // ---------------------------------------------------------------------
  // Toggle rule

  /** The bounds check of flipCell: (y, x) names a cell of the board. */
  predicate InBounds(y: int, x: int, nrows: nat, ncols: nat) {
    0 <= x < ncols && 0 <= y < nrows
  }

  /** (j, i) is the clicked cell (y, x) or the one above, below, left or
      right of it. */
  predicate InCross(j: int, i: int, y: int, x: int) {
    (j == y && i == x) || (j == y - 1 && i == x) || (j == y + 1 && i == x) ||
    (j == y && i == x - 1) || (j == y && i == x + 1)
  }

  /** The board after a click on (y, x), cell by cell: a light changes
      exactly when it lies in the cross around (y, x); positions of the
      cross that are off the board have no cell and change nothing. */
  function Toggled(g: Grid, nrows: nat, ncols: nat, y: int, x: int): (h: Grid)
    requires IsGrid(g, nrows, ncols)
    ensures IsGrid(h, nrows, ncols)
  {
    seq(nrows, j requires 0 <= j < nrows =>
      seq(ncols, i requires 0 <= i < ncols => g[j][i] != InCross(j, i, y, x)))
  }

  /** The lights held by a board array, row by row. */
  function Rows(a: array2<bool>): (g: Grid)
    reads a
    ensures IsGrid(g, a.Length0, a.Length1)
    ensures forall j, i | 0 <= j < a.Length0 && 0 <= i < a.Length1 :: g[j][i] == a[j, i]
  {
    seq(a.Length0, j requires 0 <= j < a.Length0 reads a =>
      seq(a.Length1, i requires 0 <= i < a.Length1 reads a => a[j, i]))
  }

  /** flipCell: if (y, x) is on the board, flip that light of the copy in
      place; otherwise leave the copy as it is, without an error. */
  method FlipCell(y: int, x: int, boardCopy: array2<bool>, nrows: nat, ncols: nat)
    requires boardCopy.Length0 == nrows && boardCopy.Length1 == ncols
    modifies boardCopy
    ensures forall j, i | 0 <= j < nrows && 0 <= i < ncols ::
      boardCopy[j, i] == (old(boardCopy[j, i]) != (j == y && i == x))
    ensures !InBounds(y, x, nrows, ncols) ==> unchanged(boardCopy)
  {
    if x >= 0 && x < ncols && y >= 0 && y < nrows {
      boardCopy[y, x] := !boardCopy[y, x];
    }
  }

  /** The state updater of flipCellsAround: decode the clicked cell's key,
      deep-copy the old board, flip the clicked cell and its four
      neighbours in the copy, and return the copy. A key that does not
      decode to two numbers makes every bounds check fail (comparisons with
      NaN are false), so the copy comes back unchanged. The old board is a
      value and is never modified. */
  method FlipCellsAround(oldBoard: Grid, nrows: nat, ncols: nat, coord: string) returns (newBoard: Grid)
    requires IsGrid(oldBoard, nrows, ncols)
    ensures DecodeKey(coord).None? ==> newBoard == oldBoard
    ensures DecodeKey(coord).Some? ==>
      newBoard == Toggled(oldBoard, nrows, ncols, DecodeKey(coord).value.0, DecodeKey(coord).value.1)
  {
    ghost var expected := match DecodeKey(coord)
      case None => oldBoard
      case Some((y, x)) => Toggled(oldBoard, nrows, ncols, y, x);
    var boardCopy := new bool[nrows, ncols]((j, i) requires 0 <= j < nrows && 0 <= i < ncols =>
      oldBoard[j][i]);
    match DecodeKey(coord) {
      case None =>
      case Some((y, x)) =>
        FlipCell(y, x, boardCopy, nrows, ncols);      // clicked cell
        FlipCell(y - 1, x, boardCopy, nrows, ncols);  // above
        FlipCell(y + 1, x, boardCopy, nrows, ncols);  // below
        FlipCell(y, x - 1, boardCopy, nrows, ncols);  // left
        FlipCell(y, x + 1, boardCopy, nrows, ncols);  // right
    }
    newBoard := Rows(boardCopy);
    SameCells(newBoard, expected, nrows, ncols);
  }

  /** Two boards of the same shape with the same lights are the same board. */
  lemma SameCells(g: Grid, h: Grid, nrows: nat, ncols: nat)
    requires IsGrid(g, nrows, ncols) && IsGrid(h, nrows, ncols)
    requires forall j, i | 0 <= j < nrows && 0 <= i < ncols :: g[j][i] == h[j][i]
    ensures g == h
  {
    forall j | 0 <= j < nrows
      ensures g[j] == h[j]
    {
    }
  }

  /** Clicking the same cell twice gives back the board of before. */
  lemma ToggledTwice(g: Grid, nrows: nat, ncols: nat, y: int, x: int)
    requires IsGrid(g, nrows, ncols)
    ensures Toggled(Toggled(g, nrows, ncols, y, x), nrows, ncols, y, x) == g
  {
    SameCells(Toggled(Toggled(g, nrows, ncols, y, x), nrows, ncols, y, x), g, nrows, ncols);
  }

  /** The cells on which two boards of the same shape differ. */
  function ChangedCells(g: Grid, h: Grid, nrows: nat, ncols: nat): set<(int, int)>
    requires IsGrid(g, nrows, ncols) && IsGrid(h, nrows, ncols)
  {
    set j, i | 0 <= j < nrows && 0 <= i < ncols && g[j][i] != h[j][i] :: (j, i)
  }

  /** The positions of the cross around (y, x) that lie on the board. */
  function CrossOnBoard(y: int, x: int, nrows: nat, ncols: nat): set<(int, int)> {
    OnBoard(y, x, nrows, ncols) + OnBoard(y - 1, x, nrows, ncols) + OnBoard(y + 1, x, nrows, ncols) +
    OnBoard(y, x - 1, nrows, ncols) + OnBoard(y, x + 1, nrows, ncols)
  }

  /** {(y, x)} when that position is on the board, {} otherwise. */
  function OnBoard(y: int, x: int, nrows: nat, ncols: nat): set<(int, int)> {
    if InBounds(y, x, nrows, ncols) then {(y, x)} else {}
  }

  /** A click changes exactly the cells of its cross that are on the board. */
  lemma ToggledChangesCross(g: Grid, nrows: nat, ncols: nat, y: int, x: int)
    requires IsGrid(g, nrows, ncols)
    ensures ChangedCells(g, Toggled(g, nrows, ncols, y, x), nrows, ncols) == CrossOnBoard(y, x, nrows, ncols)
  {
  }

  /** On a board at least 2 x 2, a click on a corner changes 3 lights. */
  lemma CornerClickChangesThree(g: Grid, nrows: nat, ncols: nat, y: int, x: int)
    requires IsGrid(g, nrows, ncols) && nrows >= 2 && ncols >= 2
    requires (y == 0 || y == nrows - 1) && (x == 0 || x == ncols - 1)
    ensures |ChangedCells(g, Toggled(g, nrows, ncols, y, x), nrows, ncols)| == 3
  {
    ToggledChangesCross(g, nrows, ncols, y, x);
    var dy := if y == 0 then 1 else -1;
    var dx := if x == 0 then 1 else -1;
    CornerCross(y, x, dy, dx, nrows, ncols);
    CountThree((y, x), (y + dy, x), (y, x + dx));
  }

  /** The on-board cross of a corner is the corner and its one vertical
      and one horizontal neighbour. */
  lemma CornerCross(y: int, x: int, dy: int, dx: int, nrows: nat, ncols: nat)
    requires nrows >= 2 && ncols >= 2
    requires (y == 0 && dy == 1) || (y == nrows - 1 && dy == -1)
    requires (x == 0 && dx == 1) || (x == ncols - 1 && dx == -1)
    ensures CrossOnBoard(y, x, nrows, ncols) == {(y, x), (y + dy, x), (y, x + dx)}
  {
  }

  /** Three distinct elements make a set of three. */
  lemma CountThree<T>(a: T, b: T, c: T)
    requires a != b && a != c && b != c
    ensures |{a, b, c}| == 3
  {
  }

  /** Four distinct elements make a set of four. */
  lemma CountFour<T>(a: T, b: T, c: T, d: T)
    requires a != b && a != c && a != d && b != c && b != d && c != d
    ensures |{a, b, c, d}| == 4
  {
  }

  /** Five distinct elements make a set of five. */
  lemma CountFive<T>(a: T, b: T, c: T, d: T, e: T)
    requires a != b && a != c && a != d && a != e && b != c && b != d && b != e
    requires c != d && c != e && d != e
    ensures |{a, b, c, d, e}| == 5
  {
  }

  /** On a board at least 3 x 3, a click on a cell that is not on the
      border changes 5 lights. */
  lemma InteriorClickChangesFive(g: Grid, nrows: nat, ncols: nat, y: int, x: int)
    requires IsGrid(g, nrows, ncols)
    requires 0 < y < nrows - 1 && 0 < x < ncols - 1
    ensures |ChangedCells(g, Toggled(g, nrows, ncols, y, x), nrows, ncols)| == 5
  {
    ToggledChangesCross(g, nrows, ncols, y, x);
    assert CrossOnBoard(y, x, nrows, ncols) == {(y, x), (y - 1, x), (y + 1, x), (y, x - 1), (y, x + 1)};
    CountFive((y, x), (y - 1, x), (y + 1, x), (y, x - 1), (y, x + 1));
  }

  /** A click on a top or bottom border cell that is not a corner changes
      4 lights when the board has at least two rows; likewise a click on a
      left or right border cell that is not a corner when it has at least
      two columns. (On a single row or column such a click changes 3.) */
  lemma EdgeClickChangesFour(g: Grid, nrows: nat, ncols: nat, y: int, x: int)
    requires IsGrid(g, nrows, ncols)
    requires ((y == 0 || y == nrows - 1) && 0 < x < ncols - 1 && nrows >= 2) ||
             ((x == 0 || x == ncols - 1) && 0 < y < nrows - 1 && ncols >= 2)
    ensures |ChangedCells(g, Toggled(g, nrows, ncols, y, x), nrows, ncols)| == 4
  {
    ToggledChangesCross(g, nrows, ncols, y, x);
    if (y == 0 || y == nrows - 1) && 0 < x < ncols - 1 && nrows >= 2 {
      var dy := if y == 0 then 1 else -1;
      TopOrBottomEdgeCross(y, x, dy, nrows, ncols);
      CountFour((y, x), (y + dy, x), (y, x - 1), (y, x + 1));
    } else {
      var dx := if x == 0 then 1 else -1;
      LeftOrRightEdgeCross(y, x, dx, nrows, ncols);
      CountFour((y, x), (y - 1, x), (y + 1, x), (y, x + dx));
    }
  }

  /** On a board of a single row, a click on a cell that is not at either
      end changes only 3 lights: the cell and its left and right
      neighbours, since both vertical neighbours are off the board. */
  lemma SingleRowMiddleClickChangesThree(g: Grid, ncols: nat, x: int)
    requires IsGrid(g, 1, ncols) && 0 < x < ncols - 1
    ensures |ChangedCells(g, Toggled(g, 1, ncols, 0, x), 1, ncols)| == 3
  {
    ToggledChangesCross(g, 1, ncols, 0, x);
    assert CrossOnBoard(0, x, 1, ncols) == {(0, x), (0, x - 1), (0, x + 1)};
    CountThree((0, x), (0, x - 1), (0, x + 1));
  }

  /** The on-board cross of a top or bottom border cell that is not a
      corner lacks only the neighbour beyond the border. */
  lemma TopOrBottomEdgeCross(y: int, x: int, dy: int, nrows: nat, ncols: nat)
    requires nrows >= 2 && 0 < x < ncols - 1
    requires (y == 0 && dy == 1) || (y == nrows - 1 && dy == -1)
    ensures CrossOnBoard(y, x, nrows, ncols) == {(y, x), (y + dy, x), (y, x - 1), (y, x + 1)}
  {
  }

  /** The on-board cross of a left or right border cell that is not a
      corner lacks only the neighbour beyond the border. */
  lemma LeftOrRightEdgeCross(y: int, x: int, dx: int, nrows: nat, ncols: nat)
    requires ncols >= 2 && 0 < y < nrows - 1
    requires (x == 0 && dx == 1) || (x == ncols - 1 && dx == -1)
    ensures CrossOnBoard(y, x, nrows, ncols) == {(y, x), (y - 1, x), (y + 1, x), (y, x + dx)}
  {
  }

  /** On a dark 3 x 3 board, a click on the centre lights a plus sign, and a
      click on the top-left corner lights that corner and its two
      neighbours; neither board is won. */
  lemma ClicksOnDarkThreeByThree()
    ensures Toggled([[false, false, false], [false, false, false], [false, false, false]], 3, 3, 1, 1)
      == [[false, true, false], [true, true, true], [false, true, false]]
    ensures Toggled([[false, false, false], [false, false, false], [false, false, false]], 3, 3, 0, 0)
      == [[true, true, false], [true, false, false], [false, false, false]]
    ensures !HasWon([[false, true, false], [true, true, true], [false, true, false]])
    ensures !HasWon([[true, true, false], [true, false, false], [false, false, false]])
  {
    var dark := [[false, false, false], [false, false, false], [false, false, false]];
    SameCells(Toggled(dark, 3, 3, 1, 1), [[false, true, false], [true, true, true], [false, true, false]], 3, 3);
    SameCells(Toggled(dark, 3, 3, 0, 0), [[true, true, false], [true, false, false], [false, false, false]], 3, 3);
    assert ![[false, true, false], [true, true, true], [false, true, false]][0][0];
    assert ![[true, true, false], [true, false, false], [false, false, false]][1][1];
  }
}
