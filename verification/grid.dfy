/** The in-memory board of the Connect Four engine: cells, the grid shape,
    building an empty board, writing one cell, and the "board is full" test. */
module Grid {

  /** The source's fixed dimensions: seven columns, six rows. */
  const HEIGHT: nat := 6
  const WIDTH: nat := 7

  /** A cell is empty (the source's `null`) or holds the number of the player
      whose piece sits there. */
  datatype Cell = Empty | Piece(player: int)

  /** Rows of cells, addressed `b[y][x]`; row 0 is the top row. */
  type Board = seq<seq<Cell>>

  datatype Option<T> = None | Some(value: T)

  /** The board has exactly `h` rows of exactly `w` cells each. */
  predicate IsGrid(b: Board, h: nat, w: nat) {
    |b| == h && forall y :: 0 <= y < h ==> |b[y]| == w
  }

  /** Every row of `b` is wide enough to have a cell in column `x`. */
  predicate HasColumn(b: Board, x: int) {
    0 <= x && forall y :: 0 <= y < |b| ==> x < |b[y]|
  }

  /** The board `makeBoard` produces, as a value. */
  function EmptyBoard(h: nat, w: nat): (b: Board)
    ensures IsGrid(b, h, w)
    ensures forall y, x :: 0 <= y < h && 0 <= x < w ==> b[y][x] == Empty
  {
    seq(h, _ => seq(w, _ => Empty))
  }

  /** makeBoard: pushes `height` rows, each filled by pushing `width` nulls.
      The source pushes onto the global `board`; starting from `[]` matches it
      because `board` is `[]` at load time and the reset handler empties it
      before calling `makeBoard`. */
  method MakeBoard(height: nat, width: nat) returns (board: Board)
    ensures IsGrid(board, height, width)
    ensures forall y, x :: 0 <= y < height && 0 <= x < width ==> board[y][x] == Empty
  {
    board := [];
    var y := 0;
    while y < height
      invariant 0 <= y <= height
      invariant IsGrid(board, y, width)
      invariant forall i, j :: 0 <= i < y && 0 <= j < width ==> board[i][j] == Empty
    {
      var row: seq<Cell> := [];
      var x := 0;
      while x < width
        invariant 0 <= x <= width
        invariant |row| == x
        invariant forall j :: 0 <= j < x ==> row[j] == Empty
      {
        row := row + [Empty];
        x := x + 1;
      }
      board := board + [row];
      y := y + 1;
    }
  }

  /** `board[y][x] = c`: the only cell that changes is (y, x). */
  function Place(b: Board, y: int, x: int, c: Cell): (r: Board)
    requires 0 <= y < |b| && 0 <= x < |b[y]|
    ensures |r| == |b|
    ensures forall i :: 0 <= i < |b| ==> |r[i]| == |b[i]|
    ensures r[y][x] == c
    ensures forall i, j :: 0 <= i < |b| && 0 <= j < |b[i]| && (i, j) != (y, x) ==> r[i][j] == b[i][j]
  {
    b[y := b[y][x := c]]
  }

  /** The tie condition the source's comment asks for: every cell is filled. */
  predicate BoardFull(b: Board) {
    forall y, x :: 0 <= y < |b| && 0 <= x < |b[y]| ==> b[y][x] != Empty
  }

  /** The tie condition as the source computes it. The row callback given to
      the outer `every` has a block body with no `return`, so it yields
      `undefined`, which is falsy: `every` is false as soon as there is one row,
      and true only for a board with no rows at all. */
  predicate SourceTie(b: Board) {
    |b| == 0
  }

  /** On any board of the game's shape the source's tie test is false, full
      board or not. */
  lemma SourceTieNeverHolds(b: Board)
    requires IsGrid(b, HEIGHT, WIDTH)
    ensures !SourceTie(b)
  {
  }

  /** Gravity: in every column, no empty cell lies below an occupied one. */
  predicate Gravity(b: Board) {
    forall y, y', x :: 0 <= y < y' < |b| && 0 <= x < |b[y]| && 0 <= x < |b[y']| && b[y][x] != Empty ==> b[y'][x] != Empty
  }
}
