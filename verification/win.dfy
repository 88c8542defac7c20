/** Win detection: does some cell start four in a row for a player,
    horizontally, vertically, or along either downward diagonal? */
module FourInARow {
  import opened Grid

  /** One coordinate test of `_win`: (y, x) lies on the `h` by `w` board and
      holds player `p`'s piece. The bounds are tested before the cell is read,
      so no coordinate off the board is ever indexed. */
  predicate Owns(b: Board, h: nat, w: nat, p: int, y: int, x: int)
    requires IsGrid(b, h, w)
  {
    0 <= y && 0 <= x && y < h && x < w && b[y][x] == Piece(p)
  }

  /** `_win` on the four cells (y, x), (y+dy, x+dx), (y+2dy, x+2dx), (y+3dy, x+3dx). */
  predicate Run(b: Board, h: nat, w: nat, p: int, y: int, x: int, dy: int, dx: int)
    requires IsGrid(b, h, w)
  {
    && Owns(b, h, w, p, y, x)
    && Owns(b, h, w, p, y + dy, x + dx)
    && Owns(b, h, w, p, y + 2 * dy, x + 2 * dx)
    && Owns(b, h, w, p, y + 3 * dy, x + 3 * dx)
  }

  /** A win starts at (y, x): horizontal (0, +1), vertical (+1, 0),
      down-right (+1, +1) or down-left (+1, -1). */
  predicate WinAt(b: Board, h: nat, w: nat, p: int, y: int, x: int)
    requires IsGrid(b, h, w)
  {
    || Run(b, h, w, p, y, x, 0, 1)
    || Run(b, h, w, p, y, x, 1, 0)
    || Run(b, h, w, p, y, x, 1, 1)
    || Run(b, h, w, p, y, x, 1, -1)
  }

  /** Player `p` has four in a row somewhere on the board. */
  predicate Win(b: Board, h: nat, w: nat, p: int)
    requires IsGrid(b, h, w)
  {
    exists y, x :: 0 <= y < h && 0 <= x < w && WinAt(b, h, w, p, y, x)
  }

  /** checkForWin: visits the cells row by row, left to right, and stops at
      the first one that starts a run of four. Falling off the end of the loops
      returns `undefined`, which callers treat as false. */
  method CheckForWin(b: Board, h: nat, w: nat, p: int) returns (won: bool)
    requires IsGrid(b, h, w)
    ensures won <==> Win(b, h, w, p)
  {
    var y := 0;
    while y < h
      invariant 0 <= y <= h
      invariant forall y', x' :: 0 <= y' < y && 0 <= x' < w ==> !WinAt(b, h, w, p, y', x')
    {
      var x := 0;
      while x < w
        invariant 0 <= x <= w
        invariant forall y', x' :: 0 <= y' < y && 0 <= x' < w ==> !WinAt(b, h, w, p, y', x')
        invariant forall x' :: 0 <= x' < x ==> !WinAt(b, h, w, p, y, x')
      {
        if Run(b, h, w, p, y, x, 0, 1) || Run(b, h, w, p, y, x, 1, 0)
          || Run(b, h, w, p, y, x, 1, 1) || Run(b, h, w, p, y, x, 1, -1)
        {
          assert WinAt(b, h, w, p, y, x);
          return true;
        }
        x := x + 1;
      }
      y := y + 1;
    }
    return false;
  }

  /** Dropping a piece of `p` never completes four in a row for another
      player `q`: every run of `q` after the move was already there before.
      This is why the source only checks the player who just moved. */
  lemma {:induction false} NoWinForOpponent(b: Board, h: nat, w: nat, y: int, x: int, p: int, q: int)
    requires IsGrid(b, h, w) && 0 <= y < h && 0 <= x < w && p != q
    ensures Win(Place(b, y, x, Piece(p)), h, w, q) ==> Win(b, h, w, q)
  {
    var r := Place(b, y, x, Piece(p));
    if Win(r, h, w, q) {
      var y0, x0 :| 0 <= y0 < h && 0 <= x0 < w && WinAt(r, h, w, q, y0, x0);
      forall i, j | Owns(r, h, w, q, i, j)
        ensures Owns(b, h, w, q, i, j)
      {
        assert (i, j) != (y, x);
      }
      assert WinAt(b, h, w, q, y0, x0);
    }
  }

  /** Pieces are never removed, so a win stays a win when an empty cell is
      filled. */
  lemma {:induction false} WinSurvivesPlacement(b: Board, h: nat, w: nat, y: int, x: int, c: Cell)
    requires IsGrid(b, h, w) && 0 <= y < h && 0 <= x < w && b[y][x] == Empty
    ensures forall p :: Win(b, h, w, p) ==> Win(Place(b, y, x, c), h, w, p)
  {
    var r := Place(b, y, x, c);
    forall p | Win(b, h, w, p)
      ensures Win(r, h, w, p)
    {
      var y0, x0 :| 0 <= y0 < h && 0 <= x0 < w && WinAt(b, h, w, p, y0, x0);
      forall i, j | Owns(b, h, w, p, i, j)
        ensures Owns(r, h, w, p, i, j)
      {
        assert (i, j) != (y, x);
      }
      assert WinAt(r, h, w, p, y0, x0);
    }
  }

  /** The board seen in a mirror: column `x` becomes column `w - 1 - x`. */
  function Mirror(b: Board, h: nat, w: nat): (m: Board)
    requires IsGrid(b, h, w)
    ensures IsGrid(m, h, w)
    ensures forall y, x :: 0 <= y < h && 0 <= x < w ==> m[y][x] == b[y][w - 1 - x]
  {
    seq(h, y requires 0 <= y < h => seq(w, x requires 0 <= x < w => b[y][w - 1 - x]))
  }

  /** A run starting at (y, x) shows up, reflected, in the mirror image: a
      horizontal run stays horizontal, a vertical one vertical, and the two
      diagonals trade places. */
  lemma MirrorMapsRuns(b: Board, h: nat, w: nat, p: int, y: int, x: int)
    requires IsGrid(b, h, w)
    ensures Run(b, h, w, p, y, x, 0, 1) ==> Run(Mirror(b, h, w), h, w, p, y, w - 4 - x, 0, 1)
    ensures Run(b, h, w, p, y, x, 1, 0) ==> Run(Mirror(b, h, w), h, w, p, y, w - 1 - x, 1, 0)
    ensures Run(b, h, w, p, y, x, 1, 1) ==> Run(Mirror(b, h, w), h, w, p, y, w - 1 - x, 1, -1)
    ensures Run(b, h, w, p, y, x, 1, -1) ==> Run(Mirror(b, h, w), h, w, p, y, w - 1 - x, 1, 1)
  {
  }

  /** Every run of `b`, in every direction, reappears reflected in the mirror
      image, so a win on `b` is a win on its mirror image. */
  lemma {:induction false} MirrorKeepsWin(b: Board, h: nat, w: nat, p: int)
    requires IsGrid(b, h, w)
    ensures forall y, x :: 0 <= y < h && 0 <= x < w ==>
      && (Run(b, h, w, p, y, x, 0, 1) ==> Run(Mirror(b, h, w), h, w, p, y, w - 4 - x, 0, 1))
      && (Run(b, h, w, p, y, x, 1, 0) ==> Run(Mirror(b, h, w), h, w, p, y, w - 1 - x, 1, 0))
      && (Run(b, h, w, p, y, x, 1, 1) ==> Run(Mirror(b, h, w), h, w, p, y, w - 1 - x, 1, -1))
      && (Run(b, h, w, p, y, x, 1, -1) ==> Run(Mirror(b, h, w), h, w, p, y, w - 1 - x, 1, 1))
    ensures Win(b, h, w, p) ==> Win(Mirror(b, h, w), h, w, p)
  {
    var m := Mirror(b, h, w);
    forall y, x | 0 <= y < h && 0 <= x < w
      ensures && (Run(b, h, w, p, y, x, 0, 1) ==> Run(m, h, w, p, y, w - 4 - x, 0, 1))
              && (Run(b, h, w, p, y, x, 1, 0) ==> Run(m, h, w, p, y, w - 1 - x, 1, 0))
              && (Run(b, h, w, p, y, x, 1, 1) ==> Run(m, h, w, p, y, w - 1 - x, 1, -1))
              && (Run(b, h, w, p, y, x, 1, -1) ==> Run(m, h, w, p, y, w - 1 - x, 1, 1))
    {
      MirrorMapsRuns(b, h, w, p, y, x);
    }
    if Win(b, h, w, p) {
      var y, x :| 0 <= y < h && 0 <= x < w && WinAt(b, h, w, p, y, x);
      if Run(b, h, w, p, y, x, 0, 1) {
        assert WinAt(m, h, w, p, y, w - 4 - x);
      } else {
        assert WinAt(m, h, w, p, y, w - 1 - x);
      }
    }
  }

  /** Win detection does not depend on which way the board faces. */
  lemma {:induction false} WinMirrorSymmetric(b: Board, h: nat, w: nat, p: int)
    requires IsGrid(b, h, w)
    ensures Win(Mirror(b, h, w), h, w, p) <==> Win(b, h, w, p)
  {
    var m := Mirror(b, h, w);
    MirrorKeepsWin(b, h, w, p);
    MirrorKeepsWin(m, h, w, p);
    assert Mirror(m, h, w) == b by {
      var mm := Mirror(m, h, w);
      assert forall y :: 0 <= y < h ==> mm[y] == b[y];
    }
  }
}
