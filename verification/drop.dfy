/** Where a piece dropped into a column comes to rest. */
module Drop {
  import opened Grid

  /** Scans column `x` upward from row `i - 1` to row 0 and returns the first
      empty row met, so the lowest empty row below row `i`. */
  function ScanUp(b: Board, x: int, i: nat): (r: Option<nat>)
    requires i <= |b| && HasColumn(b, x)
    ensures r.Some? ==> r.value < i && b[r.value][x] == Empty
    ensures r.Some? ==> forall y :: r.value < y < i ==> b[y][x] != Empty
    ensures r.None? <==> forall y :: 0 <= y < i ==> b[y][x] != Empty
    decreases i
  {
    if i == 0 then None
    else if b[i - 1][x] == Empty then Some(i - 1)
    else ScanUp(b, x, i - 1)
  }

  /** The row a piece dropped into column `x` lands in: the lowest empty row,
      or nothing when every cell of the column is occupied. */
  function DropRow(b: Board, x: int): (r: Option<nat>)
    requires HasColumn(b, x)
    ensures r.Some? ==> r.value < |b| && b[r.value][x] == Empty
    ensures r.Some? ==> forall y :: r.value < y < |b| ==> b[y][x] != Empty
    ensures r.None? <==> forall y :: 0 <= y < |b| ==> b[y][x] != Empty
  {
    ScanUp(b, x, |b|)
  }

  /** findSpotForCol, read off the board instead of the HTML table it mirrors.
      Table row `i` (for `i` from the height down to 1) is board row `i - 1`,
      because table row 0 is the row of column tops. */
  method FindSpotForCol(b: Board, x: int) returns (spot: Option<nat>)
    requires HasColumn(b, x)
    ensures spot == DropRow(b, x)
    ensures spot.Some? ==> b[spot.value][x] == Empty
  {
    var i := |b|;
    while i > 0
      invariant 0 <= i <= |b|
      invariant forall y :: i <= y < |b| ==> b[y][x] != Empty
      invariant DropRow(b, x) == ScanUp(b, x, i)
    {
      if b[i - 1][x] == Empty {
        return Some(i - 1);
      }
      i := i - 1;
    }
    return None;
  }

  /** On a board obeying gravity, a column is full exactly when its top cell
      is occupied. */
  lemma FullIffTopOccupied(b: Board, x: int)
    requires HasColumn(b, x) && Gravity(b) && |b| > 0
    ensures DropRow(b, x).None? <==> b[0][x] != Empty
  {
    if b[0][x] != Empty {
      forall y | 0 <= y < |b|
        ensures b[y][x] != Empty
      {
        if y > 0 {
          assert b[0][x] != Empty;
        }
      }
    }
  }

  /** On a board obeying gravity, the landing row sits directly above the
      column's stack: everything above it is empty as well. */
  lemma DropRowIsTopOfStack(b: Board, x: int)
    requires HasColumn(b, x) && Gravity(b) && DropRow(b, x).Some?
    ensures forall y :: 0 <= y <= DropRow(b, x).value ==> b[y][x] == Empty
  {
    var d := DropRow(b, x).value;
    forall y | 0 <= y <= d
      ensures b[y][x] == Empty
    {
      if y < d && b[y][x] != Empty {
        assert false;
      }
    }
  }

  /** Dropping a piece at the landing row keeps gravity, and the piece is the
      only change to the board. */
  lemma DropKeepsGravity(b: Board, x: int, c: Cell)
    requires HasColumn(b, x) && Gravity(b) && DropRow(b, x).Some? && c != Empty
    ensures Gravity(Place(b, DropRow(b, x).value, x, c))
  {
    var d := DropRow(b, x).value;
    var r := Place(b, d, x, c);
    DropRowIsTopOfStack(b, x);
    forall y, y', x' | 0 <= y < y' < |r| && 0 <= x' < |r[y]| && 0 <= x' < |r[y']| && r[y][x'] != Empty
      ensures r[y'][x'] != Empty
    {
      if x' == x && y' != d && y != d {
        assert b[y][x'] != Empty;
      }
    }
  }
}
