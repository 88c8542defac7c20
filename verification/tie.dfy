/** The tie test as the source writes it, and a board on which the difference
    from the intended test shows. */
module TieFinding {
  import opened Grid
  import opened Drop
  import opened FourInARow
  import opened Game

  /** `handleClick` exactly as written: the same as `Click` except that the tie
      test is the source's always-false `every`. */
  function SourceClick(s: GameState, x: int): (r: GameState)
    requires IsGrid(s.board, HEIGHT, WIDTH) && 0 <= x < WIDTH
    ensures r.board == Click(s, x).board
    ensures s.status != Over(Tie) ==> r.status != Over(Tie)
  {
    if s.status.Over? then s
    else match DropRow(s.board, x)
      case None => s
      case Some(y) =>
        var b := Place(s.board, y, x, Piece(s.currPlayer));
        SourceTieNeverHolds(b);
        Settle(b, s.currPlayer, SourceTie(b))
  }

  /** Owner of cell (y, x) in a drawn position: pairs of columns alternate
      2 2 1 1 2 2 1 along a row, and each row is the previous one with the
      players swapped. Each player owns 21 cells. */
  function DrawOwner(y: int, x: int): (p: int)
    ensures IsPlayer(p)
  {
    if (x / 2 + y) % 2 == 0 then 2 else 1
  }

  function DrawBoard(): (b: Board)
    ensures IsGrid(b, HEIGHT, WIDTH)
    ensures forall y, x :: 0 <= y < HEIGHT && 0 <= x < WIDTH ==> b[y][x] == Piece(DrawOwner(y, x))
  {
    seq(HEIGHT, y => seq(WIDTH, x => Piece(DrawOwner(y, x))))
  }

  /** Every piece on `b` sits where `DrawBoard` has the same piece. */
  predicate FollowsDraw(b: Board)
    requires IsGrid(b, HEIGHT, WIDTH)
  {
    forall y, x :: 0 <= y < HEIGHT && 0 <= x < WIDTH && b[y][x] != Empty ==> b[y][x] == Piece(DrawOwner(y, x))
  }

  /** Two cells whose `x / 2 + y` differ by one belong to different players. */
  lemma OwnersDiffer(y: int, x: int, y': int, x': int)
    requires x' / 2 + y' == x / 2 + y + 1
    ensures DrawOwner(y, x) != DrawOwner(y', x')
  {
  }

  /** Along any of the four directions, some two neighbouring cells of a
      candidate run differ in `x / 2 + y` by one. */
  lemma {:induction false} RunBroken(b: Board, p: int, y: int, x: int, dy: int, dx: int)
    requires IsGrid(b, HEIGHT, WIDTH) && FollowsDraw(b)
    requires (dy, dx) in {(0, 1), (1, 0), (1, 1), (1, -1)}
    ensures !Run(b, HEIGHT, WIDTH, p, y, x, dy, dx)
  {
    if dy == 1 && dx == 0 {
      OwnersDiffer(y, x, y + 1, x);
    } else if x % 2 == 0 {
      assert x / 2 == (x + 1) / 2 && (x + 2) / 2 == x / 2 + 1 && (x - 1) / 2 + 1 == x / 2;
      if dy == 0 {
        OwnersDiffer(y, x + 1, y, x + 2);
      } else if dx == 1 {
        OwnersDiffer(y, x, y + 1, x + 1);
      } else {
        OwnersDiffer(y + 1, x - 1, y + 2, x - 2);
      }
    } else {
      assert x / 2 + 1 == (x + 1) / 2 && (x + 1) / 2 == (x + 2) / 2 && (x - 1) / 2 == x / 2;
      if dy == 0 {
        OwnersDiffer(y, x, y, x + 1);
      } else if dx == 1 {
        OwnersDiffer(y + 1, x + 1, y + 2, x + 2);
      } else {
        OwnersDiffer(y, x, y + 1, x - 1);
      }
    }
  }

  /** On a board laid out like `DrawBoard`, possibly with some cells still
      empty, nobody has four in a row. */
  lemma {:induction false} DrawPatternHasNoWin(b: Board, p: int)
    requires IsGrid(b, HEIGHT, WIDTH) && FollowsDraw(b)
    ensures !Win(b, HEIGHT, WIDTH, p)
  {
    forall y, x | 0 <= y < HEIGHT && 0 <= x < WIDTH
      ensures !WinAt(b, HEIGHT, WIDTH, p, y, x)
    {
      RunBroken(b, p, y, x, 0, 1);
      RunBroken(b, p, y, x, 1, 0);
      RunBroken(b, p, y, x, 1, 1);
      RunBroken(b, p, y, x, 1, -1);
    }
  }

  /** The drawn position one piece short: only the top of column 0 is still
      empty, player 1 has 21 pieces and player 2 has 20, and player 2 is to
      move, which are the counts of a game player 1 opened. The model does not
      prove the position reachable by a sequence of clicks. */
  function LastMoveState(): GameState {
    GameState(Place(DrawBoard(), 0, 0, Empty), 2, InPlay)
  }

  /** The state one move before the end satisfies the game invariant. */
  lemma LastMoveStateValid()
    ensures Valid(LastMoveState())
  {
    DrawPatternHasNoWin(LastMoveState().board, 1);
    DrawPatternHasNoWin(LastMoveState().board, 2);
  }

  /** The last move lands in the top cell of column 0 and fills the board
      without four in a row. */
  lemma {:induction false} LastMoveFillsBoard()
    ensures DropRow(LastMoveState().board, 0) == Some(0)
    ensures var b := Place(LastMoveState().board, 0, 0, Piece(2));
      BoardFull(b) && !Win(b, HEIGHT, WIDTH, 2)
  {
    var s := LastMoveState();
    assert s.board[0][0] == Empty;
    var b := Place(s.board, 0, 0, Piece(2));
    var d := DrawBoard();
    assert b == d by {
      assert forall y :: 0 <= y < HEIGHT ==> b[y] == d[y];
    }
    DrawPatternHasNoWin(b, 2);
  }

  /** The counterexample. Filling the last cell gives a full board with no
      four in a row. The intended rules declare a tie. The source as written
      keeps the game in play with player 1 to move, and from then on every
      click lands on a full column and is ignored, so the game can never end. */
  lemma SourceMissesDraw()
    ensures Click(LastMoveState(), 0).status == Over(Tie)
    ensures var t := SourceClick(LastMoveState(), 0);
      && t.status == InPlay && t.currPlayer == 1 && BoardFull(t.board)
      && forall x :: 0 <= x < WIDTH ==> SourceClick(t, x) == t
  {
    LastMoveFillsBoard();
    var t := SourceClick(LastMoveState(), 0);
    forall x | 0 <= x < WIDTH
      ensures SourceClick(t, x) == t
    {
      assert DropRow(t.board, x).None?;
    }
  }
}
