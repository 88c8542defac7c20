/** The game's state and its transitions: a click on a column top, the end
    of the game, and the reset button. */
module Game {
  import opened Grid
  import opened Drop
  import opened FourInARow

  /** How a finished game ended; it stands for the message `endGame` shows. */
  datatype Outcome = Winner(player: int) | Tie

  /** `InPlay` is the board taking clicks; `Over` is the board after
      `endGame` has switched its pointer events off. */
  datatype Status = InPlay | Over(outcome: Outcome)

  /** The source's globals `board` and `currPlayer`, plus the input switch. */
  datatype GameState = GameState(board: Board, currPlayer: int, status: Status)

  predicate IsPlayer(p: int) {
    p == 1 || p == 2
  }

  /** The turn switch `currPlayer === 1 ? 2 : 1`. */
  function Flip(p: int): (q: int)
    ensures IsPlayer(q)
    ensures IsPlayer(p) ==> q != p
  {
    if p == 1 then 2 else 1
  }

  /** Switching turns twice hands the turn back. */
  lemma FlipTwice(p: int)
    requires IsPlayer(p)
    ensures Flip(Flip(p)) == p
  {
  }

  /** The state the page starts in: an empty board and player 1 to move. */
  function NewGame(): (s: GameState)
    ensures IsGrid(s.board, HEIGHT, WIDTH) && s.currPlayer == 1 && s.status == InPlay
    ensures forall y, x :: 0 <= y < HEIGHT && 0 <= x < WIDTH ==> s.board[y][x] == Empty
  {
    GameState(EmptyBoard(HEIGHT, WIDTH), 1, InPlay)
  }

  /** What `handleClick` does once the piece is on board `b`: a win for the
      mover ends the game with the turn unchanged; otherwise a tie (as `tie`
      reports it) ends the game; otherwise the turn passes. */
  function Settle(b: Board, p: int, tie: bool): (r: GameState)
    requires IsGrid(b, HEIGHT, WIDTH)
    ensures r.board == b
    ensures r.status == Over(Winner(p)) <==> Win(b, HEIGHT, WIDTH, p)
    ensures r.status == Over(Tie) <==> !Win(b, HEIGHT, WIDTH, p) && tie
    ensures r.status.Over? ==> r.currPlayer == p
    ensures r.status == InPlay <==> !Win(b, HEIGHT, WIDTH, p) && !tie
    ensures r.status == InPlay ==> r.currPlayer == Flip(p)
  {
    if Win(b, HEIGHT, WIDTH, p) then GameState(b, p, Over(Winner(p)))
    else if tie then GameState(b, p, Over(Tie))
    else GameState(b, Flip(p), InPlay)
  }

  /** A click on the top of column `x`. A finished game takes no clicks, and
      a click on a full column is ignored; otherwise the mover's piece lands in
      the lowest empty row, and the game is settled with the tie test "every
      cell is filled". */
  function Click(s: GameState, x: int): (r: GameState)
    requires IsGrid(s.board, HEIGHT, WIDTH) && 0 <= x < WIDTH
    ensures s.status.Over? || DropRow(s.board, x).None? ==> r == s
    ensures s.status == InPlay && DropRow(s.board, x).Some? ==>
      var y := DropRow(s.board, x).value;
      && IsGrid(r.board, HEIGHT, WIDTH)
      && s.board[y][x] == Empty
      && r.board[y][x] == Piece(s.currPlayer)
      && (forall i, j :: 0 <= i < HEIGHT && 0 <= j < WIDTH && (i, j) != (y, x) ==> r.board[i][j] == s.board[i][j])
      && (r.status == Over(Winner(s.currPlayer)) <==> Win(r.board, HEIGHT, WIDTH, s.currPlayer))
      && (r.status == Over(Tie) <==> !Win(r.board, HEIGHT, WIDTH, s.currPlayer) && BoardFull(r.board))
      && (r.status == InPlay <==> !Win(r.board, HEIGHT, WIDTH, s.currPlayer) && !BoardFull(r.board))
      && (r.status.Over? ==> r.currPlayer == s.currPlayer)
      && (r.status == InPlay ==> r.currPlayer == Flip(s.currPlayer))
  {
    if s.status.Over? then s
    else match DropRow(s.board, x)
      case None => s
      case Some(y) =>
        var b := Place(s.board, y, x, Piece(s.currPlayer));
        Settle(b, s.currPlayer, BoardFull(b))
  }

  /** The reset button: a fresh empty board and input switched back on. The
      turn is left with whoever had it. */
  function Reset(s: GameState): (r: GameState)
    ensures IsGrid(r.board, HEIGHT, WIDTH)
    ensures forall y, x :: 0 <= y < HEIGHT && 0 <= x < WIDTH ==> r.board[y][x] == Empty
    ensures r.status == InPlay
    ensures r.currPlayer == s.currPlayer
  {
    GameState(EmptyBoard(HEIGHT, WIDTH), s.currPlayer, InPlay)
  }

  /** What holds of every state the game can reach: the board has the game's
      shape and obeys gravity, only players 1 and 2 appear, a game in play has
      no four in a row, a won game shows the winner's run with the turn still
      on the winner, and a tied game has a full board with no run. */
  predicate Valid(s: GameState) {
    && IsGrid(s.board, HEIGHT, WIDTH)
    && Gravity(s.board)
    && IsPlayer(s.currPlayer)
    && (forall y, x :: 0 <= y < HEIGHT && 0 <= x < WIDTH && s.board[y][x].Piece? ==> IsPlayer(s.board[y][x].player))
    && (s.status == InPlay ==> !Win(s.board, HEIGHT, WIDTH, 1) && !Win(s.board, HEIGHT, WIDTH, 2))
    && (s.status.Over? && s.status.outcome.Winner? ==>
          s.status.outcome.player == s.currPlayer && Win(s.board, HEIGHT, WIDTH, s.currPlayer))
    && (s.status == Over(Tie) ==>
          BoardFull(s.board) && !Win(s.board, HEIGHT, WIDTH, 1) && !Win(s.board, HEIGHT, WIDTH, 2))
  }

  /** An empty board has no run for anybody. */
  lemma EmptyHasNoWin(b: Board, p: int)
    requires IsGrid(b, HEIGHT, WIDTH)
    requires forall y, x :: 0 <= y < HEIGHT && 0 <= x < WIDTH ==> b[y][x] == Empty
    ensures !Win(b, HEIGHT, WIDTH, p)
  {
  }

  lemma NewGameValid()
    ensures Valid(NewGame())
  {
    EmptyHasNoWin(NewGame().board, 1);
    EmptyHasNoWin(NewGame().board, 2);
  }

  lemma ResetValid(s: GameState)
    requires IsPlayer(s.currPlayer)
    ensures Valid(Reset(s))
  {
    EmptyHasNoWin(Reset(s).board, 1);
    EmptyHasNoWin(Reset(s).board, 2);
  }

  /** Every click keeps the state valid; in particular the turn stays with
      player 1 or 2 and the board keeps obeying gravity. */
  lemma {:induction false} ClickValid(s: GameState, x: int)
    requires Valid(s) && 0 <= x < WIDTH
    ensures Valid(Click(s, x))
  {
    if s.status == InPlay && DropRow(s.board, x).Some? {
      var y := DropRow(s.board, x).value;
      var p := s.currPlayer;
      var q := Flip(p);
      var b := Place(s.board, y, x, Piece(p));
      DropKeepsGravity(s.board, x, Piece(p));
      NoWinForOpponent(s.board, HEIGHT, WIDTH, y, x, p, q);
      assert IsPlayer(q) && q != p;
      var r := Click(s, x);
      assert r.board == b;
      if r.status == Over(Tie) {
        assert !Win(b, HEIGHT, WIDTH, 1) && !Win(b, HEIGHT, WIDTH, 2);
      }
    }
  }

  /** A user action: a click on a column top, or the reset button. */
  datatype Action = ClickColumn(x: int) | PressReset

  predicate ColumnsInRange(acts: seq<Action>) {
    forall i :: 0 <= i < |acts| && acts[i].ClickColumn? ==> 0 <= acts[i].x < WIDTH
  }

  /** One user action applied to a valid state gives a valid state. */
  function Step(s: GameState, a: Action): (r: GameState)
    requires Valid(s) && (a.ClickColumn? ==> 0 <= a.x < WIDTH)
    ensures Valid(r)
  {
    match a
    case ClickColumn(x) => ClickValid(s, x); Click(s, x)
    case PressReset => ResetValid(s); Reset(s)
  }

  /** The state after a sequence of actions; every state on the way is
      valid, so the invariants hold after any sequence of moves and resets. */
  function Play(s: GameState, acts: seq<Action>): (r: GameState)
    requires Valid(s) && ColumnsInRange(acts)
    ensures Valid(r)
    decreases |acts|
  {
    if |acts| == 0 then s
    else Play(Step(s, acts[0]), acts[1..])
  }

  /** Once a game is over, clicks change nothing until the reset button. */
  lemma {:induction false} OverIsFinal(s: GameState, acts: seq<Action>)
    requires Valid(s) && ColumnsInRange(acts) && s.status.Over?
    requires forall i :: 0 <= i < |acts| ==> acts[i].ClickColumn?
    ensures Play(s, acts) == s
    decreases |acts|
  {
    if |acts| > 0 {
      assert Step(s, acts[0]) == s;
      OverIsFinal(s, acts[1..]);
    }
  }
}
