/**
  The two-player variant: a module-level board, the player to move and a
  game-over flag, changed by mouse clicks and the restart key. The winner test
  of this variant scans the lines in its own order and reports the line it
  found; there is no draw detection, so a full board without a line leaves
  the game running with nothing left to click.
 */
module GlobalGame {
  import opened Grid
  import opened Model

  /** The global state: the board, the player to move, and whether the game is over. */
  datatype Game = Game(board: Board, player: Player, gameOver: bool)

  /** The state at start-up: an empty board, cross to move, the game running. */
  function Initial(): (g: Game)
    ensures forall p | InBounds(p) :: At(g.board, p) == 0
    ensures ClaimedCount(g.board) == 0
    ensures g.player == 1 && !g.gameOver
  {
    EmptyBoardUnclaimed();
    Game(EmptyBoard, 1, false)
  }

  /**
    The winning lines in the order this variant's winner test scans them: the
    three columns left to right (0-2), the three rows top to bottom (3-5), the
    ascending diagonal from the bottom-left corner (6), then the descending
    diagonal listed from the bottom-right corner (7).
   */
  function WinLine(k: nat): BoardLine
    requires k < 8
  {
    if k < 3 then Line(Pos(0, k), Pos(1, k), Pos(2, k))
    else if k < 6 then Line(Pos(k - 3, 0), Pos(k - 3, 1), Pos(k - 3, 2))
    else if k == 6 then Line(Pos(2, 0), Pos(1, 1), Pos(0, 2))
    else Line(Pos(2, 2), Pos(1, 1), Pos(0, 0))
  }

  /** Some line is held entirely by `v`. */
  predicate HasLine(b: Board, v: Cell) {
    exists k | 0 <= k < 8 :: Complete(b, WinLine(k), v)
  }

  /** No line numbered from `i` up to (not including) `k` is held entirely by `v`. */
  predicate NoneBetween(b: Board, v: Cell, i: nat, k: nat) {
    forall j | i <= j < k && j < 8 :: !Complete(b, WinLine(j), v)
  }

  /** No line before number `k` is held entirely by `v`. */
  predicate NoneBefore(b: Board, v: Cell, k: nat) {
    NoneBetween(b, v, 0, k)
  }

  /** The number of the first line from `i` on held entirely by `v`, or 8 when there is none. */
  function FirstComplete(b: Board, v: Cell, i: nat): (k: nat)
    requires i <= 8
    ensures i <= k <= 8
    ensures NoneBetween(b, v, i, k)
    ensures k < 8 ==> Complete(b, WinLine(k), v)
    decreases 8 - i
  {
    if i == 8 then 8
    else if Complete(b, WinLine(i), v) then i
    else
      var k := FirstComplete(b, v, i + 1);
      assert NoneBetween(b, v, i, k) by {
        NoneBetweenExtend(b, v, i, k);
      }
      k
  }

  lemma NoneBetweenExtend(b: Board, v: Cell, i: nat, k: nat)
    requires i < 8 && !Complete(b, WinLine(i), v) && NoneBetween(b, v, i + 1, k)
    ensures NoneBetween(b, v, i, k)
  {
  }

  /** The line the winner test reports for `player`: the first complete one in scan order. */
  function ReportedLine(b: Board, player: Player): Option<BoardLine> {
    var k := FirstComplete(b, player, 0);
    if k < 8 then Some(WinLine(k)) else None
  }

  lemma NoneBeforeStep(b: Board, v: Cell, k: nat)
    requires k < 8 && NoneBefore(b, v, k) && !Complete(b, WinLine(k), v)
    ensures NoneBefore(b, v, k + 1)
  {
  }

  /** The first complete line is the one before which no line is complete. */
  lemma FirstCompleteIs(b: Board, v: Cell, k: nat)
    requires k <= 8 && NoneBefore(b, v, k) && (k < 8 ==> Complete(b, WinLine(k), v))
    ensures FirstComplete(b, v, 0) == k
  {
  }

  /** The player's mark on cell `p`. */
  function SpotClaim(b: Board, p: Pos, player: Player): (r: Board)
    requires InBounds(p)
    ensures At(r, p) == player
    ensures forall q | InBounds(q) && q != p :: At(r, q) == At(b, q)
    ensures At(b, p) == 0 ==> ClaimedCount(r) == ClaimedCount(b) + 1
  {
    ClaimedCountSet(b, p, player);
    Set(b, p, player)
  }

  /** True iff cell `p` is free. */
  predicate SpotAvailable(b: Board, p: Pos)
    requires InBounds(p)
  {
    At(b, p) == 0
  }

  /** A cell can be claimed exactly when the free-cell scan lists it. */
  lemma SpotAvailableIffListed(b: Board, p: Pos)
    requires InBounds(p)
    ensures SpotAvailable(b, p) <==> p in EmptySpots(b)
  {
    EmptySpotsSpec(b);
  }

  /** The full-board test: true exactly when no cell is free. */
  method BoardFull(b: Board) returns (full: bool)
    ensures full <==> NoEmptyCell(b)
    ensures full <==> ClaimedCount(b) == 9
    ensures full <==> forall p | InBounds(p) :: !SpotAvailable(b, p)
  {
    full := ScanFull(b);
    NoEmptyCellIffAllClaimed(b);
    AllPositionsIndexed();
    if !full {
      var i :| 0 <= i < 9 && b[i] == 0;
      assert SpotAvailable(b, AllPositions[i]);
    }
  }

  /**
    The winner test for `player`: columns, then rows, then the two diagonals;
    it answers whether a line is complete and hands the first one found to
    the drawing code.
   */
  method CheckWinner(b: Board, player: Player) returns (won: bool, drawn: Option<BoardLine>)
    ensures won <==> HasLine(b, player)
    ensures drawn == ReportedLine(b, player)
    ensures won <==> drawn.Some?
  {
    var col := 0;
    while col < 3
      invariant 0 <= col <= 3
      invariant NoneBefore(b, player, col)
    {
      if At(b, Pos(0, col)) == player && At(b, Pos(1, col)) == player && At(b, Pos(2, col)) == player {
        FirstCompleteIs(b, player, col);
        return true, Some(WinLine(col));
      }
      NoneBeforeStep(b, player, col);
      col := col + 1;
    }
    var row := 0;
    while row < 3
      invariant 0 <= row <= 3
      invariant NoneBefore(b, player, 3 + row)
    {
      if At(b, Pos(row, 0)) == player && At(b, Pos(row, 1)) == player && At(b, Pos(row, 2)) == player {
        FirstCompleteIs(b, player, 3 + row);
        return true, Some(WinLine(3 + row));
      }
      NoneBeforeStep(b, player, 3 + row);
      row := row + 1;
    }
    assert WinLine(6) == Line(Pos(2, 0), Pos(1, 1), Pos(0, 2));
    if At(b, Pos(2, 0)) == player && At(b, Pos(1, 1)) == player && At(b, Pos(0, 2)) == player {
      FirstCompleteIs(b, player, 6);
      return true, Some(WinLine(6));
    }
    NoneBeforeStep(b, player, 6);
    assert WinLine(7) == Line(Pos(2, 2), Pos(1, 1), Pos(0, 0));
    if At(b, Pos(2, 2)) == player && At(b, Pos(1, 1)) == player && At(b, Pos(0, 0)) == player {
      FirstCompleteIs(b, player, 7);
      return true, Some(WinLine(7));
    }
    NoneBeforeStep(b, player, 7);
    FirstCompleteIs(b, player, 8);
    return false, None;
  }

  /** Restart: every cell cleared and cross to move; the game-over flag is left to the caller. */
  function Restart(g: Game): (r: Game)
    ensures forall p | InBounds(p) :: At(r.board, p) == 0
    ensures ClaimedCount(r.board) == 0
    ensures r.player == 1 && r.gameOver == g.gameOver
    ensures r.(gameOver := false) == Initial()
  {
    EmptyBoardUnclaimed();
    Game(EmptyBoard, 1, g.gameOver)
  }

  /**
    A click on cell `p`: ignored once the game is over or when the cell is
    taken; otherwise the player to move claims it, the game ends if that
    completes one of the mover's lines, and the turn passes.
   */
  function ClickStep(g: Game, p: Pos): (r: Game)
    requires InBounds(p)
    ensures g.gameOver || At(g.board, p) != 0 ==> r == g
    ensures !g.gameOver && At(g.board, p) == 0 ==>
      && At(r.board, p) == g.player
      && (forall q | InBounds(q) && q != p :: At(r.board, q) == At(g.board, q))
      && r.player != g.player
      && (r.gameOver <==> HasLine(r.board, g.player))
  {
    if !g.gameOver && SpotAvailable(g.board, p) then
      var b := SpotClaim(g.board, p, g.player);
      Game(b, Next(g.player), HasLine(b, g.player))
    else g
  }

  /** The events the loop reacts to: closing the window, a click at a pixel, the R key, any other key. */
  datatype Input = Quit | Press(x: int, y: int) | KeyR | OtherKey

  /** The loop's state: the game and whether the loop keeps running. */
  datatype Loop = Loop(game: Game, run: bool)

  /** One event; closing the window clears the loop flag, which is only tested once the batch is done. */
  function Step(l: Loop, e: Input): (r: Loop)
    requires e.Press? ==> InWindow(e.x, e.y)
    ensures e == Quit ==> r == l.(run := false)
    ensures e == KeyR ==> r == Loop(Initial(), l.run)
    ensures e == OtherKey ==> r == l
    ensures e.Press? ==> r == Loop(ClickStep(l.game, CellAt(e.x, e.y)), l.run)
  {
    match e
    case Quit => l.(run := false)
    case Press(x, y) => Loop(ClickStep(l.game, CellAt(x, y)), l.run)
    case KeyR => Loop(Restart(l.game).(gameOver := false), l.run)
    case OtherKey => l
  }

  predicate PressesInWindow(events: seq<Input>) {
    forall k | 0 <= k < |events| :: events[k].Press? ==> InWindow(events[k].x, events[k].y)
  }

  /**
    One pass of the loop: the batch of queued events, in order. The loop stops
    after the pass exactly when the window was closed during it.
   */
  function Steps(l: Loop, events: seq<Input>): (r: Loop)
    requires PressesInWindow(events)
    ensures Quit in events ==> !r.run
    ensures Quit !in events ==> r.run == l.run
    decreases |events|
  {
    if events == [] then l
    else
      assert Quit in events <==> events[0] == Quit || Quit in events[1..] by {
        assert events == [events[0]] + events[1..];
      }
      Steps(Step(l, events[0]), events[1..])
  }

  /** Closing the window does not cut the batch short: a click queued after it is still applied. */
  lemma QuitThenPress(l: Loop, x: int, y: int)
    requires InWindow(x, y)
    ensures PressesInWindow([Quit, Press(x, y)])
    ensures Steps(l, [Quit, Press(x, y)]) == Loop(ClickStep(l.game, CellAt(x, y)), false)
  {
    var l1 := Step(l, Quit);
    assert [Quit, Press(x, y)][1..] == [Press(x, y)];
    assert Steps(l, [Quit, Press(x, y)]) == Steps(l1, [Press(x, y)]);
    assert [Press(x, y)][1..] == [];
    assert Steps(l1, [Press(x, y)]) == Steps(Step(l1, Press(x, y)), []);
  }

  /**
    The states the game can reach: cross is to move exactly after an even
    number of claims; while the game runs nobody holds a line; once it is
    over exactly the player who moved last holds one.
   */
  predicate GameInv(g: Game) {
    && (g.player == 1 <==> ClaimedCount(g.board) % 2 == 0)
    && (!g.gameOver ==> !HasLine(g.board, 1) && !HasLine(g.board, 2))
    && (g.gameOver ==> HasLine(g.board, Next(g.player)) && !HasLine(g.board, g.player))
  }

  lemma InitialInv()
    ensures GameInv(Initial())
  {
    var g := Initial();
    forall k | 0 <= k < 8
      ensures !Complete(g.board, WinLine(k), 1) && !Complete(g.board, WinLine(k), 2)
    {
      assert At(g.board, WinLine(k).a) == 0;
    }
  }

  /** A line held by `w` after `v` is written somewhere, with `w != v`, was held by `w` before. */
  lemma LineSurvivesOtherMark(b: Board, p: Pos, v: Cell, w: Cell)
    requires InBounds(p) && w != v && HasLine(Set(b, p, v), w)
    ensures HasLine(b, w)
  {
    var k :| 0 <= k < 8 && Complete(Set(b, p, v), WinLine(k), w);
    CompleteSurvivesOtherMark(b, p, v, w, WinLine(k));
  }

  lemma CompleteSurvivesOtherMark(b: Board, p: Pos, v: Cell, w: Cell, l: BoardLine)
    requires InBounds(p) && w != v && Complete(Set(b, p, v), l, w)
    ensures Complete(b, l, w)
  {
    assert l.a != p && l.b != p && l.c != p;
  }

  /** A click keeps the reachable-state invariant. */
  lemma ClickKeepsInv(g: Game, p: Pos)
    requires GameInv(g) && InBounds(p)
    ensures GameInv(ClickStep(g, p))
  {
    if !g.gameOver && At(g.board, p) == 0 {
      ClaimKeepsInv(g, p);
    }
  }

  /** The applied click, the one case in which the state changes. */
  lemma ClaimKeepsInv(g: Game, p: Pos)
    requires GameInv(g) && InBounds(p) && !g.gameOver && At(g.board, p) == 0
    ensures GameInv(ClickStep(g, p))
  {
    var b := Set(g.board, p, g.player);
    var r := Game(b, Next(g.player), HasLine(b, g.player));
    assert ClickStep(g, p) == r;
    assert r.player == 1 <==> ClaimedCount(b) % 2 == 0 by {
      ClaimedCountSet(g.board, p, g.player);
      NextKeepsParity(g.player, ClaimedCount(g.board));
    }
    assert !HasLine(b, r.player) by {
      if HasLine(b, r.player) {
        LineSurvivesOtherMark(g.board, p, g.player, r.player);
        assert false;
      }
    }
    InvAfterMove(r, g.player);
  }

  /**
    After `mover` has moved: if the player now to move holds no line and the
    game is over exactly when the mover holds one, the invariant holds.
   */
  lemma InvAfterMove(r: Game, mover: Player)
    requires r.player == 1 <==> ClaimedCount(r.board) % 2 == 0
    requires r.player != mover && !HasLine(r.board, r.player)
    requires r.gameOver <==> HasLine(r.board, mover)
    ensures GameInv(r)
  {
    NextIsTheOther(r.player, mover);
  }

  /** Every event keeps the reachable-state invariant. */
  lemma StepKeepsInv(l: Loop, e: Input)
    requires GameInv(l.game) && (e.Press? ==> InWindow(e.x, e.y))
    ensures GameInv(Step(l, e).game)
  {
    match e
    case Press(x, y) => ClickKeepsInv(l.game, CellAt(x, y));
    case KeyR => InitialInv();
    case Quit =>
    case OtherKey =>
  }

  /** Every pass of the loop keeps the reachable-state invariant. */
  lemma {:induction false} StepsKeepInv(l: Loop, events: seq<Input>)
    requires GameInv(l.game) && PressesInWindow(events)
    ensures GameInv(Steps(l, events).game)
    decreases |events|
  {
    if events != [] {
      StepKeepsInv(l, events[0]);
      StepsKeepInv(Step(l, events[0]), events[1..]);
    }
  }

  /**
    Once the game is over the winner is the player who moved last, and the
    other variant's winner test names the same player.
   */
  lemma GameOverNamesWinner(g: Game)
    requires GameInv(g) && g.gameOver
    ensures FinalState(g.board) == Next(g.player)
  {
    var w := FinalState(g.board);
    assert HasLine(g.board, 1) || HasLine(g.board, 2) by {
      assert Next(g.player) == 1 || Next(g.player) == 2;
    }
    assert w != 0 by {
      WinnerTestsAgree(g.board);
    }
    assert HasLine(g.board, w) by {
      WinnerTestsAgree(g.board);
    }
    WinnerIsLastMover(g.board, g.player, w);
  }

  lemma WinnerIsLastMover(b: Board, player: Player, w: Cell)
    requires !HasLine(b, player) && w != 0 && HasLine(b, w)
    ensures w == Next(player)
  {
    NextIsTheOther(player, w);
  }

  /**
    Without draw detection a full board without a line is a dead end: the
    game is not over, yet every click is ignored; only the restart key
    leaves this state.
   */
  lemma DrawIsStuck(g: Game)
    requires GameInv(g) && NoEmptyCell(g.board) && FinalState(g.board) == 0
    ensures !g.gameOver
    ensures forall p | InBounds(p) :: ClickStep(g, p) == g
  {
    WinnerTestsAgree(g.board);
    forall p | InBounds(p)
      ensures ClickStep(g, p) == g
    {
      assert g.board[Idx(p)] != 0;
    }
  }

  /** The other variant's number for line `k`: the two diagonals are scanned in the opposite order. */
  function Swap(k: nat): (k': nat)
    requires k < 8
    ensures k' < 8
  {
    if k == 6 then 7 else if k == 7 then 6 else k
  }

  /** Line `k` here and line `Swap(k)` of the other variant hold the same three cells. */
  lemma SameLineAt(b: Board, v: Cell, k: nat)
    requires k < 8
    ensures Complete(b, WinLine(k), v) <==> Complete(b, Lines[Swap(k)], v)
  {
    if k < 3 {
      assert Lines[k] == Line(Pos(0, k), Pos(1, k), Pos(2, k));
    } else if k < 6 {
      assert Lines[k] == Line(Pos(k - 3, 0), Pos(k - 3, 1), Pos(k - 3, 2));
    }
  }

  /** The two variants' line lists hold the same lines. */
  lemma SameLines(b: Board, v: Cell)
    ensures HasLine(b, v) <==> exists k | 0 <= k < |Lines| :: Complete(b, Lines[k], v)
  {
    if HasLine(b, v) {
      var k :| 0 <= k < 8 && Complete(b, WinLine(k), v);
      SameLineAt(b, v, k);
    }
    if exists k | 0 <= k < |Lines| :: Complete(b, Lines[k], v) {
      var k :| 0 <= k < |Lines| && Complete(b, Lines[k], v);
      assert Swap(Swap(k)) == k;
      SameLineAt(b, v, Swap(k));
    }
  }

  /**
    The winner tests of the two variants agree: some player holds a line
    exactly when the other variant reports a winner, and the player it
    reports holds a line.
   */
  lemma WinnerTestsAgree(b: Board)
    ensures HasLine(b, 1) || HasLine(b, 2) <==> FinalState(b) != 0
    ensures FinalState(b) != 0 ==> HasLine(b, FinalState(b))
  {
    if HasLine(b, 1) {
      LineGivesWinner(b, 1);
    }
    if HasLine(b, 2) {
      LineGivesWinner(b, 2);
    }
    if FinalState(b) != 0 {
      WinnerHasLine(b);
    }
  }

  lemma LineGivesWinner(b: Board, v: Cell)
    requires v != 0 && HasLine(b, v)
    ensures FinalState(b) != 0
  {
    SameLines(b, v);
    var k :| 0 <= k < |Lines| && Complete(b, Lines[k], v);
    assert Won(b, Lines[k]);
    FinalStateSpec(b);
  }

  lemma WinnerHasLine(b: Board)
    requires FinalState(b) != 0
    ensures HasLine(b, FinalState(b))
  {
    var w := FinalState(b);
    assert exists k | 0 <= k < |Lines| :: Complete(b, Lines[k], w) by {
      FinalStateSpec(b);
    }
    SameLines(b, w);
  }
}
