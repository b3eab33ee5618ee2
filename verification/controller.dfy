/**
  The turn and game-over state machine of the computer-opponent variant, and
  the guards of its event loop that decide when a human click or a computer
  move is applied. One frame of the loop handles the queued events in order
  and then lets the computer move if it is its turn.
 */
module Controller {
  import opened Grid
  import opened Model
  import opened Ai

  /** The game mode: against the computer, or two humans. */
  datatype Mode = AiMode | Pvp

  datatype State = State(model: Model, ai: AI, gamemode: Mode, player: Player, running: bool)

  /** The input events the loop reacts to: the G, R, 0 and 1 keys and a click at a pixel. */
  datatype Event = KeyG | KeyR | Key0 | Key1 | OtherKey | Click(x: int, y: int)

  /** A new game: empty board, default opponent, computer mode, cross to move. */
  function Init(): (c: State)
    ensures Valid(c.model) && EmptyBoardTest(c.model)
    ensures c.player == 1 && c.gamemode == AiMode && c.running
    ensures c.ai.level != 0 && c.ai.player == 2
    ensures Inv(c)
  {
    var c := State(New(), DefaultAI(), AiMode, 1, true);
    FreshStateInv(c);
    c
  }

  /** A running state with no claim and cross to move satisfies the invariant. */
  lemma FreshStateInv(c: State)
    requires Valid(c.model) && c.model.claimedSpot == 0 && c.player == 1 && c.running
    ensures Inv(c)
  {
    FewClaimsNoWinner(c.model.spots);
  }

  /** The current player claims cell `p` and the turn passes to the other player. */
  function Move(c: State, p: Pos): (r: State)
    requires InBounds(p)
    ensures At(r.model.spots, p) == c.player
    ensures forall q | InBounds(q) && q != p :: At(r.model.spots, q) == At(c.model.spots, q)
    ensures r.model.claimedSpot == c.model.claimedSpot + 1
    ensures r.player != c.player
    ensures r.ai == c.ai && r.gamemode == c.gamemode && r.running == c.running
  {
    c.(model := SpotClaim(c.model, p, c.player), player := Next(c.player))
  }

  /** Toggle between computer mode and two-player mode. */
  function ChangeGamemode(mode: Mode): (r: Mode)
    ensures r != mode
  {
    if mode == Pvp then AiMode else Pvp
  }

  /** The game is over when a line is complete or nine claims have been made. */
  predicate Gameover(c: State) {
    FinalState(c.model.spots) != 0 || FullBoard(c.model)
  }

  /** Restart: a brand-new controller, whatever the state before. */
  function Restart(c: State): (r: State)
    ensures Valid(r.model) && forall p | InBounds(p) :: SpotAvailable(r.model, p)
    ensures r.player == 1 && r.gamemode == AiMode && r.running && !Gameover(r)
    ensures r.ai.level == 1 && r.ai.player == 2
  {
    Init()
  }

  /**
    The reachable-state invariant: the counter matches the board, the game runs
    exactly while it is not over, and cross is to move exactly when an even
    number of claims has been made.
   */
  predicate Inv(c: State) {
    && Valid(c.model)
    && (c.running <==> !Gameover(c))
    && (c.player == 1 <==> c.model.claimedSpot % 2 == 0)
  }

  /** A move on a free cell followed by the loop's game-over test keeps the invariant. */
  lemma MoveKeepsInv(c: State, p: Pos)
    requires Valid(c.model) && (c.player == 1 <==> c.model.claimedSpot % 2 == 0)
    requires InBounds(p) && At(c.model.spots, p) == 0
    ensures Valid(Move(c, p).model)
    ensures Move(c, p).player == 1 <==> Move(c, p).model.claimedSpot % 2 == 0
    ensures var r := Move(c, p); Inv(r.(running := !Gameover(r)))
  {
    NextKeepsParity(c.player, c.model.claimedSpot);
    ClaimPreservesValid(c.model, p, c.player);
  }

  /**
    A click on a cell: applied only when the cell is free and the game is
    running; after the move the game stops if it is over. The click is not
    checked against whose turn it is.
   */
  function HumanClick(c: State, p: Pos): (r: State)
    requires InBounds(p)
    ensures !(SpotAvailable(c.model, p) && c.running) ==> r == c
    ensures SpotAvailable(c.model, p) && c.running ==>
      && r.model.claimedSpot == c.model.claimedSpot + 1
      && At(r.model.spots, p) == c.player
      && (forall q | InBounds(q) && q != p :: At(r.model.spots, q) == At(c.model.spots, q))
      && r.player != c.player
      && (r.running <==> !Gameover(r))
      && r.ai == c.ai && r.gamemode == c.gamemode
    ensures Inv(c) ==> Inv(r)
  {
    if EmptySpot(c.model, p) && c.running then
      var r := Move(c, p);
      assert Inv(c) ==> Inv(r.(running := !Gameover(r))) by {
        if Inv(c) {
          MoveKeepsInv(c, p);
        }
      }
      r.(running := !Gameover(r))
    else c
  }

  /** It is the computer's turn to move. */
  predicate AiToMove(c: State) {
    c.gamemode == AiMode && c.player == c.ai.player && c.running
  }

  /**
    The computer's move at the end of a frame, taken only in computer mode, on
    its turn, while the game runs; `pick` is the random draw used at level 0.
   */
  function AiTurn(c: State, pick: nat): (r: State)
    requires Inv(c)
    ensures !AiToMove(c) ==> r == c
    ensures AiToMove(c) ==>
      && r.model.claimedSpot == c.model.claimedSpot + 1
      && (exists p | InBounds(p) :: SpotAvailable(c.model, p) && At(r.model.spots, p) == c.ai.player
            && forall q | InBounds(q) && q != p :: At(r.model.spots, q) == At(c.model.spots, q))
      && r.player != c.player
      && (r.running <==> !Gameover(r))
    ensures r.ai == c.ai && r.gamemode == c.gamemode
    ensures AiToMove(c) ==> EmptySpots(c.model.spots) != []
    ensures AiToMove(c) ==>
      && Evaluation(c.ai, c.model, pick).Some?
      && InBounds(Evaluation(c.ai, c.model, pick).value)
      && var m := Move(c, Evaluation(c.ai, c.model, pick).value);
         r == m.(running := !Gameover(m))
    ensures Inv(r)
  {
    if AiToMove(c) then
      assert EmptySpots(c.model.spots) != [] by {
        FullBoardIffNoEmptyCell(c.model);
      }
      var mv := Evaluation(c.ai, c.model, pick);
      assert mv.Some? && InBounds(mv.value) && SpotAvailable(c.model, mv.value) by {
        EmptySpotsSpec(c.model.spots);
      }
      MoveKeepsInv(c, mv.value);
      var r := Move(c, mv.value);
      r.(running := !Gameover(r))
    else c
  }

  /** One input event. */
  function HandleEvent(c: State, e: Event): (r: State)
    requires e.Click? ==> InWindow(e.x, e.y)
    ensures Inv(c) ==> Inv(r)
    ensures e == KeyG ==> r == c.(gamemode := ChangeGamemode(c.gamemode))
    ensures e == KeyR ==> r == Init()
    ensures e == Key0 ==> r == c.(ai := c.ai.(level := 0))
    ensures e == Key1 ==> r == c.(ai := c.ai.(level := 1))
    ensures e == OtherKey ==> r == c
  {
    match e
    case KeyG => c.(gamemode := ChangeGamemode(c.gamemode))
    case KeyR => Restart(c)
    case Key0 => c.(ai := c.ai.(level := 0))
    case Key1 => c.(ai := c.ai.(level := 1))
    case OtherKey => c
    case Click(x, y) => HumanClick(c, CellAt(x, y))
  }

  /**
    One input event, with the click also checked against whose turn it is: the
    keys act as in `HandleEvent`, and a click goes through `HumanClickOnTurn`.
   */
  function HandleEventOnTurn(c: State, e: Event): (r: State)
    requires e.Click? ==> InWindow(e.x, e.y)
    ensures Inv(c) ==> Inv(r)
    ensures !e.Click? ==> r == HandleEvent(c, e)
    ensures e.Click? && AiToMove(c) ==> r == c
    ensures e.Click? && !(c.gamemode == AiMode && c.player == c.ai.player) ==> r == HandleEvent(c, e)
  {
    if e.Click? then HumanClickOnTurn(c, CellAt(e.x, e.y)) else HandleEvent(c, e)
  }

  predicate ClicksInWindow(events: seq<Event>) {
    forall k | 0 <= k < |events| :: events[k].Click? ==> InWindow(events[k].x, events[k].y)
  }

  /** The events of one frame, in order. */
  function HandleEvents(c: State, events: seq<Event>): (r: State)
    requires ClicksInWindow(events)
    ensures Inv(c) ==> Inv(r)
    decreases |events|
  {
    if events == [] then c
    else HandleEvents(HandleEvent(c, events[0]), events[1..])
  }

  /** One pass of the loop: the frame's events, then the computer's move if it is its turn. */
  function Frame(c: State, events: seq<Event>, pick: nat): (r: State)
    requires Inv(c) && ClicksInWindow(events)
    ensures Inv(r)
  {
    var c' := HandleEvents(c, events);
    AiTurn(c', pick)
  }

  /** The events of one frame, in order, with the turn-checked click. */
  function HandleEventsOnTurn(c: State, events: seq<Event>): (r: State)
    requires ClicksInWindow(events)
    ensures Inv(c) ==> Inv(r)
    decreases |events|
  {
    if events == [] then c
    else HandleEventsOnTurn(HandleEventOnTurn(c, events[0]), events[1..])
  }

  /**
    Two clicks of a new game in computer mode, in one frame of the loop: the
    first places cross, and the second is applied with the computer's mark,
    so the human plays both sides and the computer is not to move afterwards.
   */
  lemma TwoClicksPlayBothMarks(c: State, x1: int, y1: int, x2: int, y2: int)
    requires Inv(c) && c.model.claimedSpot == 0 && c.gamemode == AiMode && c.ai.player == 2
    requires InWindow(x1, y1) && InWindow(x2, y2) && CellAt(x1, y1) != CellAt(x2, y2)
    ensures var events := [Click(x1, y1), Click(x2, y2)];
      && ClicksInWindow(events)
      && var r := HandleEvents(c, events);
      && At(r.model.spots, CellAt(x1, y1)) == 1
      && At(r.model.spots, CellAt(x2, y2)) == c.ai.player
      && !AiToMove(r)
  {
    var p, q := CellAt(x1, y1), CellAt(x2, y2);
    HandleEventsPair(c, Click(x1, y1), Click(x2, y2));
    TwoHumanClicks(c, p, q);
  }

  /** The two clicks of `TwoClicksPlayBothMarks`, on cells. */
  lemma TwoHumanClicks(c: State, p: Pos, q: Pos)
    requires Inv(c) && c.model.claimedSpot == 0 && c.gamemode == AiMode && c.ai.player == 2
    requires InBounds(p) && InBounds(q) && p != q
    ensures var r := HumanClick(HumanClick(c, p), q);
      && At(r.model.spots, p) == 1
      && At(r.model.spots, q) == c.ai.player
      && !AiToMove(r)
  {
    var c1 := HumanClick(c, p);
    assert AiToMove(c1) && At(c1.model.spots, p) == 1 && At(c1.model.spots, q) == 0 by {
      FirstClick(c, p);
    }
    assert Inv(c1);
    var r := HumanClick(c1, q);
    assert At(r.model.spots, q) == c.ai.player && !AiToMove(r) by {
      ClickOnComputersTurn(c1, q);
    }
    assert At(r.model.spots, p) == 1 by {
      assert SpotAvailable(c1.model, q) && c1.running;
      assert InBounds(p) && p != q;
    }
  }

  /**
    The same two clicks in one frame, with the turn-checked click: the second
    is ignored and the computer is left to move.
   */
  lemma TwoClicksOnTurn(c: State, x1: int, y1: int, x2: int, y2: int)
    requires Inv(c) && c.model.claimedSpot == 0 && c.gamemode == AiMode && c.ai.player == 2
    requires InWindow(x1, y1) && InWindow(x2, y2) && CellAt(x1, y1) != CellAt(x2, y2)
    ensures var events := [Click(x1, y1), Click(x2, y2)];
      && ClicksInWindow(events)
      && var r := HandleEventsOnTurn(c, events);
      && At(r.model.spots, CellAt(x1, y1)) == 1
      && At(r.model.spots, CellAt(x2, y2)) == 0
      && AiToMove(r)
  {
    var p, q := CellAt(x1, y1), CellAt(x2, y2);
    var c1 := HumanClickOnTurn(c, p);
    var c2 := HumanClickOnTurn(c1, q);
    assert ClicksInWindow([Click(x1, y1), Click(x2, y2)]) && HandleEventsOnTurn(c, [Click(x1, y1), Click(x2, y2)]) == c2 by {
      HandleEventsPair(c, Click(x1, y1), Click(x2, y2));
    }
    assert c1 == HumanClick(c, p);
    assert AiToMove(c1) && At(c1.model.spots, p) == 1 && At(c1.model.spots, q) == 0 by {
      FirstClick(c, p);
    }
    assert c2 == c1;
  }

  /** The first click of a new game in computer mode places cross and hands the turn to the computer. */
  lemma FirstClick(c: State, p: Pos)
    requires Inv(c) && c.model.claimedSpot == 0 && c.gamemode == AiMode && c.ai.player == 2
    requires InBounds(p)
    ensures AiToMove(HumanClick(c, p))
    ensures At(HumanClick(c, p).model.spots, p) == 1
    ensures forall q | InBounds(q) && q != p :: At(HumanClick(c, p).model.spots, q) == 0
  {
    assert c.running && c.player == 1 by {
      FewClaimsNoWinner(c.model.spots);
    }
    assert SpotAvailable(c.model, p) by {
      FreeWhenEmpty(c.model, p);
    }
    var r := HumanClick(c, p);
    assert r.running by {
      assert r.model.claimedSpot == 1 && Valid(r.model);
      FewClaimsNoWinner(r.model.spots);
    }
    forall q | InBounds(q) && q != p
      ensures At(r.model.spots, q) == 0
    {
      FreeWhenEmpty(c.model, q);
    }
  }

  /** Before any claim every cell is free. */
  lemma FreeWhenEmpty(m: Model, q: Pos)
    requires Valid(m) && m.claimedSpot == 0 && InBounds(q)
    ensures At(m.spots, q) == 0
  {
    EmptyBoardIffAllFree(m);
  }

  /**
    A click on a free cell while the computer is to move is still applied, and
    it writes the computer's mark.
   */
  lemma ClickOnComputersTurn(c: State, q: Pos)
    requires Inv(c) && AiToMove(c) && InBounds(q) && At(c.model.spots, q) == 0
    ensures var r := HumanClick(c, q);
      && At(r.model.spots, q) == c.ai.player
      && r.model.claimedSpot == c.model.claimedSpot + 1
      && !AiToMove(r)
  {
  }

  /** A frame of two events applies the first and then the second. */
  lemma HandleEventsPair(c: State, e1: Event, e2: Event)
    requires e1.Click? ==> InWindow(e1.x, e1.y)
    requires e2.Click? ==> InWindow(e2.x, e2.y)
    ensures ClicksInWindow([e1, e2])
    ensures HandleEvents(c, [e1, e2]) == HandleEvent(HandleEvent(c, e1), e2)
    ensures HandleEventsOnTurn(c, [e1, e2]) == HandleEventOnTurn(HandleEventOnTurn(c, e1), e2)
  {
    assert [e1, e2][1..] == [e2];
    assert [e2][1..] == [];
    var c1 := HandleEvent(c, e1);
    assert HandleEvents(c, [e1, e2]) == HandleEvents(c1, [e2]);
    assert HandleEvents(c1, [e2]) == HandleEvents(HandleEvent(c1, e2), []);
    var d1 := HandleEventOnTurn(c, e1);
    assert HandleEventsOnTurn(c, [e1, e2]) == HandleEventsOnTurn(d1, [e2]);
    assert HandleEventsOnTurn(d1, [e2]) == HandleEventsOnTurn(HandleEventOnTurn(d1, e2), []);
  }

  /**
    A click that also checks whose turn it is: in computer mode it is ignored
    while the computer is to move.
   */
  function HumanClickOnTurn(c: State, p: Pos): (r: State)
    requires InBounds(p)
    ensures c.gamemode == AiMode && r != c ==> At(r.model.spots, p) != c.ai.player
    ensures AiToMove(c) ==> r == c
    ensures Inv(c) ==> Inv(r)
  {
    if c.gamemode == AiMode && c.player == c.ai.player then c
    else HumanClick(c, p)
  }
}
