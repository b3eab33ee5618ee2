/**
  The computer opponent: a uniformly random choice among the free cells and a
  full-depth minimax search. Scores are from the cross's point of view:
  +1 cross (mark 1) wins, -1 circle (mark 2) wins, 0 no winner on a full board.
  The maximiser always claims mark 1 and the minimiser claims the opponent's
  configured mark. Boards are values, so every branch of the search works on
  its own copy and the caller's board is never changed.
 */
module Ai {
  import opened Grid
  import opened Model

  /** The opponent's configuration: `level` 0 plays at random, any other level searches. */
  datatype AI = AI(level: int, player: Player)

  /** The default opponent: searching, playing circle. */
  function DefaultAI(): (ai: AI)
    ensures ai.level != 0 && ai.player == 2
  {
    AI(1, 2)
  }

  /** A search result: the score and the chosen cell (none at a finished position). */
  datatype Eval = Eval(score: int, move: Option<Pos>)

  /** The mark the side to move claims: 1 for the maximiser, the opponent's mark for the minimiser. */
  function Mover(ai: AI, maximizing: bool): Player {
    if maximizing then 1 else ai.player
  }

  /** Score `a` is strictly better than score `b` for the side to move. */
  predicate Better(maximizing: bool, a: int, b: int) {
    if maximizing then a > b else a < b
  }

  /** The search's starting bound, worse than every real score for the side to move. */
  function Worst(maximizing: bool): int {
    if maximizing then -100 else 100
  }

  /** A running best: either the starting bound with no move, or a real score with its move. */
  predicate Sane(maximizing: bool, best: Eval) {
    if best.move.None? then best.score == Worst(maximizing) else -1 <= best.score <= 1
  }

  /** Every cell of `moves` is on the board and free. */
  predicate FreeCells(m: Model, moves: seq<Pos>) {
    forall k | 0 <= k < |moves| :: InBounds(moves[k]) && At(m.spots, moves[k]) == 0
  }

  /** The free-cell list is a list of free cells. */
  lemma EmptySpotsAreFree(m: Model)
    ensures FreeCells(m, EmptySpots(m.spots))
  {
    EmptySpotsSpec(m.spots);
  }

  /** The position is decided: a line is complete, or the counter says nine claims were made. */
  predicate Terminal(m: Model) {
    FinalState(m.spots) != 0 || FullBoard(m)
  }

  /**
    The random opponent: a free cell drawn from the free-cell list. `pick`
    stands for the random draw; reduced modulo the list's length it is the
    uniformly drawn index, and a draw needs a nonempty list.
   */
  function Rnd(m: Model, pick: nat): (p: Pos)
    requires EmptySpots(m.spots) != []
    ensures InBounds(p) && SpotAvailable(m, p)
  {
    EmptySpotsSpec(m.spots);
    EmptySpots(m.spots)[pick % |EmptySpots(m.spots)|]
  }

  /** Every free cell is the random opponent's choice for some draw, and only free cells are. */
  lemma RndCoversEveryFreeCell(m: Model, p: Pos)
    requires InBounds(p)
    ensures SpotAvailable(m, p) <==> exists pick | 0 <= pick < |EmptySpots(m.spots)| :: Rnd(m, pick) == p
  {
    EmptySpotsSpec(m.spots);
    if SpotAvailable(m, p) {
      var pick :| 0 <= pick < |EmptySpots(m.spots)| && EmptySpots(m.spots)[pick] == p;
      assert Rnd(m, pick) == p by {
        DrawInRange(EmptySpots(m.spots), pick);
      }
    }
  }

  /** A draw that is already a valid index is unchanged by the reduction. */
  lemma DrawInRange(s: seq<Pos>, pick: nat)
    requires pick < |s|
    ensures s[pick % |s|] == s[pick]
  {
  }

  /**
    Minimax: at a decided position the score of the outcome (cross's win first,
    then circle's win, then a full board) and no move; otherwise the best score
    over every free cell claimed for the side to move, with the first cell in
    row-major order that reaches it.
   */
  function Minimax(ai: AI, m: Model, maximizing: bool): (r: Eval)
    ensures Valid(m) ==> -1 <= r.score <= 1
    ensures Terminal(m) ==> r.move.None?
    ensures Terminal(m) ==> (r.score == 1 <==> FinalState(m.spots) == 1)
    ensures Terminal(m) ==> (r.score == -1 <==> FinalState(m.spots) == 2)
    ensures Terminal(m) ==> (r.score == 0 <==> FinalState(m.spots) == 0)
    ensures Valid(m) && !Terminal(m) ==> r.move.Some?
    ensures r.move.Some? ==> r.move.value in EmptySpots(m.spots)
    decreases 9 - ClaimedCount(m.spots), 1, 0
  {
    var outcome := FinalState(m.spots);
    if outcome == 1 then Eval(1, None)
    else if outcome == 2 then Eval(-1, None)
    else if FullBoard(m) then Eval(0, None)
    else
      assert FreeCells(m, EmptySpots(m.spots)) by {
        EmptySpotsAreFree(m);
      }
      assert Valid(m) ==> EmptySpots(m.spots) != [] by {
        if Valid(m) {
          FullBoardIffNoEmptyCell(m);
        }
      }
      Search(ai, m, maximizing, EmptySpots(m.spots), Eval(Worst(maximizing), None))
  }

  /** The score of claiming free cell `p` for the side to move, as the opponent's search sees it. */
  function ChildScore(ai: AI, m: Model, maximizing: bool, p: Pos): (s: int)
    requires InBounds(p) && At(m.spots, p) == 0
    ensures Valid(m) ==> -1 <= s <= 1
    decreases 9 - ClaimedCount(m.spots), 0, 0
  {
    var child := SpotClaim(m, p, Mover(ai, maximizing));
    ClaimedCountSet(m.spots, p, Mover(ai, maximizing));
    assert Valid(m) ==> Valid(child) by {
      if Valid(m) {
        ClaimPreservesValid(m, p, Mover(ai, maximizing));
      }
    }
    Minimax(ai, child, !maximizing).score
  }

  /** One loop step: cell `p` with score `e` replaces the running best only if strictly better. */
  function Pick(maximizing: bool, best: Eval, p: Pos, e: int): Eval {
    if Better(maximizing, e, best.score) then Eval(e, Some(p)) else best
  }

  /**
    The loop over the candidate cells: `best` holds the best score and move so
    far, and only a strictly better score replaces it, so earlier cells win ties.
   */
  function Search(ai: AI, m: Model, maximizing: bool, moves: seq<Pos>, best: Eval): (r: Eval)
    requires FreeCells(m, moves)
    ensures r == best || (r.move.Some? && r.move.value in moves)
    ensures Valid(m) && Sane(maximizing, best) ==> Sane(maximizing, r)
    ensures Valid(m) && Sane(maximizing, best) && moves != [] ==> r.move.Some?
    decreases 9 - ClaimedCount(m.spots), 0, |moves|
  {
    if moves == [] then best
    else
      var p := moves[0];
      var e := ChildScore(ai, m, maximizing, p);
      Search(ai, m, maximizing, moves[1..], Pick(maximizing, best, p, e))
  }


  /** The same loop over precomputed scores: `scores[k]` is the score of `moves[k]`. */
  function ScanBest(maximizing: bool, moves: seq<Pos>, scores: seq<int>, best: Eval): Eval
    requires |scores| == |moves|
  {
    if moves == [] then best
    else ScanBest(maximizing, moves[1..], scores[1..], Pick(maximizing, best, moves[0], scores[0]))
  }

  /**
    `r` is candidate `i` with its score, no candidate scores strictly better,
    and every earlier candidate scores strictly worse: `i` is the first
    candidate reaching the best score.
   */
  predicate IsFirstBest(maximizing: bool, moves: seq<Pos>, scores: seq<int>, r: Eval, i: int)
    requires |scores| == |moves|
  {
    && 0 <= i < |moves|
    && r == Eval(scores[i], Some(moves[i]))
    && (forall j | 0 <= j < i :: Better(maximizing, r.score, scores[j]))
    && (forall j | 0 <= j < |scores| :: !Better(maximizing, scores[j], r.score))
  }

  /**
    What the loop computes: either no candidate beats the starting `best`,
    which is returned, or the result is the first candidate reaching the best
    score, and that score beats `best`.
   */
  lemma {:induction false} ScanBestPicksFirstBest(maximizing: bool, moves: seq<Pos>, scores: seq<int>, best: Eval)
    requires |scores| == |moves|
    ensures var r := ScanBest(maximizing, moves, scores, best);
      || (r == best && forall k | 0 <= k < |scores| :: !Better(maximizing, scores[k], best.score))
      || (Better(maximizing, r.score, best.score) && exists i :: IsFirstBest(maximizing, moves, scores, r, i))
    decreases |moves|
  {
    if moves != [] {
      var best' := Pick(maximizing, best, moves[0], scores[0]);
      ScanBestPicksFirstBest(maximizing, moves[1..], scores[1..], best');
      var r := ScanBest(maximizing, moves, scores, best);
      var tail := scores[1..];
      assert r == ScanBest(maximizing, moves[1..], tail, best');
      if r == best' && forall k | 0 <= k < |tail| :: !Better(maximizing, tail[k], best'.score) {
        if best' == best {
          assert !Better(maximizing, scores[0], best.score);
          assert forall k | 0 <= k < |scores| :: !Better(maximizing, scores[k], best.score);
        } else {
          assert Better(maximizing, scores[0], best.score) && r == Eval(scores[0], Some(moves[0]));
          assert IsFirstBest(maximizing, moves, scores, r, 0);
        }
      } else {
        var i' :| IsFirstBest(maximizing, moves[1..], tail, r, i');
        assert Better(maximizing, r.score, best'.score);
        assert Better(maximizing, r.score, scores[0]);
        assert IsFirstBest(maximizing, moves, scores, r, i' + 1);
      }
    }
  }

  /** The child scores of a list of free cells. */
  function ChildScores(ai: AI, m: Model, maximizing: bool, moves: seq<Pos>): (s: seq<int>)
    requires FreeCells(m, moves)
    ensures |s| == |moves|
    ensures forall k | 0 <= k < |moves| :: s[k] == ChildScore(ai, m, maximizing, moves[k])
  {
    if moves == [] then []
    else [ChildScore(ai, m, maximizing, moves[0])] + ChildScores(ai, m, maximizing, moves[1..])
  }

  /** The search loop is the scan over the candidates' child scores. */
  lemma {:induction false} SearchIsScan(ai: AI, m: Model, maximizing: bool, moves: seq<Pos>, best: Eval)
    requires FreeCells(m, moves)
    ensures Search(ai, m, maximizing, moves, best)
         == ScanBest(maximizing, moves, ChildScores(ai, m, maximizing, moves), best)
    decreases |moves|
  {
    if moves != [] {
      var p := moves[0];
      SearchIsScan(ai, m, maximizing, moves[1..], Pick(maximizing, best, p, ChildScore(ai, m, maximizing, p)));
      assert ChildScores(ai, m, maximizing, moves)[1..] == ChildScores(ai, m, maximizing, moves[1..]);
    }
  }

  /** Away from a decided position, minimax is the scan over the free cells' child scores. */
  lemma MinimaxIsScan(ai: AI, m: Model, maximizing: bool)
    requires Valid(m) && !Terminal(m)
    ensures FreeCells(m, EmptySpots(m.spots)) && EmptySpots(m.spots) != []
    ensures Minimax(ai, m, maximizing)
         == ScanBest(maximizing, EmptySpots(m.spots), ChildScores(ai, m, maximizing, EmptySpots(m.spots)),
                     Eval(Worst(maximizing), None))
  {
    EmptySpotsAreFree(m);
    FullBoardIffNoEmptyCell(m);
    SearchIsScan(ai, m, maximizing, EmptySpots(m.spots), Eval(Worst(maximizing), None));
  }

  /**
    A board whose every cell is claimed, with no line and the counter below 9,
    is not decided by the counter, yet has no free cell: the search returns its
    starting bound and no move.
   */
  lemma DriftedBoardHasNoMove(ai: AI, m: Model, maximizing: bool)
    requires NoEmptyCell(m.spots) && FinalState(m.spots) == 0 && !FullBoard(m)
    ensures Minimax(ai, m, maximizing) == Eval(Worst(maximizing), None)
  {
    NoEmptyCellIffAllClaimed(m.spots);
  }

  /** A board for the lemma above: nine marks, no line, and a counter of 8. */
  lemma DriftedBoardExample()
    ensures var m := Model([1, 2, 1, 1, 2, 2, 2, 1, 1], 8);
      NoEmptyCell(m.spots) && FinalState(m.spots) == 0 && !FullBoard(m)
  {
    var g: Board := [1, 2, 1, 1, 2, 2, 2, 1, 1];
    assert !Won(g, Lines[0]) && !Won(g, Lines[1]) && !Won(g, Lines[2]) && !Won(g, Lines[3]);
    assert !Won(g, Lines[4]) && !Won(g, Lines[5]) && !Won(g, Lines[6]) && !Won(g, Lines[7]);
    assert NoneWonBetween(g, 0, |Lines|);
  }

  /**
    On an undecided position with a consistent counter, minimax returns a free
    cell that is optimal for the side to move (no free cell's child score is
    strictly better) and is the first such cell in row-major order.
   */
  lemma MinimaxPicksFirstBest(ai: AI, m: Model, maximizing: bool)
    requires Valid(m) && !Terminal(m)
    ensures FreeCells(m, EmptySpots(m.spots))
    ensures var s := EmptySpots(m.spots);
      exists i :: IsFirstBest(maximizing, s, ChildScores(ai, m, maximizing, s), Minimax(ai, m, maximizing), i)
  {
    var s := EmptySpots(m.spots);
    var start := Eval(Worst(maximizing), None);
    MinimaxIsScan(ai, m, maximizing);
    var scores := ChildScores(ai, m, maximizing, s);
    ScanBestPicksFirstBest(maximizing, s, scores, start);
    assert Better(maximizing, scores[0], start.score);
  }

  /**
    The opponent's move: the random choice at level 0, otherwise the move of a
    minimising search (the opponent always plays the minimising side).
    The search gives no move at a decided position.
   */
  function Evaluation(ai: AI, m: Model, pick: nat): (mv: Option<Pos>)
    requires ai.level == 0 ==> EmptySpots(m.spots) != []
    ensures ai.level == 0 ==> mv.Some? && InBounds(mv.value) && SpotAvailable(m, mv.value)
    ensures ai.level != 0 ==> mv == Minimax(ai, m, false).move
    ensures ai.level != 0 && Terminal(m) ==> mv.None?
    ensures ai.level != 0 && Valid(m) && !Terminal(m) ==>
      var s := EmptySpots(m.spots);
      && mv.Some? && mv.value in s && FreeCells(m, s)
      && exists i :: IsFirstBest(false, s, ChildScores(ai, m, false, s), Minimax(ai, m, false), i)
  {
    if ai.level == 0 then Some(Rnd(m, pick))
    else
      var r := Minimax(ai, m, false);
      assert Valid(m) && !Terminal(m) ==>
        var s := EmptySpots(m.spots);
        && r.move.Some? && r.move.value in s && FreeCells(m, s)
        && exists i :: IsFirstBest(false, s, ChildScores(ai, m, false, s), r, i)
      by {
        if Valid(m) && !Terminal(m) {
          MinimaxPicksFirstBest(ai, m, false);
        }
      }
      r.move
  }
}
