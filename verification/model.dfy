/**
  The board object of the computer-opponent variant: the grid together with a
  `claimedSpot` counter that every claim increments. Winning-line detection,
  claiming, availability, the free-cell list and the board-full tests.
 */
module Model {
  import opened Grid

  datatype Model = Model(spots: Board, claimedSpot: int)

  /** A fresh model: every cell free, nothing claimed. */
  function New(): (m: Model)
    ensures Valid(m) && EmptyBoardTest(m)
    ensures forall p | InBounds(p) :: SpotAvailable(m, p)
  {
    EmptyBoardUnclaimed();
    Model(EmptyBoard, 0)
  }

  /** The counter invariant: the counter equals the number of claimed cells. */
  predicate Valid(m: Model) {
    m.claimedSpot == ClaimedCount(m.spots)
  }

  /** The three cells of one straight line. */
  datatype Line = Line(a: Pos, b: Pos, c: Pos)

  /** A line on the board: three distinct cells inside the board. */
  type BoardLine = l: Line |
    && InBounds(l.a) && InBounds(l.b) && InBounds(l.c)
    && l.a != l.b && l.b != l.c && l.a != l.c
    witness Line(Pos(0, 0), Pos(0, 1), Pos(0, 2))

  /**
    The winning lines in the order the winner test scans them: the three
    columns left to right, the three rows top to bottom, the descending
    diagonal, then the ascending diagonal.
   */
  const Lines: seq<BoardLine> := [
    Line(Pos(0, 0), Pos(1, 0), Pos(2, 0)),
    Line(Pos(0, 1), Pos(1, 1), Pos(2, 1)),
    Line(Pos(0, 2), Pos(1, 2), Pos(2, 2)),
    Line(Pos(0, 0), Pos(0, 1), Pos(0, 2)),
    Line(Pos(1, 0), Pos(1, 1), Pos(1, 2)),
    Line(Pos(2, 0), Pos(2, 1), Pos(2, 2)),
    Line(Pos(0, 0), Pos(1, 1), Pos(2, 2)),
    Line(Pos(2, 0), Pos(1, 1), Pos(0, 2))
  ]

  /** All three cells of `l` hold the mark `v`. */
  predicate Complete(g: Board, l: BoardLine, v: Cell) {
    At(g, l.a) == v && At(g, l.b) == v && At(g, l.c) == v
  }

  /** All three cells of `l` hold the same player's mark. */
  predicate Won(g: Board, l: BoardLine) {
    At(g, l.a) == At(g, l.b) == At(g, l.c) != 0
  }

  /** No line numbered from `i` up to (not including) `k` is won. */
  predicate NoneWonBetween(g: Board, i: nat, k: nat) {
    forall j | i <= j < k && j < |Lines| :: !Won(g, Lines[j])
  }

  /** The number of the first won line from `i` on, or `|Lines|` when none is won. */
  function FirstWon(g: Board, i: nat): (k: nat)
    requires i <= |Lines|
    ensures i <= k <= |Lines|
    ensures NoneWonBetween(g, i, k)
    ensures k < |Lines| ==> Won(g, Lines[k])
    decreases |Lines| - i
  {
    if i == |Lines| then i
    else if Won(g, Lines[i]) then i
    else
      var k := FirstWon(g, i + 1);
      assert NoneWonBetween(g, i, k) by {
        NoneWonBetweenExtend(g, i, k);
      }
      k
  }

  lemma NoneWonBetweenExtend(g: Board, i: nat, k: nat)
    requires i < |Lines| && !Won(g, Lines[i]) && NoneWonBetween(g, i + 1, k)
    ensures NoneWonBetween(g, i, k)
  {
  }

  /**
    The winner test: scanning the lines in order, the mark of the first line
    held entirely by one player, or 0 when no line is (a full board without a
    line also gives 0).
   */
  function FinalState(g: Board): (r: Cell)
    ensures r != 0 ==> FirstWon(g, 0) < |Lines| && Complete(g, Lines[FirstWon(g, 0)], r)
    ensures r == 0 <==> NoneWonBetween(g, 0, |Lines|)
  {
    var k := FirstWon(g, 0);
    if k < |Lines| then At(g, Lines[k].a) else 0
  }

  /**
    The winner test reports a mark only if that mark holds a complete line
    and every line scanned before it is not won; it reports 0 exactly when no
    line is won.
   */
  lemma FinalStateSpec(g: Board)
    ensures var r := FinalState(g);
      && (r != 0 ==> exists k | 0 <= k < |Lines| ::
            Complete(g, Lines[k], r) && forall j | 0 <= j < k :: !Won(g, Lines[j]))
      && (r == 0 <==> forall k | 0 <= k < |Lines| :: !Won(g, Lines[k]))
  {
    var k := FirstWon(g, 0);
    if k < |Lines| {
      assert Complete(g, Lines[k], FinalState(g));
    }
  }

  lemma {:induction false} ClaimedUpToAtLeast(g: Board, cells: set<int>, k: nat)
    requires k <= 9
    requires forall i | i in cells :: 0 <= i < 9 && g[i] != 0
    ensures ClaimedUpTo(g, k) >= |set i | i in cells && i < k|
  {
    if k > 0 {
      ClaimedUpToAtLeast(g, cells, k - 1);
      var below := set i | i in cells && i < k - 1;
      if k - 1 in cells {
        assert (set i | i in cells && i < k) == below + {k - 1};
      } else {
        assert (set i | i in cells && i < k) == below;
      }
    }
  }

  /** A won line takes three claimed cells. */
  lemma WonNeedsThreeClaims(g: Board, l: BoardLine)
    requires Won(g, l)
    ensures ClaimedCount(g) >= 3
  {
    IdxInjective(l.a, l.b);
    IdxInjective(l.b, l.c);
    IdxInjective(l.a, l.c);
    var cells := {Idx(l.a), Idx(l.b), Idx(l.c)};
    assert |cells| == 3;
    ClaimedUpToAtLeast(g, cells, 9);
    assert (set i | i in cells && i < 9) == cells;
  }

  /** While fewer than three cells are claimed no line is won, so the winner test reports 0. */
  lemma FewClaimsNoWinner(g: Board)
    requires ClaimedCount(g) < 3
    ensures FinalState(g) == 0
  {
    FinalStateSpec(g);
    forall k | 0 <= k < |Lines|
      ensures !Won(g, Lines[k])
    {
      if Won(g, Lines[k]) {
        WonNeedsThreeClaims(g, Lines[k]);
      }
    }
  }

  /** A line is won by player `v` exactly when it is complete in `v`. */
  lemma WonIsCompleteByPlayer(g: Board, l: BoardLine)
    ensures Won(g, l) <==> exists v: Player :: Complete(g, l, v)
  {
    if Won(g, l) {
      var v: Player := At(g, l.a);
      assert Complete(g, l, v);
    }
  }

  /** Claim cell `p` for `player`; the code neither checks nor refuses an occupied cell. */
  function SpotClaim(m: Model, p: Pos, player: Player): (r: Model)
    requires InBounds(p)
    ensures At(r.spots, p) == player
    ensures forall q | InBounds(q) && q != p :: At(r.spots, q) == At(m.spots, q)
    ensures r.claimedSpot == m.claimedSpot + 1
  {
    Model(Set(m.spots, p, player), m.claimedSpot + 1)
  }

  /** A claim of a free cell keeps the counter invariant. */
  lemma ClaimPreservesValid(m: Model, p: Pos, player: Player)
    requires Valid(m) && InBounds(p) && At(m.spots, p) == 0
    ensures Valid(SpotClaim(m, p, player))
    ensures |EmptySpots(SpotClaim(m, p, player).spots)| == |EmptySpots(m.spots)| - 1
  {
    ClaimedCountSet(m.spots, p, player);
    EmptySpotsSpec(m.spots);
    EmptySpotsSpec(SpotClaim(m, p, player).spots);
  }

  /** A claim of an occupied cell breaks the counter invariant: the counter drifts one ahead. */
  lemma ClaimOccupiedBreaksValid(m: Model, p: Pos, player: Player)
    requires Valid(m) && InBounds(p) && At(m.spots, p) != 0
    ensures SpotClaim(m, p, player).claimedSpot == ClaimedCount(SpotClaim(m, p, player).spots) + 1
  {
    ClaimedCountSet(m.spots, p, player);
  }

  /** True iff cell `p` is free. */
  predicate SpotAvailable(m: Model, p: Pos)
    requires InBounds(p)
  {
    At(m.spots, p) == 0
  }

  /** A cell is available exactly when the free-cell list holds it. */
  lemma SpotAvailableIffListed(m: Model, p: Pos)
    requires InBounds(p)
    ensures SpotAvailable(m, p) <==> p in EmptySpots(m.spots)
  {
    EmptySpotsSpec(m.spots);
  }

  /** True iff cell `p` is not claimed by any player; the same test as `SpotAvailable`. */
  function EmptySpot(m: Model, p: Pos): (r: bool)
    requires InBounds(p)
    ensures r <==> SpotAvailable(m, p)
  {
    At(m.spots, p) == 0
  }

  /** All three cells of row `row` are claimed. */
  predicate RowFilled(g: Board, row: int)
    requires 0 <= row < 3
  {
    forall col | 0 <= col < 3 :: At(g, Pos(row, col)) != 0
  }

  /**
    The board-full scan as written: the outer loop over rows returns `true`
    at the end of its first iteration, so only row 0 is ever inspected.
   */
  method BoardFullAsWritten(m: Model) returns (full: bool)
    ensures full <==> RowFilled(m.spots, 0)
  {
    var row := 0;
    var col := 0;
    while col < 3
      invariant 0 <= col <= 3
      invariant forall c | 0 <= c < col :: At(m.spots, Pos(row, c)) != 0
    {
      if m.spots[Idx(Pos(row, col))] == 0 {
        return false;
      }
      col := col + 1;
    }
    // the outer loop's body ends here with `return True`
    return true;
  }

  /** Under the counter invariant a full board passes the row-0 scan. */
  lemma FullBoardImpliesFirstRowFilled(m: Model)
    requires Valid(m) && FullBoard(m)
    ensures RowFilled(m.spots, 0)
  {
    FullBoardIffNoEmptyCell(m);
    forall col | 0 <= col < 3
      ensures At(m.spots, Pos(0, col)) != 0
    {
      assert m.spots[Idx(Pos(0, col))] != 0;
    }
  }

  /**
    The converse fails: a consistent board with row 0 filled and the centre
    still free passes the row-0 scan although it is not full.
   */
  lemma BoardFullAsWrittenIsWrong()
    ensures var m := Model([1, 2, 1, 0, 0, 0, 0, 0, 0], 3);
      Valid(m) && RowFilled(m.spots, 0) && !FullBoard(m) && SpotAvailable(m, Pos(1, 1))
  {
  }

  /**
    The full-board test as its loop structure intends it: true exactly when
    no cell is free, which under the counter invariant agrees with the
    counter-based test.
   */
  method BoardFull(m: Model) returns (full: bool)
    ensures full <==> NoEmptyCell(m.spots)
    ensures Valid(m) ==> (full <==> FullBoard(m))
  {
    full := ScanFull(m.spots);
    if Valid(m) {
      FullBoardIffNoEmptyCell(m);
    }
  }

  /**
    The free-cell list, built by scanning rows top to bottom and each row
    left to right.
   */
  method GetEmptySpots(m: Model) returns (spots: seq<Pos>)
    ensures spots == EmptySpots(m.spots)
    ensures forall p :: p in spots <==> InBounds(p) && SpotAvailable(m, p)
    ensures RowMajor(spots)
    ensures Valid(m) ==> |spots| == 9 - m.claimedSpot
  {
    spots := [];
    var row := 0;
    while row < 3
      invariant 0 <= row <= 3
      invariant spots == EmptyUpTo(m.spots, 3 * row)
    {
      var col := 0;
      while col < 3
        invariant 0 <= col <= 3
        invariant spots == EmptyUpTo(m.spots, 3 * row + col)
      {
        if EmptySpot(m, Pos(row, col)) {
          spots := spots + [Pos(row, col)];
        }
        col := col + 1;
      }
      row := row + 1;
    }
    EmptySpotsSpec(m.spots);
  }

  /** The counter-based full test: nine claims have been made. */
  predicate FullBoard(m: Model) {
    m.claimedSpot == 9
  }

  /** The counter-based empty test: no claim has been made. */
  predicate EmptyBoardTest(m: Model) {
    m.claimedSpot == 0
  }

  /** Under the counter invariant the counter-based full test agrees with a scan of all nine cells. */
  lemma FullBoardIffNoEmptyCell(m: Model)
    requires Valid(m)
    ensures FullBoard(m) <==> NoEmptyCell(m.spots)
    ensures FullBoard(m) <==> EmptySpots(m.spots) == []
  {
    NoEmptyCellIffAllClaimed(m.spots);
  }

  /** Under the counter invariant the counter-based empty test holds iff every cell is free. */
  lemma EmptyBoardIffAllFree(m: Model)
    requires Valid(m)
    ensures EmptyBoardTest(m) <==> forall p | InBounds(p) :: At(m.spots, p) == 0
    ensures EmptyBoardTest(m) <==> |EmptySpots(m.spots)| == 9
  {
    EmptySpotsSpec(m.spots);
    AllPositionsIndexed();
    if forall p | InBounds(p) :: At(m.spots, p) == 0 {
      assert m.spots == EmptyBoard by {
        forall i | 0 <= i < 9
          ensures m.spots[i] == 0
        {
          assert At(m.spots, AllPositions[i]) == 0;
        }
      }
      EmptyBoardUnclaimed();
    }
    if |EmptySpots(m.spots)| == 9 {
      forall p | InBounds(p)
        ensures At(m.spots, p) == 0
      {
        EmptyAllWhenNineFree(m.spots, p);
      }
    }
  }

  lemma EmptyAllWhenNineFree(g: Board, p: Pos)
    requires InBounds(p) && |EmptySpots(g)| == 9
    ensures At(g, p) == 0
  {
    EmptySpotsSpec(g);
    NineRowMajorCoverAll(EmptySpots(g), p);
  }

  /** Nine strictly row-major positions visit every cell of the board. */
  lemma NineRowMajorCoverAll(s: seq<Pos>, p: Pos)
    requires RowMajor(s) && |s| == 9 && InBounds(p)
    ensures p in s
  {
    forall i | 0 <= i < 9
      ensures Idx(s[i]) == i
    {
      RowMajorIndexBounds(s, i);
    }
    AllPositionsIndexed();
    assert Idx(s[Idx(p)]) == Idx(p);
    assert s[Idx(p)] == AllPositions[Idx(s[Idx(p)])];
  }

  lemma RowMajorIndexBounds(s: seq<Pos>, i: nat)
    requires RowMajor(s) && |s| == 9 && i < 9
    ensures Idx(s[i]) == i
  {
    RowMajorLower(s, i);
    RowMajorUpper(s, i);
  }

  lemma {:induction false} RowMajorLower(s: seq<Pos>, i: nat)
    requires RowMajor(s) && i < |s|
    ensures Idx(s[i]) >= i
  {
    if i > 0 {
      RowMajorLower(s, i - 1);
    } else if |s| > 1 {
      assert InBounds(s[0]);
    }
  }

  lemma {:induction false} RowMajorUpper(s: seq<Pos>, i: nat)
    requires RowMajor(s) && i < |s| == 9
    ensures Idx(s[i]) <= i
    decreases 9 - i
  {
    if i < 8 {
      RowMajorUpper(s, i + 1);
    } else {
      assert InBounds(s[0]);
    }
  }
}
