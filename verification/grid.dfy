/**
  The 3x3 tic-tac-toe board shared by both game variants: cells hold 0 (free),
  1 (cross) or 2 (circle), stored row-major in a sequence of nine cells.
  This module defines the board value, cell access and update, the row-major
  scan for free cells and the count of claimed cells, with the facts that tie
  them together.
 */
module Grid {

  datatype Option<+T> = None | Some(value: T)

  /** A cell mark: 0 is a free cell, 1 and 2 are the two players' marks. */
  type Cell = c: int | 0 <= c <= 2

  /** A player's mark: the values a claim can write. */
  type Player = p: int | 1 <= p <= 2 witness 1

  /** The player to move after `player`: the two marks alternate. */
  function Next(player: Player): (r: Player)
    ensures r != player
  {
    player % 2 + 1
  }

  /** Passing the turn and counting one more claim keeps "cross to move iff an even count". */
  lemma NextKeepsParity(player: Player, n: int)
    requires player == 1 <==> n % 2 == 0
    ensures Next(player) == 1 <==> (n + 1) % 2 == 0
  {
  }

  /** With two players, a mark that is neither free nor `player` is the next player's. */
  lemma NextIsTheOther(player: Player, v: Cell)
    requires v != 0 && v != player
    ensures v == Next(player)
  {
  }

  /** The window is 500 pixels square; a cell is a third of it, rounded down: 500 / 3 = 166 pixels. */
  const Width: int := 500
  const CellSize: int := 166

  predicate InWindow(x: int, y: int) {
    0 <= x < Width && 0 <= y < Width
  }

  /** The cell under a click as the loops compute it: each pixel coordinate divided by the cell size. */
  function CellAtAsWritten(x: int, y: int): (p: Pos)
    ensures InWindow(x, y) ==> 0 <= p.row <= 3 && 0 <= p.col <= 3
    ensures InWindow(x, y) && x < 3 * CellSize && y < 3 * CellSize ==> InBounds(p)
    ensures InWindow(x, y) && InBounds(p) ==> x < 3 * CellSize && y < 3 * CellSize
  {
    Pos(y / CellSize, x / CellSize)
  }

  /**
    Three cells of 166 pixels cover 498 of the 500 pixels: a click on the last
    two pixel columns or rows maps to index 3, outside the board.
   */
  lemma EdgeClickLeavesBoard()
    ensures InWindow(499, 10) && CellAtAsWritten(499, 10) == Pos(0, 3)
    ensures !InBounds(CellAtAsWritten(499, 10))
  {
  }

  /**
    The cell index along one axis for pixel `x`, with the strip past the last
    cell boundary folded into the last cell.
   */
  function Band(x: int): (i: int)
    requires 0 <= x < Width
    ensures 0 <= i < 3
    ensures CellSize * i <= x && (i == 2 || x < CellSize * (i + 1))
    ensures x < 3 * CellSize ==> i == x / CellSize
  {
    var d := x / CellSize;
    assert CellSize * d <= x < CellSize * d + CellSize;
    if d > 2 then 2 else d
  }

  /**
    The cell under a click, every pixel of the window belonging to some cell:
    the division above, with the two-pixel strip at the right and bottom
    edges counted as part of the last column and row.
   */
  function CellAt(x: int, y: int): (p: Pos)
    requires InWindow(x, y)
    ensures InBounds(p)
    ensures x < 3 * CellSize && y < 3 * CellSize ==> p == CellAtAsWritten(x, y)
    ensures CellSize * p.col <= x && (p.col == 2 || x < CellSize * (p.col + 1))
    ensures CellSize * p.row <= y && (p.row == 2 || y < CellSize * (p.row + 1))
  {
    Pos(Band(y), Band(x))
  }

  /** Every cell is reachable by a click: its top-left pixel maps to it. */
  lemma CellAtCoversEveryCell(p: Pos)
    requires InBounds(p)
    ensures InWindow(CellSize * p.col, CellSize * p.row)
    ensures CellAt(CellSize * p.col, CellSize * p.row) == p
  {
  }

  /** A board: nine cells, row-major (cell (row, col) is at index 3 * row + col). */
  type Board = g: seq<Cell> | |g| == 9 witness [0, 0, 0, 0, 0, 0, 0, 0, 0]

  datatype Pos = Pos(row: int, col: int)

  predicate InBounds(p: Pos) {
    0 <= p.row < 3 && 0 <= p.col < 3
  }

  /** The number of cells in a row, the stride of the row-major layout. */
  const BoardCols: int := 3

  function Idx(p: Pos): (i: nat)
    requires InBounds(p)
    ensures i < 9
  {
    BoardCols * p.row + p.col
  }

  /** Distinct coordinates on the board are stored at distinct indices. */
  lemma IdxInjective(p: Pos, q: Pos)
    requires InBounds(p) && InBounds(q) && p != q
    ensures Idx(p) != Idx(q)
  {
  }

  function At(g: Board, p: Pos): Cell
    requires InBounds(p)
  {
    g[Idx(p)]
  }

  /** The board with cell `p` set to `v`. */
  function Set(g: Board, p: Pos, v: Cell): (r: Board)
    requires InBounds(p)
    ensures At(r, p) == v
    ensures forall q | InBounds(q) && q != p :: At(r, q) == At(g, q)
  {
    g[Idx(p) := v]
  }

  /** The all-free board. */
  const EmptyBoard: Board := [0, 0, 0, 0, 0, 0, 0, 0, 0]

  /** Every coordinate of the board, in row-major order. */
  const AllPositions: seq<Pos> := seq(9, i => Pos(i / 3, i % 3))

  lemma AllPositionsIndexed()
    ensures |AllPositions| == 9
    ensures forall i | 0 <= i < 9 :: InBounds(AllPositions[i]) && Idx(AllPositions[i]) == i
    ensures forall p | InBounds(p) :: AllPositions[Idx(p)] == p
  {
  }

  /** The free cells among the first `k` cells of the row-major scan, in scan order. */
  function EmptyUpTo(g: Board, k: nat): seq<Pos>
    requires k <= 9
  {
    if k == 0 then []
    else EmptyUpTo(g, k - 1) + (if g[k - 1] == 0 then [Pos((k - 1) / 3, (k - 1) % 3)] else [])
  }

  /** The free cells of the board, scanning rows top to bottom and each row left to right. */
  function EmptySpots(g: Board): seq<Pos> {
    EmptyUpTo(g, 9)
  }

  /** The number of claimed (non-free) cells among the first `k` cells. */
  function ClaimedUpTo(g: Board, k: nat): nat
    requires k <= 9
  {
    if k == 0 then 0
    else ClaimedUpTo(g, k - 1) + (if g[k - 1] != 0 then 1 else 0)
  }

  /** The number of claimed cells on the board. */
  function ClaimedCount(g: Board): (c: nat)
    ensures c <= 9
  {
    ClaimedUpToBound(g, 9);
    ClaimedUpTo(g, 9)
  }

  predicate NoEmptyCell(g: Board) {
    forall i | 0 <= i < 9 :: g[i] != 0
  }

  /** The positions are strictly increasing in row-major order (hence also free of duplicates). */
  predicate RowMajor(s: seq<Pos>) {
    && (forall i | 0 <= i < |s| :: InBounds(s[i]))
    && (forall i, j | 0 <= i < j < |s| :: Idx(s[i]) < Idx(s[j]))
  }

  lemma {:induction false} ClaimedUpToBound(g: Board, k: nat)
    requires k <= 9
    ensures ClaimedUpTo(g, k) <= k
  {
    if k > 0 {
      ClaimedUpToBound(g, k - 1);
    }
  }

  lemma {:induction false} EmptyUpToSpec(g: Board, k: nat)
    requires k <= 9
    ensures forall p :: p in EmptyUpTo(g, k) <==> InBounds(p) && Idx(p) < k && At(g, p) == 0
    ensures RowMajor(EmptyUpTo(g, k))
    ensures forall i | 0 <= i < |EmptyUpTo(g, k)| :: Idx(EmptyUpTo(g, k)[i]) < k
    ensures |EmptyUpTo(g, k)| + ClaimedUpTo(g, k) == k
  {
    if k > 0 {
      EmptyUpToSpec(g, k - 1);
      var q := Pos((k - 1) / 3, (k - 1) % 3);
      assert InBounds(q) && Idx(q) == k - 1;
      forall p | InBounds(p) && Idx(p) == k - 1
        ensures p == q
      {
      }
    }
  }

  /**
    The free-cell scan lists exactly the free cells, each once, in row-major
    order, and there are as many of them as the board has unclaimed cells.
   */
  lemma EmptySpotsSpec(g: Board)
    ensures forall p :: p in EmptySpots(g) <==> InBounds(p) && At(g, p) == 0
    ensures RowMajor(EmptySpots(g))
    ensures |EmptySpots(g)| == 9 - ClaimedCount(g)
  {
    EmptyUpToSpec(g, 9);
  }

  lemma {:induction false} NoEmptyCellUpTo(g: Board, k: nat)
    requires k <= 9
    ensures ClaimedUpTo(g, k) == k <==> forall i | 0 <= i < k :: g[i] != 0
  {
    if k > 0 {
      NoEmptyCellUpTo(g, k - 1);
      ClaimedUpToBound(g, k - 1);
    }
  }

  /** A board has no free cell iff all nine cells are claimed iff the free-cell scan is empty. */
  lemma NoEmptyCellIffAllClaimed(g: Board)
    ensures NoEmptyCell(g) <==> ClaimedCount(g) == 9
    ensures NoEmptyCell(g) <==> EmptySpots(g) == []
  {
    NoEmptyCellUpTo(g, 9);
    EmptySpotsSpec(g);
  }

  lemma {:induction false} ClaimedUpToSet(g: Board, p: Pos, v: Cell, k: nat)
    requires InBounds(p) && k <= 9
    ensures Idx(p) >= k ==> ClaimedUpTo(Set(g, p, v), k) == ClaimedUpTo(g, k)
    ensures Idx(p) < k ==>
      ClaimedUpTo(Set(g, p, v), k) + (if At(g, p) != 0 then 1 else 0)
      == ClaimedUpTo(g, k) + (if v != 0 then 1 else 0)
  {
    if k > 0 {
      ClaimedUpToSet(g, p, v, k - 1);
    }
  }

  /** Writing `v` over cell `p` changes the claimed count by the change at that one cell. */
  lemma ClaimedCountSet(g: Board, p: Pos, v: Cell)
    requires InBounds(p)
    ensures ClaimedCount(Set(g, p, v)) + (if At(g, p) != 0 then 1 else 0)
            == ClaimedCount(g) + (if v != 0 then 1 else 0)
  {
    ClaimedUpToSet(g, p, v, 9);
  }

  /** The all-free board has no claimed cell. */
  lemma EmptyBoardUnclaimed()
    ensures ClaimedCount(EmptyBoard) == 0
    ensures forall p | InBounds(p) :: At(EmptyBoard, p) == 0
  {
    assert ClaimedUpTo(EmptyBoard, 3) == 0;
    assert ClaimedUpTo(EmptyBoard, 6) == 0;
  }

  /** The free-cell scan of the all-free board lists every coordinate in row-major order. */
  lemma EmptyBoardSpec()
    ensures ClaimedCount(EmptyBoard) == 0
    ensures EmptySpots(EmptyBoard) == AllPositions
  {
    EmptyBoardUnclaimed();
    EmptyBoardPrefix(9);
    assert AllPositions[..9] == AllPositions;
  }

  /** On the all-free board the scan of the first `k` cells lists the first `k` coordinates. */
  lemma {:induction false} EmptyBoardPrefix(k: nat)
    requires k <= 9
    ensures EmptyUpTo(EmptyBoard, k) == AllPositions[..k]
  {
    if k > 0 {
      EmptyBoardPrefix(k - 1);
      assert AllPositions[..k] == AllPositions[..k - 1] + [AllPositions[k - 1]];
    }
  }

  /**
    The full-board scan: visit the rows top to bottom and each row left to
    right, answer false at the first free cell, and true once every cell has
    been visited.
   */
  method ScanFull(g: Board) returns (full: bool)
    ensures full <==> NoEmptyCell(g)
  {
    var row := 0;
    while row < 3
      invariant 0 <= row <= 3
      invariant forall i | 0 <= i < 3 * row :: g[i] != 0
    {
      var col := 0;
      while col < 3
        invariant 0 <= col <= 3
        invariant forall i | 0 <= i < 3 * row + col :: g[i] != 0
      {
        if At(g, Pos(row, col)) == 0 {
          assert g[3 * row + col] == 0;
          return false;
        }
        col := col + 1;
      }
      assert 3 * row + col == 3 * (row + 1);
      row := row + 1;
    }
    assert 3 * row == 9;
    return true;
  }
}
