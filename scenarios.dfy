/**
 * Concrete boards built with board_from_list and what the rules do with
 * them.  Each lemma takes its board and direction as parameters fixed by
 * its requires clause, and walks the sweep one visited tile at a time.
 */
module Scenarios {
  import opened Grid
  import opened Slide
  import opened Game2048

  /** Steps of the sweep that land on empty cells change nothing. */
  lemma {:induction false} SweptSkipsEmpty(t0: Tiles, j: int, k: int, dx: int, dy: int)
    requires IsMove(dx, dy) && 0 <= j <= k <= N * N
    requires forall i :: j <= i < k ==> SweepCell(i, dx, dy) !in Swept(t0, j, dx, dy).tiles
    ensures Swept(t0, k, dx, dy) == Swept(t0, j, dx, dy)
  {
    if j < k {
      SweptSkipsEmpty(t0, j, k - 1, dx, dy);
      SweepCellIndex(k - 1, dx, dy);
    }
  }

  /** After j steps only tiles in row 0 left of column j remain: the rest of the sweep is idle. */
  lemma FinishLeft(t0: Tiles, j: int, s: Sweep, dx: int, dy: int)
    requires dx == -1 && dy == 0
    requires 0 <= j <= N && Swept(t0, j, dx, dy) == s
    requires forall c :: c in s.tiles ==> c.1 == 0 && 0 <= c.0 < j
    ensures SlideResult(t0, dx, dy) == Sweep(ClearFlags(s.tiles), s.score, s.moved)
  {
    forall i | j <= i < N * N ensures SweepCell(i, dx, dy) !in s.tiles {
      assert SweepCell(i, dx, dy) == (i % N, i / N);
    }
    SweptSkipsEmpty(t0, j, N * N, dx, dy);
  }

  /** Sliding left, [2, 2, 0, 0] becomes [4, 0, 0, 0] and scores 4. */
  lemma LeftMergesPair(m: Tiles, dx: int, dy: int)
    requires m == TilesFromList([[2, 2, 0, 0]]) && (dx, dy) == Moves['a']
    ensures SlideResult(m, dx, dy) == Sweep(TilesFromList([[4, 0, 0, 0]]), 4, true)
  {
    FromListRow([2, 2, 0, 0], map[(0, 0) := Tile(2, false), (1, 0) := Tile(2, false)]);
    FromListRow([4, 0, 0, 0], map[(0, 0) := Tile(4, false)]);
    SlidePair(m, dx, dy);
  }

  /** Sliding left, [2, 2, 2, 0] becomes [4, 2, 0, 0]: the third 2 finds the pair already merged. */
  lemma LeftMergesFirstPairOnly(m: Tiles, dx: int, dy: int)
    requires m == TilesFromList([[2, 2, 2, 0]]) && (dx, dy) == Moves['a']
    ensures SlideResult(m, dx, dy) == Sweep(TilesFromList([[4, 2, 0, 0]]), 4, true)
  {
    FromListRow([2, 2, 2, 0], map[(0, 0) := Tile(2, false), (1, 0) := Tile(2, false), (2, 0) := Tile(2, false)]);
    FromListRow([4, 2, 0, 0], map[(0, 0) := Tile(4, false), (1, 0) := Tile(2, false)]);
    SlideThree(m, dx, dy, 2);
  }

  /** Sliding left, [2, 2, 4, 0] becomes [4, 4, 0, 0]: a tile made by a merge does not merge again. */
  lemma LeftMergesOncePerTile(m: Tiles, dx: int, dy: int)
    requires m == TilesFromList([[2, 2, 4, 0]]) && (dx, dy) == Moves['a']
    ensures SlideResult(m, dx, dy) == Sweep(TilesFromList([[4, 4, 0, 0]]), 4, true)
  {
    FromListRow([2, 2, 4, 0], map[(0, 0) := Tile(2, false), (1, 0) := Tile(2, false), (2, 0) := Tile(4, false)]);
    FromListRow([4, 4, 0, 0], map[(0, 0) := Tile(4, false), (1, 0) := Tile(4, false)]);
    SlideThree(m, dx, dy, 4);
  }

  /** A one-row list gives the tiles of row 0 at the columns of its non-zero numbers. */
  lemma FromListRow(nums: seq<int>, t: Tiles)
    requires forall c :: c in t <==> c.1 == 0 && 0 <= c.0 < |nums| && nums[c.0] != 0
    requires forall c :: c in t ==> t[c] == Tile(nums[c.0], false)
    ensures TilesFromList([nums]) == t
  {
  }

  lemma SlidePair(m: Tiles, dx: int, dy: int)
    requires m == map[(0, 0) := Tile(2, false), (1, 0) := Tile(2, false)] && dx == -1 && dy == 0
    ensures SlideResult(m, dx, dy) == Sweep(map[(0, 0) := Tile(4, false)], 4, true)
  {
    var t2 := map[(0, 0) := Tile(4, true)];
    PairMerges(m, dx, dy);
    FinishLeft(m, 2, Sweep(t2, 4, true), dx, dy);
    assert ClearFlags(t2) == map[(0, 0) := Tile(4, false)];
  }

  /** The first two steps left over a row starting 2, 2: the pair merges into a flagged 4. */
  lemma PairMerges(m: Tiles, dx: int, dy: int)
    requires (0, 0) in m && (1, 0) in m && m[(0, 0)] == Tile(2, false) && m[(1, 0)] == Tile(2, false)
    requires dx == -1 && dy == 0
    ensures Swept(m, 2, dx, dy) == Sweep((m - {(1, 0)})[(0, 0) := Tile(4, true)], 4, true)
  {
    var s0 := Swept(m, 0, dx, dy);
    assert SweepCell(0, dx, dy) == (0, 0);
    PushStops(s0, (0, 0), dx, dy);
    assert SweepCell(1, dx, dy) == (1, 0);
    PushMerges(s0, (1, 0), dx, dy);
  }

  /** [2, 2, v, 0] left, for v = 2 or 4: the pair merges, then v stops next to the merged 4. */
  lemma SlideThree(m: Tiles, dx: int, dy: int, v: int)
    requires v == 2 || v == 4
    requires m == map[(0, 0) := Tile(2, false), (1, 0) := Tile(2, false), (2, 0) := Tile(v, false)] && dx == -1 && dy == 0
    ensures SlideResult(m, dx, dy) == Sweep(map[(0, 0) := Tile(4, false), (1, 0) := Tile(v, false)], 4, true)
  {
    var t2 := map[(0, 0) := Tile(4, true), (2, 0) := Tile(v, false)];
    var t3 := map[(0, 0) := Tile(4, true), (1, 0) := Tile(v, false)];
    ThreePair(m, t2, dx, dy, v);
    ThirdStops(m, t2, t3, dx, dy, v);
    RowOnlyLeft(t3, v);
    FinishLeft(m, 3, Sweep(t3, 4, true), dx, dy);
    ClearTwo(t3, v);
  }

  lemma ThreePair(m: Tiles, t2: Tiles, dx: int, dy: int, v: int)
    requires m == map[(0, 0) := Tile(2, false), (1, 0) := Tile(2, false), (2, 0) := Tile(v, false)]
    requires t2 == map[(0, 0) := Tile(4, true), (2, 0) := Tile(v, false)]
    requires dx == -1 && dy == 0
    ensures Swept(m, 2, dx, dy) == Sweep(t2, 4, true)
  {
    PairMerges(m, dx, dy);
    ThreeAfterPair(m, t2, v);
  }

  lemma ThreeAfterPair(m: Tiles, t2: Tiles, v: int)
    requires m == map[(0, 0) := Tile(2, false), (1, 0) := Tile(2, false), (2, 0) := Tile(v, false)]
    requires t2 == map[(0, 0) := Tile(4, true), (2, 0) := Tile(v, false)]
    ensures (m - {(1, 0)})[(0, 0) := Tile(4, true)] == t2
  {
  }

  lemma RowOnlyLeft(t: Tiles, v: int)
    requires t == map[(0, 0) := Tile(4, true), (1, 0) := Tile(v, false)]
    ensures forall c :: c in t ==> c.1 == 0 && 0 <= c.0 < 2
  {
  }

  lemma ClearTwo(t: Tiles, v: int)
    requires t == map[(0, 0) := Tile(4, true), (1, 0) := Tile(v, false)]
    ensures ClearFlags(t) == map[(0, 0) := Tile(4, false), (1, 0) := Tile(v, false)]
  {
  }

  /** The third step: the tile at column 2 moves to column 1 and stops at the merged 4. */
  lemma ThirdStops(m: Tiles, t2: Tiles, t3: Tiles, dx: int, dy: int, v: int)
    requires v == 2 || v == 4
    requires t2 == map[(0, 0) := Tile(4, true), (2, 0) := Tile(v, false)]
    requires t3 == map[(0, 0) := Tile(4, true), (1, 0) := Tile(v, false)]
    requires dx == -1 && dy == 0 && Swept(m, 2, dx, dy) == Sweep(t2, 4, true)
    ensures Swept(m, 3, dx, dy) == Sweep(t3, 4, true)
  {
    assert SweepCell(2, dx, dy) == (2, 0);
    PushSteps(Sweep(t2, 4, true), (2, 0), dx, dy);
    ThirdMoves(t2, t3, v);
    PushStops(Sweep(t3, 4, true), (1, 0), dx, dy);
  }

  lemma ThirdMoves(t2: Tiles, t3: Tiles, v: int)
    requires t2 == map[(0, 0) := Tile(4, true), (2, 0) := Tile(v, false)]
    requires t3 == map[(0, 0) := Tile(4, true), (1, 0) := Tile(v, false)]
    ensures (t2 - {(2, 0)})[(1, 0) := Tile(v, false)] == t3
  {
  }

  /**
   * A checkerboard of 2s and 4s with a 2048 in the last corner: the board
   * [[2, 4, 2, 4], [4, 2, 4, 2], [2, 4, 2, 4], [4, 2, 4, 2048]].
   */
  function Checkered(c: Cell): int {
    if c == (N - 1, N - 1) then 2048 else if (c.0 + c.1) % 2 == 0 then 2 else 4
  }

  /**
   * On the full checkered board the loss test fails first, so the game is
   * lost although the board holds 2048.
   */
  lemma StuckBoardLoses(m: Tiles)
    requires forall c :: c in m <==> InBounds(c)
    requires forall c :: c in m ==> m[c] == Tile(Checkered(c), false)
    ensures KeysInBounds(m) && NoFlags(m) && m != map[]
    ensures (3, 3) in m && m[(3, 3)].num == 2048
    ensures Status(m) == Lost
  {
    AllCellsOccupied(m);
    forall c, j | c in m && 0 <= j < 4 ensures !EqualNeighbour(m, c, j) {
      var n := Next(c, MoveOrder[j].0, MoveOrder[j].1);
      if n in m {
        NeighbourParity(c, j);
      }
    }
  }

  /** Orthogonal neighbours lie on squares of different colour. */
  lemma NeighbourParity(c: Cell, j: int)
    requires 0 <= j < 4
    ensures (c.0 + c.1) % 2 != (Next(c, MoveOrder[j].0, MoveOrder[j].1).0 + Next(c, MoveOrder[j].0, MoveOrder[j].1).1) % 2
  {
    var n := Next(c, MoveOrder[j].0, MoveOrder[j].1);
    assert n.0 + n.1 == c.0 + c.1 + 1 || n.0 + n.1 == c.0 + c.1 - 1;
  }

  /** A board whose largest tile is 2048 and that can still move is won. */
  lemma TileOf2048Wins(m: Tiles)
    requires m == TilesFromList([[2048, 2]])
    ensures KeysInBounds(m) && NoFlags(m) && m != map[]
    ensures Status(m) == Won
  {
    FromListRow([2048, 2], map[(0, 0) := Tile(2048, false), (1, 0) := Tile(2, false)]);
  }

  /** The win test asks for a largest tile of exactly 2048: a 4096 beside a 2048 plays on. */
  lemma LargerTileDoesNotWin(m: Tiles)
    requires m == TilesFromList([[4096, 2048]])
    ensures KeysInBounds(m) && NoFlags(m) && m != map[]
    ensures (0, 0) in m && m[(0, 0)].num == 4096
    ensures Status(m) == Playing
  {
    FromListRow([4096, 2048], map[(0, 0) := Tile(4096, false), (1, 0) := Tile(2048, false)]);
  }
}
