/**
 * The board of the terminal 2048 game: a sparse map from (col, row) to
 * tiles, updated in place by moves and by new random tiles.
 */
module Game2048 {
  import opened Grid
  import opened Slide
  import opened Wrappers

  /** The keys the player types and the directions they stand for. */
  const Moves: map<char, (int, int)> := map['w' := (0, -1), 'a' := (-1, 0), 's' := (0, 1), 'd' := (1, 0)]

  /** The directions of Moves in the order the dictionary lists its values. */
  const MoveOrder: seq<(int, int)> := [(0, -1), (-1, 0), (0, 1), (1, 0)]

  /** Every key of Moves names one of the four directions, and each direction has a key. */
  lemma MovesAreTheFourDirections()
    ensures forall k :: k in Moves ==> IsMove(Moves[k].0, Moves[k].1)
    ensures forall dx, dy :: IsMove(dx, dy) <==> (dx, dy) in MoveOrder
    ensures forall d :: d in MoveOrder <==> d in Moves.Values
  {
    assert Moves['w'] == MoveOrder[0] && Moves['a'] == MoveOrder[1];
    assert Moves['s'] == MoveOrder[2] && Moves['d'] == MoveOrder[3];
  }

  /** The neighbour of c in the j-th direction of MoveOrder holds the same number as c. */
  predicate EqualNeighbour(m: Tiles, c: Cell, j: int)
    requires 0 <= j < 4
  {
    var n := Next(c, MoveOrder[j].0, MoveOrder[j].1);
    c in m && n in m && m[n].num == m[c].num
  }

  /** Two orthogonal neighbours on the board hold the same number. */
  predicate HasEqualNeighbours(m: Tiles) {
    exists c, j :: c in m && 0 <= j < 4 && EqualNeighbour(m, c, j)
  }

  /** The test of any_move: a cell is empty, or two neighbours are equal. */
  predicate CanMove(m: Tiles) {
    |m| < N * N || HasEqualNeighbours(m)
  }

  /** The board's largest number; None for an empty board, where max() raises. */
  function MaxOver(m: Tiles, cs: seq<Cell>): (r: Option<int>)
    ensures r == None <==> forall x :: x in cs ==> x !in m
    ensures r != None ==> exists x :: x in cs && x in m && m[x].num == r.value
    ensures r != None ==> forall x :: x in cs && x in m ==> m[x].num <= r.value
  {
    if cs == [] then None
    else
      var rest := MaxOver(m, cs[1..]);
      assert forall x :: x in cs ==> x == cs[0] || x in cs[1..];
      if cs[0] !in m then rest
      else if rest == None || rest.value < m[cs[0]].num then Some(m[cs[0]].num)
      else rest
  }

  /** The tile add_random_tile places: a 4 when the draw says so, a 2 otherwise. */
  function NewTile(four: bool): (t: Tile)
    ensures (t.num == 2 || t.num == 4) && !t.merged
  {
    Tile(if four then 4 else 2, false)
  }

  datatype State = Playing | Won | Lost

  /**
   * What the game loop decides before asking for a move: the loss test comes
   * first, then the win test, which asks for a largest tile of exactly 2048.
   */
  function Status(m: Tiles): (s: State)
    requires KeysInBounds(m) && NoFlags(m) && m != map[]
    ensures s == Lost <==> !CanMove(m)
    ensures s == Lost <==> forall j :: 0 <= j < 4 ==> !SlideResult(m, MoveOrder[j].0, MoveOrder[j].1).moved
    ensures s == Won <==> CanMove(m) && (exists c :: c in m && m[c].num == 2048) && (forall c :: c in m ==> m[c].num <= 2048)
  {
    CanMoveIffSomeMove(m);
    MaxOverAll(m);
    if !CanMove(m) then Lost
    else if MaxOver(m, AllCells()) == Some(2048) then Won
    else Playing
  }

  /** The largest number over the whole grid is the largest number on the board. */
  lemma MaxOverAll(m: Tiles)
    requires KeysInBounds(m)
    ensures MaxOver(m, AllCells()) == None <==> m == map[]
    ensures MaxOver(m, AllCells()) != None ==> exists c :: c in m && m[c].num == MaxOver(m, AllCells()).value
    ensures MaxOver(m, AllCells()) != None ==> forall c :: c in m ==> m[c].num <= MaxOver(m, AllCells()).value
  {
    forall c | c in m ensures c in AllCells() {
      AllCellsCover(c);
    }
  }

  class Board {
    var tiles: Tiles

    /** Between moves every tile is on the grid and none is flagged as merged. */
    ghost predicate Valid()
      reads this
    {
      KeysInBounds(tiles) && NoFlags(tiles)
    }

    constructor ()
      ensures Valid() && tiles == map[]
    {
      tiles := map[];
    }

    /**
     * Put a 2, or a 4 when four is set, on an empty cell: the one at index
     * pick (taken modulo their number) of the empty cells.  On a full board
     * there is no empty cell to choose and nothing changes.
     */
    method AddRandomTile(pick: nat, four: bool) returns (ok: bool)
      requires Valid()
      modifies this
      ensures Valid()
      ensures ok <==> |old(tiles)| < N * N
      ensures !ok ==> tiles == old(tiles)
      ensures ok ==> exists e ::
        && InBounds(e) && e !in old(tiles)
        && e == Empties(old(tiles))[pick % |Empties(old(tiles))|]
        && tiles == old(tiles)[e := Tile(if four then 4 else 2, false)]
      ensures ok ==> |tiles| == |old(tiles)| + 1
      ensures forall c :: c in tiles && c !in old(tiles) ==> tiles[c].num == 2 || tiles[c].num == 4
      ensures forall c :: c in old(tiles) ==> c in tiles && tiles[c] == old(tiles)[c]
    {
      var empties := Empties(tiles);
      if |empties| == 0 {
        return false;
      }
      var empty := empties[pick % |empties|];
      var num := if four then 4 else 2;
      tiles := tiles[empty := Tile(num, false)];
      assert Tile(num, false) == NewTile(four);
      ok := true;
    }

    /**
     * One move in direction (dx, dy): sweep the cells nearest the target edge
     * first, push every tile as far as it goes, merge equal tiles at most
     * once each, then reset the merged flags.
     */
    method Slide(dx: int, dy: int) returns (anyMoved: bool, merged: int)
      requires Valid() && IsMove(dx, dy)
      modifies this
      ensures Valid()
      ensures tiles == SlideResult(old(tiles), dx, dy).tiles
      ensures anyMoved == SlideResult(old(tiles), dx, dy).moved
      ensures merged == SlideResult(old(tiles), dx, dy).score
      ensures Sum(tiles, Total) == Sum(old(tiles), Total)
      ensures merged == MergedValues(old(tiles), dx, dy)
      ensures |tiles| == |old(tiles)| - Merges(old(tiles), dx, dy)
      ensures anyMoved <==> tiles != old(tiles)
      ensures forall c :: c in tiles && InBounds(Next(c, dx, dy)) ==> Next(c, dx, dy) in tiles
    {
      anyMoved, merged := SweepBoard(dx, dy);
      ClearMergedFlags();
      SlideKeepsBoardValid(old(tiles), dx, dy);
      SlideConservesTotal(old(tiles), dx, dy);
      SlideCountAndScore(old(tiles), dx, dy);
      SlideMovedIffChanged(old(tiles), dx, dy);
      SlidePacks(old(tiles), dx, dy);
    }

    /** The two nested `for` loops of slide, in sweep order: rows outermost, the cells nearest the target edge first. */
    method SweepBoard(dx: int, dy: int) returns (anyMoved: bool, merged: int)
      requires IsMove(dx, dy)
      modifies this
      ensures Sweep(tiles, merged, anyMoved) == Swept(old(tiles), N * N, dx, dy)
    {
      merged := 0;
      anyMoved := false;
      for ri := 0 to N
        invariant Sweep(tiles, merged, anyMoved) == Swept(old(tiles), ri * N, dx, dy)
      {
        var row := if dy == 1 then N - 1 - ri else ri;
        for ci := 0 to N
          invariant Sweep(tiles, merged, anyMoved) == Swept(old(tiles), ri * N + ci, dx, dy)
        {
          var col := if dx == 1 then N - 1 - ci else ci;
          SweepStep(ri, ci, dx, dy);
          ghost var before := Sweep(tiles, merged, anyMoved);
          if (col, row) in tiles {
            merged, anyMoved := Advance((col, row), dx, dy, merged, anyMoved);
          }
          assert Sweep(tiles, merged, anyMoved) == Visit(before, (col, row), dx, dy);
        }
      }
    }

    /** The inner `while True` of slide: move the tile at c0 until it stops or merges. */
    method Advance(c0: Cell, dx: int, dy: int, merged0: int, anyMoved0: bool) returns (merged: int, anyMoved: bool)
      requires IsMove(dx, dy) && InBounds(c0) && c0 in tiles
      modifies this
      ensures Sweep(tiles, merged, anyMoved) == Push(Sweep(old(tiles), merged0, anyMoved0), c0, dx, dy)
    {
      merged, anyMoved := merged0, anyMoved0;
      ghost var before := Sweep(tiles, merged, anyMoved);
      var tile := tiles[c0];
      var c := c0;
      while true
        invariant InBounds(c) && c in tiles && tiles[c] == tile
        invariant Push(Sweep(tiles, merged, anyMoved), c, dx, dy) == Push(before, c0, dx, dy)
        decreases Rank(c, dx, dy)
      {
        ghost var current := Sweep(tiles, merged, anyMoved);
        var n := (c.0 + dx, c.1 + dy);
        if !InBounds(n) {
          PushStops(current, c, dx, dy);
          break;
        }
        NextVisitedEarlier(c, dx, dy);
        if n !in tiles {
          PushSteps(current, c, dx, dy);
          tiles := (tiles - {c})[n := tile];
          c := n;
          anyMoved := true;
        } else if tiles[n].num == tile.num && !tiles[n].merged {
          PushMerges(current, c, dx, dy);
          var sum := tiles[n].num + tile.num;
          tiles := (tiles - {c})[n := Tile(sum, true)];
          merged := merged + sum;
          anyMoved := true;
          break;
        } else {
          PushStops(current, c, dx, dy);
          break;
        }
      }
    }

    /** `for tile in self.tiles.values(): tile.merged = False` */
    method ClearMergedFlags()
      modifies this
      ensures tiles == ClearFlags(old(tiles))
    {
      var rest := tiles.Keys;
      while rest != {}
        invariant rest <= tiles.Keys && tiles.Keys == old(tiles).Keys
        invariant forall c :: c in tiles ==> tiles[c] == if c in rest then old(tiles)[c] else Tile(old(tiles)[c].num, false)
        decreases rest
      {
        var c :| c in rest;
        tiles := tiles[c := Tile(tiles[c].num, false)];
        rest := rest - {c};
      }
    }

    /**
     * The loss test: some cell is empty, or some tile has an orthogonal
     * neighbour with the same number.
     */
    method AnyMove() returns (b: bool)
      requires Valid()
      ensures b <==> CanMove(tiles)
    {
      if |tiles| < N * N {
        return true;
      }
      SizeAtMost(tiles);
      FullCovers(tiles);
      for row := 0 to N
        invariant forall c: Cell, j :: 0 <= c.1 < row && 0 <= j < 4 ==> !EqualNeighbour(tiles, c, j)
      {
        for col := 0 to N
          invariant forall c: Cell, j :: RowMajorBefore(c, row, col) && 0 <= j < 4 ==> !EqualNeighbour(tiles, c, j)
        {
          var tile := tiles[(col, row)];
          for j := 0 to 4
            invariant forall c: Cell, i :: RowMajorBefore(c, row, col) && 0 <= i < 4 ==> !EqualNeighbour(tiles, c, i)
            invariant forall i :: 0 <= i < j ==> !EqualNeighbour(tiles, (col, row), i)
          {
            var (dx, dy) := MoveOrder[j];
            var nc := (col + dx, row + dy);
            if nc in tiles && tiles[nc].num == tile.num {
              assert EqualNeighbour(tiles, (col, row), j);
              return true;
            }
          }
        }
      }
      forall c: Cell, j | 0 <= j < 4 ensures !EqualNeighbour(tiles, c, j) {
        if c in tiles {
          assert 0 <= c.1 < N;
        }
      }
      return false;
    }

    /** The largest number on the board; None on an empty board. */
    function MaxNumber(): (r: Option<int>)
      reads this
      requires Valid()
      ensures r == None <==> tiles == map[]
      ensures r != None ==> exists c :: c in tiles && tiles[c].num == r.value
      ensures r != None ==> forall c :: c in tiles ==> tiles[c].num <= r.value
    {
      MaxOverAll(tiles);
      MaxOver(tiles, AllCells())
    }

    /**
     * One turn of the game loop after the win and loss tests: a key of Moves
     * slides the board; when something moved, the merged values are added
     * to the score and a new tile appears.  Any other key changes nothing.
     */
    method Turn(key: char, score: int, pick: nat, four: bool) returns (newScore: int)
      requires Valid()
      modifies this
      ensures Valid()
      ensures key !in Moves ==> tiles == old(tiles) && newScore == score
      ensures key in Moves ==> IsMove(Moves[key].0, Moves[key].1)
      ensures key in Moves ==> var r := SlideResult(old(tiles), Moves[key].0, Moves[key].1);
        && newScore == score + r.score
        && KeysInBounds(r.tiles)
        && (!r.moved ==> tiles == old(tiles) && r.score == 0)
        && (r.moved ==> |r.tiles| < N * N && tiles == r.tiles[Empties(r.tiles)[pick % |Empties(r.tiles)|] := NewTile(four)])
    {
      newScore := score;
      if key in Moves {
        MovesAreTheFourDirections();
        var (dx, dy) := Moves[key];
        ghost var t0 := tiles;
        var anyMoved, merged := Slide(dx, dy);
        SlideMovedIffChanged(t0, dx, dy);
        if anyMoved {
          newScore := score + merged;
          MovedLeavesRoom(t0, dx, dy);
          var ok := AddRandomTile(pick, four);
        }
      }
    }
  }

  /** c comes before (col, row) when the cells are listed row by row. */
  predicate RowMajorBefore(c: Cell, row: int, col: int) {
    0 <= c.1 < row || (c.1 == row && 0 <= c.0 < col)
  }

  /** The cell (col, row) at step ri * N + ci of the loops in Board.Slide. */
  lemma SweepStep(ri: int, ci: int, dx: int, dy: int)
    requires 0 <= ri < N && 0 <= ci < N
    ensures 0 <= ri * N + ci < N * N
    ensures SweepCell(ri * N + ci, dx, dy) == (if dx == 1 then N - 1 - ci else ci, if dy == 1 then N - 1 - ri else ri)
  {
    var k := ri * N + ci;
    assert k / N == ri && k % N == ci;
  }

  /** The position of a direction in MoveOrder. */
  lemma DirectionIndex(dx: int, dy: int) returns (j: int)
    requires IsMove(dx, dy)
    ensures 0 <= j < 4 && MoveOrder[j] == (dx, dy)
  {
    j := if dy == -1 then 0 else if dx == -1 then 1 else if dy == 1 then 2 else 3;
  }

  /**
   * On a board where the loss test fails, no move changes anything: every
   * tile is blocked by the edge or by a tile with a different number.
   */
  lemma {:induction false} StuckSweepIsStill(m: Tiles, k: int, dx: int, dy: int)
    requires KeysInBounds(m) && IsMove(dx, dy) && !CanMove(m) && 0 <= k <= N * N
    ensures Swept(m, k, dx, dy) == Sweep(m, 0, false)
  {
    if k > 0 {
      StuckSweepIsStill(m, k - 1, dx, dy);
      SweepCellIndex(k - 1, dx, dy);
      var c := SweepCell(k - 1, dx, dy);
      if c in m {
        var n := Next(c, dx, dy);
        if InBounds(n) {
          SizeAtMost(m);
          FullCovers(m);
          var j := DirectionIndex(dx, dy);
          assert !EqualNeighbour(m, c, j);
        }
        PushStops(Sweep(m, 0, false), c, dx, dy);
      }
    }
  }

  /** When the loss test fails, every direction leaves the board unchanged and reports no move. */
  lemma StuckBoardCannotMove(m: Tiles, dx: int, dy: int)
    requires KeysInBounds(m) && NoFlags(m) && IsMove(dx, dy) && !CanMove(m)
    ensures !SlideResult(m, dx, dy).moved && SlideResult(m, dx, dy).tiles == m
    ensures SlideResult(m, dx, dy).score == 0
  {
    StuckSweepIsStill(m, N * N, dx, dy);
    assert ClearFlags(m) == m;
  }

  /**
   * A board on which every tile is blocked in all four directions by a tile
   * or by the edge holds, along with any one tile, every cell of the grid.
   */
  lemma {:induction false} BlockedEverywhereIsFull(m: Tiles, c: Cell, x: Cell)
    requires forall y, j :: y in m && 0 <= j < 4 && InBounds(Next(y, MoveOrder[j].0, MoveOrder[j].1)) ==>
      Next(y, MoveOrder[j].0, MoveOrder[j].1) in m
    requires KeysInBounds(m) && c in m && InBounds(x)
    ensures x in m
    decreases (if x.0 < c.0 then c.0 - x.0 else x.0 - c.0) + (if x.1 < c.1 then c.1 - x.1 else x.1 - c.1)
  {
    if x != c {
      var (y, j) := if x.0 < c.0 then ((x.0 + 1, x.1), 1)
        else if x.0 > c.0 then ((x.0 - 1, x.1), 3)
        else if x.1 < c.1 then ((x.0, x.1 + 1), 0)
        else ((x.0, x.1 - 1), 2);
      BlockedEverywhereIsFull(m, c, y);
      assert Next(y, MoveOrder[j].0, MoveOrder[j].1) == x;
    }
  }

  /**
   * The loss test is exact: on a board with at least one tile, any_move holds
   * precisely when some direction of MOVES would move a tile.
   */
  lemma CanMoveIffSomeMove(m: Tiles)
    requires KeysInBounds(m) && NoFlags(m) && m != map[]
    ensures CanMove(m) <==> exists j :: 0 <= j < 4 && SlideResult(m, MoveOrder[j].0, MoveOrder[j].1).moved
  {
    if !CanMove(m) {
      forall j | 0 <= j < 4 ensures !SlideResult(m, MoveOrder[j].0, MoveOrder[j].1).moved {
        StuckBoardCannotMove(m, MoveOrder[j].0, MoveOrder[j].1);
      }
    } else if HasEqualNeighbours(m) {
      var c, j :| c in m && 0 <= j < 4 && EqualNeighbour(m, c, j);
      EqualNeighboursMove(m, c, j);
    } else {
      if forall j :: 0 <= j < 4 ==> !SlideResult(m, MoveOrder[j].0, MoveOrder[j].1).moved {
        forall y, j | y in m && 0 <= j < 4 && InBounds(Next(y, MoveOrder[j].0, MoveOrder[j].1))
          ensures Next(y, MoveOrder[j].0, MoveOrder[j].1) in m
        {
          SlideMovedIffChanged(m, MoveOrder[j].0, MoveOrder[j].1);
          SlidePacks(m, MoveOrder[j].0, MoveOrder[j].1);
        }
        var c :| c in m;
        var es := Empties(m);
        BlockedEverywhereIsFull(m, c, es[0]);
        assert false;
      }
    }
  }

  /** Two equal neighbours mean the board moves in the direction from one toward the other. */
  lemma EqualNeighboursMove(m: Tiles, c: Cell, j: int)
    requires KeysInBounds(m) && NoFlags(m) && 0 <= j < 4 && EqualNeighbour(m, c, j)
    ensures SlideResult(m, MoveOrder[j].0, MoveOrder[j].1).moved
  {
    var (dx, dy) := MoveOrder[j];
    SweepCellAt(c, dx, dy);
    var i := SweepIndex(c, dx, dy);
    if !Swept(m, i, dx, dy).moved {
      SweptStill(m, i, dx, dy);
      PushMerges(Sweep(m, 0, false), c, dx, dy);
      SweptMovedStays(m, i + 1, N * N, dx, dy);
    } else {
      SweptMovedStays(m, i, N * N, dx, dy);
    }
  }

  /** The tiles of row `row` built from the first k numbers of nums; a 0 leaves its cell empty. */
  function RowTiles(nums: seq<int>, row: int, k: int): (m: Tiles)
    requires 0 <= k <= |nums|
    ensures forall c :: c in m <==> c.1 == row && 0 <= c.0 < k && nums[c.0] != 0
    ensures forall c :: c in m ==> m[c] == Tile(nums[c.0], false)
  {
    if k == 0 then map[]
    else if nums[k - 1] != 0 then RowTiles(nums, row, k - 1)[(k - 1, row) := Tile(nums[k - 1], false)]
    else RowTiles(nums, row, k - 1)
  }

  /**
   * The board a list of rows describes: the number at numss[row][col] sits
   * at (col, row), and 0 marks an empty cell.
   */
  function TilesFromList(numss: seq<seq<int>>): (m: Tiles)
    ensures forall c :: c in m <==> 0 <= c.1 < |numss| && 0 <= c.0 < |numss[c.1]| && numss[c.1][c.0] != 0
    ensures forall c :: c in m ==> m[c] == Tile(numss[c.1][c.0], false)
    ensures NoFlags(m)
    ensures |numss| <= N && (forall r :: 0 <= r < |numss| ==> |numss[r]| <= N) ==> KeysInBounds(m)
  {
    if numss == [] then map[]
    else
      var last := |numss| - 1;
      TilesFromList(numss[..last]) + RowTiles(numss[last], last, |numss[last]|)
  }

  /** The board of board_from_list, built cell by cell as the nested loops do. */
  method BoardFromList(numss: seq<seq<int>>) returns (b: Board)
    ensures fresh(b)
    ensures b.tiles == TilesFromList(numss)
  {
    b := new Board();
    for row := 0 to |numss|
      invariant b.tiles == TilesFromList(numss[..row])
    {
      var cols := numss[row];
      ghost var done := TilesFromList(numss[..row]);
      for col := 0 to |cols|
        invariant b.tiles == done + RowTiles(cols, row, col)
      {
        var num := cols[col];
        if num != 0 {
          MergeUpdate(done, RowTiles(cols, row, col), (col, row), Tile(num, false));
          b.tiles := b.tiles[(col, row) := Tile(num, false)];
        }
      }
      FromListStep(numss, row);
    }
    assert numss[..|numss|] == numss;
  }

  lemma MergeUpdate(a: Tiles, b: Tiles, k: Cell, v: Tile)
    ensures a + b[k := v] == (a + b)[k := v]
  {
  }

  lemma FromListStep(numss: seq<seq<int>>, row: int)
    requires 0 <= row < |numss|
    ensures TilesFromList(numss[..row + 1]) == TilesFromList(numss[..row]) + RowTiles(numss[row], row, |numss[row]|)
  {
    assert numss[..row + 1][..row] == numss[..row];
  }
}
