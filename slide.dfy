/**
 * One directional move of the 2048 board, as a pure function of the board
 * before it: the sweep order, the step-by-step push of each tile, merging,
 * and the final reset of the merged flags.  Board.Slide in module Game2048
 * is proved to compute exactly SlideResult; the lemmas here state what such
 * a move guarantees.
 */
module Slide {
  import opened Grid

  /** The four directions a move can take: up, left, down and right. */
  predicate IsMove(dx: int, dy: int) {
    (dx == 0 && (dy == -1 || dy == 1)) || (dy == 0 && (dx == -1 || dx == 1))
  }

  function Next(c: Cell, dx: int, dy: int): Cell {
    (c.0 + dx, c.1 + dy)
  }

  function Prev(c: Cell, dx: int, dy: int): Cell {
    (c.0 - dx, c.1 - dy)
  }

  /** Position along a reversed range when the move goes toward higher indices. */
  function ColRank(col: int, dx: int): int {
    if dx == 1 then N - 1 - col else col
  }

  function RowRank(row: int, dy: int): int {
    if dy == 1 then N - 1 - row else row
  }

  /** The cell visited at step k of the sweep: rows form the outer loop. */
  function SweepCell(k: int, dx: int, dy: int): Cell
    requires 0 <= k < N * N
  {
    (ColRank(k % N, dx), RowRank(k / N, dy))
  }

  /** The step of the sweep at which a cell is visited. */
  function SweepIndex(c: Cell, dx: int, dy: int): int {
    RowRank(c.1, dy) * N + ColRank(c.0, dx)
  }

  lemma SweepCellIndex(k: int, dx: int, dy: int)
    requires 0 <= k < N * N
    ensures InBounds(SweepCell(k, dx, dy))
    ensures SweepIndex(SweepCell(k, dx, dy), dx, dy) == k
  {
    assert k == (k / N) * N + k % N;
  }

  lemma SweepIndexInjective(x: Cell, y: Cell, dx: int, dy: int)
    requires InBounds(x) && InBounds(y) && SweepIndex(x, dx, dy) == SweepIndex(y, dx, dy)
    ensures x == y
  {
    var i := SweepIndex(x, dx, dy);
    assert i / N == RowRank(x.1, dy) && i % N == ColRank(x.0, dx);
    assert i / N == RowRank(y.1, dy) && i % N == ColRank(y.0, dx);
  }

  lemma SweepIndexRange(c: Cell, dx: int, dy: int)
    requires InBounds(c)
    ensures 0 <= SweepIndex(c, dx, dy) < N * N
  {
  }

  /**
   * The sweep visits the cell a tile moves into before the cell it comes
   * from: the cells nearer the target edge come first.
   */
  lemma NextVisitedEarlier(c: Cell, dx: int, dy: int)
    requires IsMove(dx, dy) && InBounds(c) && InBounds(Next(c, dx, dy))
    ensures SweepIndex(Next(c, dx, dy), dx, dy) < SweepIndex(c, dx, dy)
    ensures Rank(Next(c, dx, dy), dx, dy) == Rank(c, dx, dy) - 1
  {
  }

  /** The state the sweep works on: the live board, the score so far and whether anything moved. */
  datatype Sweep = Sweep(tiles: Tiles, score: int, moved: bool)

  /**
   * The tile at c advances one cell at a time: into an empty cell, or onto an
   * equal tile that has not merged yet (and then stops), or it stops.
   */
  function Push(st: Sweep, c: Cell, dx: int, dy: int): Sweep
    requires IsMove(dx, dy) && InBounds(c) && c in st.tiles
    decreases Rank(c, dx, dy)
  {
    var n := Next(c, dx, dy);
    if !InBounds(n) then st
    else if n !in st.tiles then
      Push(Sweep((st.tiles - {c})[n := st.tiles[c]], st.score, true), n, dx, dy)
    else if st.tiles[n].num == st.tiles[c].num && !st.tiles[n].merged then
      var v := st.tiles[n].num + st.tiles[c].num;
      Sweep((st.tiles - {c})[n := Tile(v, true)], st.score + v, true)
    else st
  }

  /** The three ways one step of a push can go. */
  lemma PushStops(st: Sweep, c: Cell, dx: int, dy: int)
    requires IsMove(dx, dy) && InBounds(c) && c in st.tiles
    requires var n := Next(c, dx, dy);
      !InBounds(n) || (n in st.tiles && !(st.tiles[n].num == st.tiles[c].num && !st.tiles[n].merged))
    ensures Push(st, c, dx, dy) == st
  {
  }

  lemma PushSteps(st: Sweep, c: Cell, dx: int, dy: int)
    requires IsMove(dx, dy) && InBounds(c) && c in st.tiles
    requires InBounds(Next(c, dx, dy)) && Next(c, dx, dy) !in st.tiles
    ensures var n := Next(c, dx, dy);
      Push(st, c, dx, dy) == Push(Sweep((st.tiles - {c})[n := st.tiles[c]], st.score, true), n, dx, dy)
  {
  }

  lemma PushMerges(st: Sweep, c: Cell, dx: int, dy: int)
    requires IsMove(dx, dy) && InBounds(c) && c in st.tiles
    requires var n := Next(c, dx, dy);
      InBounds(n) && n in st.tiles && st.tiles[n].num == st.tiles[c].num && !st.tiles[n].merged
    ensures var n := Next(c, dx, dy); var v := st.tiles[n].num + st.tiles[c].num;
      Push(st, c, dx, dy) == Sweep((st.tiles - {c})[n := Tile(v, true)], st.score + v, true)
  {
  }

  function Visit(st: Sweep, c: Cell, dx: int, dy: int): Sweep
    requires IsMove(dx, dy) && InBounds(c)
  {
    if c in st.tiles then Push(st, c, dx, dy) else st
  }

  /** The state after the first k steps of the sweep over the board t0. */
  function Swept(t0: Tiles, k: int, dx: int, dy: int): Sweep
    requires IsMove(dx, dy) && 0 <= k <= N * N
  {
    if k == 0 then Sweep(t0, 0, false)
    else
      SweepCellIndex(k - 1, dx, dy);
      Visit(Swept(t0, k - 1, dx, dy), SweepCell(k - 1, dx, dy), dx, dy)
  }

  /** The board with every merged flag reset. */
  function ClearFlags(m: Tiles): (r: Tiles)
    ensures r.Keys == m.Keys && NoFlags(r)
    ensures forall c :: c in m ==> r[c].num == m[c].num
  {
    map c | c in m :: Tile(m[c].num, false)
  }

  /** One whole move: sweep all N*N cells, then reset the flags. */
  function SlideResult(t0: Tiles, dx: int, dy: int): Sweep
    requires IsMove(dx, dy)
  {
    var s := Swept(t0, N * N, dx, dy);
    Sweep(ClearFlags(s.tiles), s.score, s.moved)
  }

  /** The number of merges of the move: each merge flags the tile it produces. */
  function Merges(t0: Tiles, dx: int, dy: int): int
    requires IsMove(dx, dy)
  {
    Sum(Swept(t0, N * N, dx, dy).tiles, FlagCount)
  }

  /** The sum of the values that the merges of the move produced. */
  function MergedValues(t0: Tiles, dx: int, dy: int): int
    requires IsMove(dx, dy)
  {
    Sum(Swept(t0, N * N, dx, dy).tiles, FlagTotal)
  }

  /** A cell ahead of c in the sweep, that is, visited before it. */
  predicate Ahead(x: Cell, c: Cell, dx: int, dy: int) {
    InBounds(x) && SweepIndex(x, dx, dy) < SweepIndex(c, dx, dy)
  }

  predicate SameAt(m1: Tiles, m2: Tiles, x: Cell) {
    (x in m1 <==> x in m2) && (x in m1 ==> m1[x] == m2[x])
  }

  // ---------------------------------------------------------------------
  // What one push does

  /** A push changes only the cell it starts from and cells the sweep has already visited. */
  lemma {:induction false} PushFrame(st: Sweep, c: Cell, dx: int, dy: int)
    requires IsMove(dx, dy) && InBounds(c) && c in st.tiles && KeysInBounds(st.tiles)
    ensures KeysInBounds(Push(st, c, dx, dy).tiles)
    ensures forall x :: x != c && !Ahead(x, c, dx, dy) ==> SameAt(st.tiles, Push(st, c, dx, dy).tiles, x)
    ensures st.moved ==> Push(st, c, dx, dy).moved
    decreases Rank(c, dx, dy)
  {
    var n := Next(c, dx, dy);
    if InBounds(n) {
      NextVisitedEarlier(c, dx, dy);
      if n !in st.tiles {
        var st' := Sweep((st.tiles - {c})[n := st.tiles[c]], st.score, true);
        PushFrame(st', n, dx, dy);
        forall x | x != c && !Ahead(x, c, dx, dy)
          ensures SameAt(st.tiles, Push(st, c, dx, dy).tiles, x)
        {
          assert x != n && !Ahead(x, n, dx, dy);
          assert SameAt(st.tiles, st'.tiles, x);
        }
      }
    }
  }

  /** A push keeps the total of the tile numbers. */
  lemma {:induction false} PushTotal(st: Sweep, c: Cell, dx: int, dy: int)
    requires IsMove(dx, dy) && InBounds(c) && c in st.tiles && KeysInBounds(st.tiles)
    ensures Sum(Push(st, c, dx, dy).tiles, Total) == Sum(st.tiles, Total)
    decreases Rank(c, dx, dy)
  {
    var n := Next(c, dx, dy);
    if InBounds(n) {
      NextVisitedEarlier(c, dx, dy);
      if n !in st.tiles {
        var m := (st.tiles - {c})[n := st.tiles[c]];
        SumChange2(st.tiles, m, c, n, Total);
        PushTotal(Sweep(m, st.score, true), n, dx, dy);
      } else if st.tiles[n].num == st.tiles[c].num && !st.tiles[n].merged {
        var v := st.tiles[n].num + st.tiles[c].num;
        SumChange2(st.tiles, (st.tiles - {c})[n := Tile(v, true)], c, n, Total);
      }
    }
  }

  /**
   * A push of an unflagged tile: a merge removes one tile and flags one more,
   * and adds the merged value to the score.
   */
  lemma {:induction false} PushCountScore(st: Sweep, c: Cell, dx: int, dy: int)
    requires IsMove(dx, dy) && InBounds(c) && c in st.tiles && KeysInBounds(st.tiles)
    requires !st.tiles[c].merged
    ensures var p := Push(st, c, dx, dy);
      && Sum(p.tiles, Count) + Sum(p.tiles, FlagCount) == Sum(st.tiles, Count) + Sum(st.tiles, FlagCount)
      && p.score - Sum(p.tiles, FlagTotal) == st.score - Sum(st.tiles, FlagTotal)
    decreases Rank(c, dx, dy)
  {
    var n := Next(c, dx, dy);
    if InBounds(n) {
      NextVisitedEarlier(c, dx, dy);
      if n !in st.tiles {
        var m := (st.tiles - {c})[n := st.tiles[c]];
        SumChange2(st.tiles, m, c, n, Count);
        SumChange2(st.tiles, m, c, n, FlagCount);
        SumChange2(st.tiles, m, c, n, FlagTotal);
        PushCountScore(Sweep(m, st.score, true), n, dx, dy);
      } else if st.tiles[n].num == st.tiles[c].num && !st.tiles[n].merged {
        var v := st.tiles[n].num + st.tiles[c].num;
        var m := (st.tiles - {c})[n := Tile(v, true)];
        SumChange2(st.tiles, m, c, n, Count);
        SumChange2(st.tiles, m, c, n, FlagCount);
        SumChange2(st.tiles, m, c, n, FlagTotal);
      }
    }
  }

  /** A push either changes nothing, or moves something and lowers the potential. */
  lemma {:induction false} PushPotential(st: Sweep, c: Cell, dx: int, dy: int)
    requires IsMove(dx, dy) && InBounds(c) && c in st.tiles && KeysInBounds(st.tiles)
    ensures var p := Push(st, c, dx, dy);
      p == st || (p.moved && Sum(p.tiles, Potential(dx, dy)) < Sum(st.tiles, Potential(dx, dy)))
    decreases Rank(c, dx, dy)
  {
    var n := Next(c, dx, dy);
    if InBounds(n) {
      NextVisitedEarlier(c, dx, dy);
      if n !in st.tiles {
        var m := (st.tiles - {c})[n := st.tiles[c]];
        SumChange2(st.tiles, m, c, n, Potential(dx, dy));
        PushFrame(st, c, dx, dy);
        PushPotential(Sweep(m, st.score, true), n, dx, dy);
      } else if st.tiles[n].num == st.tiles[c].num && !st.tiles[n].merged {
        var v := st.tiles[n].num + st.tiles[c].num;
        var m := (st.tiles - {c})[n := Tile(v, true)];
        SumChange2(st.tiles, m, c, n, Potential(dx, dy));
      }
    }
  }

  /**
   * Packing: once the tile starting at s has been pushed, no tile on a cell
   * visited so far has an empty cell ahead of it.  The tile is at c; it is
   * either still at s, or the cell behind it is empty.
   */
  lemma {:induction false} PushPacking(st: Sweep, s: Cell, c: Cell, dx: int, dy: int)
    requires IsMove(dx, dy) && InBounds(c) && c in st.tiles && KeysInBounds(st.tiles) && InBounds(s)
    requires c == s || (Ahead(c, s, dx, dy) && Prev(c, dx, dy) !in st.tiles)
    requires forall x :: x in st.tiles && x != c ==> PackedAt(st.tiles, x, SweepIndex(s, dx, dy) + 1, dx, dy)
    ensures forall x :: x in Push(st, c, dx, dy).tiles ==>
      PackedAt(Push(st, c, dx, dy).tiles, x, SweepIndex(s, dx, dy) + 1, dx, dy)
    decreases Rank(c, dx, dy)
  {
    var k := SweepIndex(s, dx, dy) + 1;
    var n := Next(c, dx, dy);
    if !InBounds(n) {
      assert PackedAt(st.tiles, c, k, dx, dy);
    } else {
      NextVisitedEarlier(c, dx, dy);
      if n !in st.tiles {
        var m := (st.tiles - {c})[n := st.tiles[c]];
        PackedAfterStep(st, s, c, dx, dy);
        assert Prev(n, dx, dy) == c;
        PushPacking(Sweep(m, st.score, true), s, n, dx, dy);
      } else if st.tiles[n].num == st.tiles[c].num && !st.tiles[n].merged {
        PackedAfterMerge(st, s, c, dx, dy);
      } else {
        assert PackedAt(st.tiles, c, k, dx, dy);
      }
    }
  }

  /** No tile on a visited cell sits right behind the pushed tile. */
  lemma NothingBehind(st: Sweep, s: Cell, c: Cell, dx: int, dy: int)
    requires IsMove(dx, dy) && InBounds(c) && c in st.tiles && KeysInBounds(st.tiles) && InBounds(s)
    requires c == s || (Ahead(c, s, dx, dy) && Prev(c, dx, dy) !in st.tiles)
    ensures forall x :: x in st.tiles && SweepIndex(x, dx, dy) <= SweepIndex(s, dx, dy) ==> Next(x, dx, dy) != c
  {
    forall x | Next(x, dx, dy) == c ensures x == Prev(c, dx, dy) {
    }
    if c == s {
      forall x | x in st.tiles && Next(x, dx, dy) == s
        ensures SweepIndex(x, dx, dy) > SweepIndex(s, dx, dy)
      {
        NextVisitedEarlier(x, dx, dy);
      }
    }
  }

  lemma PackedAfterStep(st: Sweep, s: Cell, c: Cell, dx: int, dy: int)
    requires IsMove(dx, dy) && InBounds(c) && c in st.tiles && KeysInBounds(st.tiles) && InBounds(s)
    requires c == s || (Ahead(c, s, dx, dy) && Prev(c, dx, dy) !in st.tiles)
    requires forall x :: x in st.tiles && x != c ==> PackedAt(st.tiles, x, SweepIndex(s, dx, dy) + 1, dx, dy)
    requires InBounds(Next(c, dx, dy)) && Next(c, dx, dy) !in st.tiles
    ensures var m := (st.tiles - {c})[Next(c, dx, dy) := st.tiles[c]];
      forall x :: x in m && x != Next(c, dx, dy) ==> PackedAt(m, x, SweepIndex(s, dx, dy) + 1, dx, dy)
  {
    NothingBehind(st, s, c, dx, dy);
  }

  lemma PackedAfterMerge(st: Sweep, s: Cell, c: Cell, dx: int, dy: int)
    requires IsMove(dx, dy) && InBounds(c) && c in st.tiles && KeysInBounds(st.tiles) && InBounds(s)
    requires c == s || (Ahead(c, s, dx, dy) && Prev(c, dx, dy) !in st.tiles)
    requires forall x :: x in st.tiles && x != c ==> PackedAt(st.tiles, x, SweepIndex(s, dx, dy) + 1, dx, dy)
    requires InBounds(Next(c, dx, dy)) && Next(c, dx, dy) in st.tiles
    requires st.tiles[Next(c, dx, dy)].num == st.tiles[c].num && !st.tiles[Next(c, dx, dy)].merged
    ensures forall x :: x in Push(st, c, dx, dy).tiles ==>
      PackedAt(Push(st, c, dx, dy).tiles, x, SweepIndex(s, dx, dy) + 1, dx, dy)
  {
    NothingBehind(st, s, c, dx, dy);
  }

  /**
   * A tile at x on a cell the sweep has visited before step k is packed:
   * the cell ahead of it is off the grid or occupied.
   */
  predicate PackedAt(m: Tiles, x: Cell, k: int, dx: int, dy: int) {
    SweepIndex(x, dx, dy) < k && InBounds(Next(x, dx, dy)) ==> Next(x, dx, dy) in m
  }

  predicate AllPowersOfTwo(m: Tiles) {
    forall c :: c in m ==> m[c].num >= 2 && IsPowerOfTwo(m[c].num)
  }

  predicate IsPowerOfTwo(x: int)
    decreases if x < 1 then 0 else x
  {
    x == 1 || (x > 1 && x % 2 == 0 && IsPowerOfTwo(x / 2))
  }

  /** A merge only adds two equal numbers, so powers of two stay powers of two. */
  lemma {:induction false} PushPowers(st: Sweep, c: Cell, dx: int, dy: int)
    requires IsMove(dx, dy) && InBounds(c) && c in st.tiles && AllPowersOfTwo(st.tiles)
    ensures AllPowersOfTwo(Push(st, c, dx, dy).tiles)
    decreases Rank(c, dx, dy)
  {
    var n := Next(c, dx, dy);
    if InBounds(n) {
      NextVisitedEarlier(c, dx, dy);
      if n !in st.tiles {
        PushPowers(Sweep((st.tiles - {c})[n := st.tiles[c]], st.score, true), n, dx, dy);
      } else if st.tiles[n].num == st.tiles[c].num && !st.tiles[n].merged {
        var a := st.tiles[n].num;
        assert (a + a) / 2 == a;
      }
    }
  }

  // ---------------------------------------------------------------------
  // What the sweep keeps, step by step

  /** Cells the sweep has not reached yet still hold the tiles they started with. */
  lemma {:induction false} SweptFrame(t0: Tiles, k: int, dx: int, dy: int)
    requires KeysInBounds(t0) && IsMove(dx, dy) && 0 <= k <= N * N
    ensures KeysInBounds(Swept(t0, k, dx, dy).tiles)
    ensures forall x :: InBounds(x) && SweepIndex(x, dx, dy) >= k ==> SameAt(t0, Swept(t0, k, dx, dy).tiles, x)
  {
    if k > 0 {
      SweptFrame(t0, k - 1, dx, dy);
      var st := Swept(t0, k - 1, dx, dy);
      var s := SweepCell(k - 1, dx, dy);
      SweepCellIndex(k - 1, dx, dy);
      if s in st.tiles {
        PushFrame(st, s, dx, dy);
        forall x | InBounds(x) && SweepIndex(x, dx, dy) >= k
          ensures SameAt(t0, Swept(t0, k, dx, dy).tiles, x)
        {
          assert x != s && !Ahead(x, s, dx, dy);
        }
      }
    }
  }

  lemma {:induction false} SweptTotal(t0: Tiles, k: int, dx: int, dy: int)
    requires KeysInBounds(t0) && IsMove(dx, dy) && 0 <= k <= N * N
    ensures Sum(Swept(t0, k, dx, dy).tiles, Total) == Sum(t0, Total)
  {
    if k > 0 {
      SweptTotal(t0, k - 1, dx, dy);
      SweptFrame(t0, k - 1, dx, dy);
      var st := Swept(t0, k - 1, dx, dy);
      var s := SweepCell(k - 1, dx, dy);
      SweepCellIndex(k - 1, dx, dy);
      if s in st.tiles {
        PushTotal(st, s, dx, dy);
      }
    }
  }

  lemma {:induction false} SweptCountScore(t0: Tiles, k: int, dx: int, dy: int)
    requires KeysInBounds(t0) && NoFlags(t0) && IsMove(dx, dy) && 0 <= k <= N * N
    ensures var st := Swept(t0, k, dx, dy);
      && Sum(st.tiles, Count) + Sum(st.tiles, FlagCount) == Sum(t0, Count)
      && st.score == Sum(st.tiles, FlagTotal)
  {
    if k == 0 {
      SumOverZero(t0, AllCells(), FlagCount);
      SumOverZero(t0, AllCells(), FlagTotal);
    } else {
      SweptCountScore(t0, k - 1, dx, dy);
      SweptFrame(t0, k - 1, dx, dy);
      var st := Swept(t0, k - 1, dx, dy);
      var s := SweepCell(k - 1, dx, dy);
      SweepCellIndex(k - 1, dx, dy);
      if s in st.tiles {
        assert SameAt(t0, st.tiles, s);
        PushCountScore(st, s, dx, dy);
      }
    }
  }

  lemma {:induction false} SweptPotential(t0: Tiles, k: int, dx: int, dy: int)
    requires KeysInBounds(t0) && IsMove(dx, dy) && 0 <= k <= N * N
    ensures var st := Swept(t0, k, dx, dy);
      st == Sweep(t0, 0, false) || (st.moved && Sum(st.tiles, Potential(dx, dy)) < Sum(t0, Potential(dx, dy)))
  {
    if k > 0 {
      SweptPotential(t0, k - 1, dx, dy);
      SweptFrame(t0, k - 1, dx, dy);
      var st := Swept(t0, k - 1, dx, dy);
      var s := SweepCell(k - 1, dx, dy);
      SweepCellIndex(k - 1, dx, dy);
      if s in st.tiles {
        PushPotential(st, s, dx, dy);
      }
    }
  }

  lemma {:induction false} SweptPacked(t0: Tiles, k: int, dx: int, dy: int)
    requires KeysInBounds(t0) && IsMove(dx, dy) && 0 <= k <= N * N
    ensures forall x :: x in Swept(t0, k, dx, dy).tiles ==> PackedAt(Swept(t0, k, dx, dy).tiles, x, k, dx, dy)
  {
    if k > 0 {
      SweptPacked(t0, k - 1, dx, dy);
      SweptFrame(t0, k - 1, dx, dy);
      var st := Swept(t0, k - 1, dx, dy);
      var s := SweepCell(k - 1, dx, dy);
      SweepCellIndex(k - 1, dx, dy);
      // Step k - 1 of the sweep visits s and no other cell.
      forall x | x in st.tiles && x != s ensures PackedAt(st.tiles, x, k, dx, dy) {
        assert PackedAt(st.tiles, x, k - 1, dx, dy);
        if SweepIndex(x, dx, dy) == k - 1 {
          SweepIndexInjective(x, s, dx, dy);
        }
      }
      if s in st.tiles {
        PushPacking(st, s, s, dx, dy);
      }
    }
  }

  lemma {:induction false} SweptPowers(t0: Tiles, k: int, dx: int, dy: int)
    requires AllPowersOfTwo(t0) && IsMove(dx, dy) && 0 <= k <= N * N
    ensures AllPowersOfTwo(Swept(t0, k, dx, dy).tiles)
  {
    if k > 0 {
      SweptPowers(t0, k - 1, dx, dy);
      var st := Swept(t0, k - 1, dx, dy);
      var s := SweepCell(k - 1, dx, dy);
      if s in st.tiles {
        PushPowers(st, s, dx, dy);
      }
    }
  }

  // ---------------------------------------------------------------------
  // What a whole move guarantees

  /** After a move every tile is on the grid and no merged flag is left set. */
  lemma SlideKeepsBoardValid(t0: Tiles, dx: int, dy: int)
    requires KeysInBounds(t0) && IsMove(dx, dy)
    ensures KeysInBounds(SlideResult(t0, dx, dy).tiles)
    ensures NoFlags(SlideResult(t0, dx, dy).tiles)
  {
    SweptFrame(t0, N * N, dx, dy);
  }

  /** A move keeps the sum of all tile numbers. */
  lemma SlideConservesTotal(t0: Tiles, dx: int, dy: int)
    requires KeysInBounds(t0) && IsMove(dx, dy)
    ensures Sum(SlideResult(t0, dx, dy).tiles, Total) == Sum(t0, Total)
  {
    var s := Swept(t0, N * N, dx, dy);
    SweptTotal(t0, N * N, dx, dy);
    SweptFrame(t0, N * N, dx, dy);
    ClearFlagsTotal(s.tiles, AllCells());
  }

  lemma {:induction false} ClearFlagsTotal(m: Tiles, cs: seq<Cell>)
    ensures SumOver(ClearFlags(m), cs, Total) == SumOver(m, cs, Total)
  {
    if cs != [] {
      ClearFlagsTotal(m, cs[1..]);
    }
  }

  /**
   * A move never empties a board that holds tiles: each merge leaves a
   * flagged tile behind, so at most half of the tiles disappear.
   */
  lemma SlideKeepsTiles(t0: Tiles, dx: int, dy: int)
    requires KeysInBounds(t0) && NoFlags(t0) && IsMove(dx, dy) && t0 != map[]
    ensures SlideResult(t0, dx, dy).tiles != map[]
  {
    var s := Swept(t0, N * N, dx, dy);
    SlideCountAndScore(t0, dx, dy);
    SweptFrame(t0, N * N, dx, dy);
    CountIsSize(s.tiles);
    FlagsAtMostTiles(s.tiles, AllCells());
    assert |SlideResult(t0, dx, dy).tiles| == |s.tiles| by {
      assert SlideResult(t0, dx, dy).tiles.Keys == s.tiles.Keys;
    }
    assert |t0| > 0;
  }

  /**
   * The number of tiles drops by exactly the number of merges, and the score
   * of the move is the sum of the values the merges produced.
   */
  lemma SlideCountAndScore(t0: Tiles, dx: int, dy: int)
    requires KeysInBounds(t0) && NoFlags(t0) && IsMove(dx, dy)
    ensures |SlideResult(t0, dx, dy).tiles| == |t0| - Merges(t0, dx, dy)
    ensures SlideResult(t0, dx, dy).score == MergedValues(t0, dx, dy)
    ensures Merges(t0, dx, dy) == 0 ==> SlideResult(t0, dx, dy).score == 0
  {
    var s := Swept(t0, N * N, dx, dy);
    SweptCountScore(t0, N * N, dx, dy);
    SweptFrame(t0, N * N, dx, dy);
    CountIsSize(t0);
    CountIsSize(s.tiles);
    if Merges(t0, dx, dy) == 0 {
      NoMergesNoFlags(s.tiles, AllCells());
    }
  }

  lemma {:induction false} NoMergesNoFlags(m: Tiles, cs: seq<Cell>)
    requires SumOver(m, cs, FlagCount) == 0
    ensures SumOver(m, cs, FlagTotal) == 0
  {
    if cs != [] {
      assert At(m, cs[0], FlagCount) >= 0;
      assert SumOver(m, cs[1..], FlagCount) >= 0 by { FlagCountNonNegative(m, cs[1..]); }
      NoMergesNoFlags(m, cs[1..]);
    }
  }

  lemma {:induction false} FlagCountNonNegative(m: Tiles, cs: seq<Cell>)
    ensures SumOver(m, cs, FlagCount) >= 0
  {
    if cs != [] {
      FlagCountNonNegative(m, cs[1..]);
    }
  }

  /**
   * After a move every tile is packed toward the edge: the cell next to it
   * in the direction of the move is off the grid or occupied.
   */
  lemma SlidePacks(t0: Tiles, dx: int, dy: int)
    requires KeysInBounds(t0) && IsMove(dx, dy)
    ensures var m := SlideResult(t0, dx, dy).tiles;
      forall c :: c in m ==> InBounds(c) && (InBounds(Next(c, dx, dy)) ==> Next(c, dx, dy) in m)
  {
    SweptFrame(t0, N * N, dx, dy);
    SweptPacked(t0, N * N, dx, dy);
    var s := Swept(t0, N * N, dx, dy);
    forall c | c in s.tiles ensures InBounds(Next(c, dx, dy)) ==> Next(c, dx, dy) in s.tiles {
      SweepIndexRange(c, dx, dy);
      assert PackedAt(s.tiles, c, N * N, dx, dy);
    }
  }

  /** The potential depends only on which cells are occupied. */
  lemma {:induction false} PotentialOfKeys(m1: Tiles, m2: Tiles, cs: seq<Cell>, dx: int, dy: int)
    requires m1.Keys == m2.Keys
    ensures SumOver(m1, cs, Potential(dx, dy)) == SumOver(m2, cs, Potential(dx, dy))
  {
    if cs != [] {
      PotentialOfKeys(m1, m2, cs[1..], dx, dy);
    }
  }

  /**
   * A move reports that something moved exactly when the board changed; when
   * nothing moved, the board, and the score of 0, are as before.
   */
  lemma SlideMovedIffChanged(t0: Tiles, dx: int, dy: int)
    requires KeysInBounds(t0) && NoFlags(t0) && IsMove(dx, dy)
    ensures SlideResult(t0, dx, dy).moved <==> SlideResult(t0, dx, dy).tiles != t0
    ensures !SlideResult(t0, dx, dy).moved ==> SlideResult(t0, dx, dy).score == 0
  {
    var s := Swept(t0, N * N, dx, dy);
    var r := SlideResult(t0, dx, dy);
    SweptPotential(t0, N * N, dx, dy);
    if s == Sweep(t0, 0, false) {
      assert r.tiles == t0;
    } else {
      PotentialOfKeys(r.tiles, s.tiles, AllCells(), dx, dy);
    }
  }

  /** A move keeps every tile a power of two of at least 2. */
  lemma SlideKeepsPowersOfTwo(t0: Tiles, dx: int, dy: int)
    requires AllPowersOfTwo(t0) && IsMove(dx, dy)
    ensures AllPowersOfTwo(SlideResult(t0, dx, dy).tiles)
  {
    SweptPowers(t0, N * N, dx, dy);
  }

  /** A move that changes a full board merges, so it leaves an empty cell for the new tile. */
  lemma MovedFullBoardFreesCell(t0: Tiles, dx: int, dy: int)
    requires KeysInBounds(t0) && NoFlags(t0) && IsMove(dx, dy)
    requires |t0| == N * N && SlideResult(t0, dx, dy).moved
    ensures Merges(t0, dx, dy) >= 1
    ensures |SlideResult(t0, dx, dy).tiles| < N * N
  {
    var r := SlideResult(t0, dx, dy);
    SlideCountAndScore(t0, dx, dy);
    SlideMovedIffChanged(t0, dx, dy);
    SlideKeepsBoardValid(t0, dx, dy);
    if Merges(t0, dx, dy) <= 0 {
      SizeAtMost(r.tiles);
      FlagCountNonNegative(Swept(t0, N * N, dx, dy).tiles, AllCells());
      assert |r.tiles| == N * N;
      FullCovers(t0);
      FullCovers(r.tiles);
      assert r.tiles.Keys == t0.Keys;
      var s := Swept(t0, N * N, dx, dy);
      SweptPotential(t0, N * N, dx, dy);
      PotentialOfKeys(t0, s.tiles, AllCells(), dx, dy);
      assert false;
    }
  }

  /** A push never clears the moved flag, and a push that leaves it clear changes nothing. */
  lemma {:induction false} PushMovedFlag(st: Sweep, c: Cell, dx: int, dy: int)
    requires IsMove(dx, dy) && InBounds(c) && c in st.tiles
    ensures st.moved ==> Push(st, c, dx, dy).moved
    ensures !Push(st, c, dx, dy).moved ==> Push(st, c, dx, dy) == st
    decreases Rank(c, dx, dy)
  {
    var n := Next(c, dx, dy);
    if InBounds(n) && n !in st.tiles {
      NextVisitedEarlier(c, dx, dy);
      PushMovedFlag(Sweep((st.tiles - {c})[n := st.tiles[c]], st.score, true), n, dx, dy);
    }
  }

  /** While nothing has moved, the first k steps of the sweep have left the board as it was. */
  lemma {:induction false} SweptStill(t0: Tiles, k: int, dx: int, dy: int)
    requires IsMove(dx, dy) && 0 <= k <= N * N && !Swept(t0, k, dx, dy).moved
    ensures forall j :: 0 <= j <= k ==> Swept(t0, j, dx, dy) == Sweep(t0, 0, false)
  {
    if k > 0 {
      var prev := Swept(t0, k - 1, dx, dy);
      SweepCellIndex(k - 1, dx, dy);
      var c := SweepCell(k - 1, dx, dy);
      if c in prev.tiles {
        PushMovedFlag(prev, c, dx, dy);
      }
      SweptStill(t0, k - 1, dx, dy);
    }
  }

  /** The sweep visits every cell of the grid at the step SweepIndex gives. */
  lemma SweepCellAt(c: Cell, dx: int, dy: int)
    requires InBounds(c)
    ensures 0 <= SweepIndex(c, dx, dy) < N * N && SweepCell(SweepIndex(c, dx, dy), dx, dy) == c
  {
    SweepIndexRange(c, dx, dy);
    SweepCellIndex(SweepIndex(c, dx, dy), dx, dy);
    SweepIndexInjective(c, SweepCell(SweepIndex(c, dx, dy), dx, dy), dx, dy);
  }

  /** Once a step of the sweep has moved something, the sweep reports a move. */
  lemma {:induction false} SweptMovedStays(t0: Tiles, j: int, k: int, dx: int, dy: int)
    requires IsMove(dx, dy) && 0 <= j <= k <= N * N && Swept(t0, j, dx, dy).moved
    ensures Swept(t0, k, dx, dy).moved
  {
    if j < k {
      SweptMovedStays(t0, j, k - 1, dx, dy);
      SweepCellIndex(k - 1, dx, dy);
      var c := SweepCell(k - 1, dx, dy);
      if c in Swept(t0, k - 1, dx, dy).tiles {
        PushMovedFlag(Swept(t0, k - 1, dx, dy), c, dx, dy);
      }
    }
  }

  /** A move that moved something leaves at least one empty cell, so a new tile always fits. */
  lemma MovedLeavesRoom(t0: Tiles, dx: int, dy: int)
    requires KeysInBounds(t0) && NoFlags(t0) && IsMove(dx, dy) && SlideResult(t0, dx, dy).moved
    ensures |SlideResult(t0, dx, dy).tiles| < N * N
  {
    SizeAtMost(t0);
    if |t0| == N * N {
      MovedFullBoardFreesCell(t0, dx, dy);
    } else {
      SlideCountAndScore(t0, dx, dy);
      FlagCountNonNegative(Swept(t0, N * N, dx, dy).tiles, AllCells());
    }
  }
}
