/** Cells, tiles and sums over the fixed N-by-N grid of the 2048 board. */
module Grid {

  /** The board is N cells wide and N cells high. */
  const N: int := 4

  /** A board coordinate, written (col, row) as in the tile dictionary's keys. */
  type Cell = (int, int)

  /** A tile: its number, and whether it was produced by a merge during the current move. */
  datatype Tile = Tile(num: int, merged: bool)

  /** The sparse board: only occupied cells are keys. */
  type Tiles = map<Cell, Tile>

  predicate InBounds(c: Cell) {
    0 <= c.0 < N && 0 <= c.1 < N
  }

  predicate KeysInBounds(m: Tiles) {
    forall c :: c in m ==> InBounds(c)
  }

  predicate NoFlags(m: Tiles) {
    forall c :: c in m ==> !m[c].merged
  }

  /** How far a cell is from the edge that the direction (dx, dy) pushes toward. */
  function Rank(c: Cell, dx: int, dy: int): int {
    if dx == -1 then c.0
    else if dx == 1 then N - 1 - c.0
    else if dy == -1 then c.1
    else N - 1 - c.1
  }

  predicate Distinct(cs: seq<Cell>) {
    forall i, j :: 0 <= i < j < |cs| ==> cs[i] != cs[j]
  }

  /** Every cell of the grid, row by row. */
  function AllCells(): (cs: seq<Cell>)
    ensures |cs| == N * N
    ensures forall k :: 0 <= k < N * N ==> cs[k] == (k % N, k / N)
  {
    seq(N * N, k => (k % N, k / N))
  }

  lemma AllCellsDistinct()
    ensures Distinct(AllCells())
  {
    var cs := AllCells();
    forall i, j | 0 <= i < j < |cs| ensures cs[i] != cs[j] {
      assert i == (i / N) * N + i % N && j == (j / N) * N + j % N;
    }
  }

  lemma AllCellsCover(c: Cell)
    requires InBounds(c)
    ensures 0 <= c.1 * N + c.0 < N * N && AllCells()[c.1 * N + c.0] == c
    ensures c in AllCells()
  {
    var k := c.1 * N + c.0;
    assert k / N == c.1 && k % N == c.0;
  }

  lemma AllCellsInBounds(k: int)
    requires 0 <= k < N * N
    ensures InBounds(AllCells()[k])
  {
  }

  /** What a sum over the board adds up, cell by cell. */
  datatype Measure =
    | Total                        // the tile numbers
    | Count                        // one per tile
    | FlagCount                    // one per tile flagged as merged
    | FlagTotal                    // the numbers of the flagged tiles
    | Potential(dx: int, dy: int)  // distance of each tile to the edge, plus one

  function Weight(ms: Measure, c: Cell, t: Tile): int {
    match ms
    case Total => t.num
    case Count => 1
    case FlagCount => if t.merged then 1 else 0
    case FlagTotal => if t.merged then t.num else 0
    case Potential(dx, dy) => Rank(c, dx, dy) + 1
  }

  function At(m: Tiles, c: Cell, ms: Measure): int {
    if c in m then Weight(ms, c, m[c]) else 0
  }

  function SumOver(m: Tiles, cs: seq<Cell>, ms: Measure): int {
    if cs == [] then 0 else At(m, cs[0], ms) + SumOver(m, cs[1..], ms)
  }

  /** The sum of a measure over the whole grid. */
  function Sum(m: Tiles, ms: Measure): int {
    SumOver(m, AllCells(), ms)
  }

  /** Changing a board at one cell changes a sum by the change at that cell. */
  lemma {:induction false} SumOverChange(m1: Tiles, m2: Tiles, cs: seq<Cell>, c: Cell, ms: Measure)
    requires Distinct(cs)
    requires forall x :: x != c ==> At(m1, x, ms) == At(m2, x, ms)
    ensures SumOver(m2, cs, ms) == SumOver(m1, cs, ms) + (if c in cs then At(m2, c, ms) - At(m1, c, ms) else 0)
  {
    if cs != [] {
      assert Distinct(cs[1..]) by {
        forall i, j | 0 <= i < j < |cs[1..]| ensures cs[1..][i] != cs[1..][j] {
          assert cs[1..][i] == cs[i + 1] && cs[1..][j] == cs[j + 1];
        }
      }
      SumOverChange(m1, m2, cs[1..], c, ms);
      if cs[0] == c {
        assert c !in cs[1..] by {
          forall i | 0 <= i < |cs[1..]| ensures cs[1..][i] != c {
            assert cs[1..][i] == cs[i + 1];
          }
        }
      } else {
        assert c in cs <==> c in cs[1..] by {
          assert cs == [cs[0]] + cs[1..];
        }
      }
    }
  }

  lemma SumChange(m1: Tiles, m2: Tiles, c: Cell, ms: Measure)
    requires InBounds(c)
    requires forall x :: x != c ==> At(m1, x, ms) == At(m2, x, ms)
    ensures Sum(m2, ms) == Sum(m1, ms) + At(m2, c, ms) - At(m1, c, ms)
  {
    AllCellsDistinct();
    AllCellsCover(c);
    SumOverChange(m1, m2, AllCells(), c, ms);
  }

  /** Changing a board at two cells changes a sum by the changes at those two cells. */
  lemma SumChange2(m1: Tiles, m2: Tiles, a: Cell, b: Cell, ms: Measure)
    requires InBounds(a) && InBounds(b) && a != b
    requires forall x :: x != a && x != b ==> At(m1, x, ms) == At(m2, x, ms)
    ensures Sum(m2, ms) == Sum(m1, ms) + At(m2, a, ms) - At(m1, a, ms) + At(m2, b, ms) - At(m1, b, ms)
  {
    var mid := if a in m2 then m1[a := m2[a]] else m1 - {a};
    assert At(mid, a, ms) == At(m2, a, ms);
    assert At(mid, b, ms) == At(m1, b, ms);
    SumChange(m1, mid, a, ms);
    SumChange(mid, m2, b, ms);
  }

  lemma {:induction false} SumOverZero(m: Tiles, cs: seq<Cell>, ms: Measure)
    requires forall x :: x in m ==> Weight(ms, x, m[x]) == 0
    ensures SumOver(m, cs, ms) == 0
  {
    if cs != [] {
      SumOverZero(m, cs[1..], ms);
    }
  }

  /** The set of the cells of cs that hold a tile. */
  function Occupied(m: Tiles, cs: seq<Cell>): set<Cell> {
    set x | x in cs && x in m
  }

  lemma {:induction false} SumOverCount(m: Tiles, cs: seq<Cell>)
    requires Distinct(cs)
    ensures SumOver(m, cs, Count) == |Occupied(m, cs)|
  {
    if cs != [] {
      var rest := cs[1..];
      assert Distinct(rest) by {
        forall i, j | 0 <= i < j < |rest| ensures rest[i] != rest[j] {
          assert rest[i] == cs[i + 1] && rest[j] == cs[j + 1];
        }
      }
      SumOverCount(m, rest);
      assert cs[0] !in rest by {
        forall i | 0 <= i < |rest| ensures rest[i] != cs[0] {
          assert rest[i] == cs[i + 1];
        }
      }
      assert cs == [cs[0]] + rest;
      if cs[0] in m {
        assert Occupied(m, cs) == Occupied(m, rest) + {cs[0]};
      } else {
        assert Occupied(m, cs) == Occupied(m, rest);
      }
    }
  }

  /** A merged flag sits on a tile, so no sum counts more flags than tiles. */
  lemma {:induction false} FlagsAtMostTiles(m: Tiles, cs: seq<Cell>)
    ensures SumOver(m, cs, FlagCount) <= SumOver(m, cs, Count)
  {
    if cs != [] {
      FlagsAtMostTiles(m, cs[1..]);
    }
  }

  /** On a board whose keys are cells of the grid, the Count measure is the number of tiles. */
  lemma CountIsSize(m: Tiles)
    requires KeysInBounds(m)
    ensures Sum(m, Count) == |m|
  {
    AllCellsDistinct();
    SumOverCount(m, AllCells());
    forall x | x in m ensures x in Occupied(m, AllCells()) {
      AllCellsCover(x);
    }
    assert Occupied(m, AllCells()) == m.Keys;
  }

  lemma {:induction false} SumOverCountFull(m: Tiles, cs: seq<Cell>)
    ensures SumOver(m, cs, Count) <= |cs|
    ensures SumOver(m, cs, Count) == |cs| ==> forall x :: x in cs ==> x in m
  {
    if cs != [] {
      SumOverCountFull(m, cs[1..]);
      assert cs == [cs[0]] + cs[1..];
    }
  }

  /** A board of N*N tiles on the grid covers every cell. */
  lemma FullCovers(m: Tiles)
    requires KeysInBounds(m) && |m| == N * N
    ensures forall c :: InBounds(c) ==> c in m
  {
    CountIsSize(m);
    SumOverCountFull(m, AllCells());
    forall c | InBounds(c) ensures c in m {
      AllCellsCover(c);
    }
  }

  lemma SizeAtMost(m: Tiles)
    requires KeysInBounds(m)
    ensures |m| <= N * N
  {
    CountIsSize(m);
    SumOverCountFull(m, AllCells());
  }

  /** The empty cells of cs, in the order of cs. */
  function EmptyAmong(m: Tiles, cs: seq<Cell>): (es: seq<Cell>)
    ensures forall i :: 0 <= i < |es| ==> es[i] in cs && es[i] !in m
    ensures forall x :: x in cs && x !in m ==> x in es
    ensures |es| + SumOver(m, cs, Count) == |cs|
  {
    if cs == [] then []
    else
      assert forall x :: x in cs ==> x == cs[0] || x in cs[1..];
      (if cs[0] in m then [] else [cs[0]]) + EmptyAmong(m, cs[1..])
  }

  /** The empty cells of the grid. */
  function Empties(m: Tiles): (es: seq<Cell>)
    requires KeysInBounds(m)
    ensures forall i :: 0 <= i < |es| ==> InBounds(es[i]) && es[i] !in m
    ensures forall c :: InBounds(c) && c !in m ==> c in es
    ensures |es| == N * N - |m|
  {
    var es := EmptyAmong(m, AllCells());
    forall i | 0 <= i < |es| ensures InBounds(es[i]) {
      var k :| 0 <= k < N * N && AllCells()[k] == es[i];
      AllCellsInBounds(k);
    }
    forall c | InBounds(c) && c !in m ensures c in es {
      AllCellsCover(c);
    }
    CountIsSize(m);
    es
  }

  /** A board that holds every cell of the grid has N*N tiles. */
  lemma AllCellsOccupied(m: Tiles)
    requires KeysInBounds(m) && forall c :: InBounds(c) ==> c in m
    ensures |m| == N * N
  {
    forall x | x in AllCells() ensures x in m {
      var k :| 0 <= k < N * N && AllCells()[k] == x;
      AllCellsInBounds(k);
    }
    EmptyAmongNone(m, AllCells());
    assert |Empties(m)| == 0;
  }

  lemma {:induction false} EmptyAmongNone(m: Tiles, cs: seq<Cell>)
    requires forall x :: x in cs ==> x in m
    ensures EmptyAmong(m, cs) == []
  {
    if cs != [] {
      assert forall x :: x in cs[1..] ==> x in cs;
      EmptyAmongNone(m, cs[1..]);
    }
  }
}
