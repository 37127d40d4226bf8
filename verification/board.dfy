/** The sliding-puzzle board of princeton_algs_1/mystic_square_puzzle/Board.java: an
    immutable n-by-n grid of tiles, 0 being the blank, whose goal state has tile
    `n * i + j + 1` at row `i`, column `j`. The board computes its Hamming distance once,
    on construction, and its Manhattan distance on demand; neighbours and the twin are
    new boards built from deep copies of the grid.

    The grid is an `array2<int>`; `Grid` gives its contents as a sequence of rows, and
    the distances and moves are specified as functions of that sequence. */
module Board {

  /** Java's `/` on `int`, which truncates towards zero. */
  function JavaDiv(a: int, d: int): int
    requires d > 0
  {
    if a >= 0 then a / d else -((-a) / d)
  }

  /** Java's `%` on `int`: the remainder takes the sign of the dividend. */
  function JavaRem(a: int, d: int): int
    requires d > 0
  {
    if a >= 0 then a % d else -((-a) % d)
  }

  /** Java's division and remainder recombine to the dividend. */
  lemma JavaDivRem(a: int, d: int)
    requires d > 0
    ensures JavaDiv(a, d) * d + JavaRem(a, d) == a
  {
    if a < 0 {
      assert (-a) / d * d + (-a) % d == -a;
    }
  }

  function Abs(x: int): int {
    if x < 0 then -x else x
  }

  /** The tile that belongs at row `i`, column `j` of the goal board. */
  function GoalTile(n: int, i: int, j: int): int {
    j + n * i + 1
  }

  ghost predicate Square(g: seq<seq<int>>, n: int) {
    |g| == n && forall i :: 0 <= i < n ==> |g[i]| == n
  }

  /** A non-blank tile away from its goal cell. */
  predicate Misplaced(n: int, i: int, j: int, v: int) {
    v != GoalTile(n, i, j) && v != 0
  }

  /** The rows and columns tile `v` is away from its goal cell; the blank counts 0. */
  function Distance(n: int, i: int, j: int, v: int): int
    requires n > 0
  {
    if v == 0 then 0 else Abs(i - JavaDiv(v - 1, n)) + Abs(j - JavaRem(v - 1, n))
  }

  /** The number of misplaced tiles among the first `j` cells of row `i`. */
  function RowHamming(g: seq<seq<int>>, n: int, i: int, j: int): nat
    requires Square(g, n) && 0 <= i < n && 0 <= j <= n
  {
    if j == 0 then 0 else RowHamming(g, n, i, j - 1) + (if Misplaced(n, i, j - 1, g[i][j - 1]) then 1 else 0)
  }

  /** The number of misplaced tiles in the first `i` rows. */
  function HammingRows(g: seq<seq<int>>, n: int, i: int): nat
    requires Square(g, n) && 0 <= i <= n
  {
    if i == 0 then 0 else HammingRows(g, n, i - 1) + RowHamming(g, n, i - 1, n)
  }

  /** The sum of the distances of the first `j` tiles of row `i`. */
  function RowManhattan(g: seq<seq<int>>, n: int, i: int, j: int): int
    requires Square(g, n) && 0 <= i < n && 0 <= j <= n
  {
    if j == 0 then 0 else RowManhattan(g, n, i, j - 1) + Distance(n, i, j - 1, g[i][j - 1])
  }

  /** The sum of the distances of the tiles in the first `i` rows. */
  function ManhattanRows(g: seq<seq<int>>, n: int, i: int): int
    requires Square(g, n) && 0 <= i <= n
  {
    if i == 0 then 0 else ManhattanRows(g, n, i - 1) + RowManhattan(g, n, i - 1, n)
  }

  /** Every tile of the first `j` cells of row `i` is the blank or in its goal cell. */
  ghost predicate RowInPlace(g: seq<seq<int>>, n: int, i: int, j: int)
    requires Square(g, n) && 0 <= i < n && 0 <= j <= n
  {
    forall c :: 0 <= c < j ==> !Misplaced(n, i, c, g[i][c])
  }

  lemma {:induction false} RowHammingZero(g: seq<seq<int>>, n: int, i: int, j: int)
    requires Square(g, n) && 0 <= i < n && 0 <= j <= n
    ensures RowHamming(g, n, i, j) == 0 <==> RowInPlace(g, n, i, j)
  {
    if j > 0 {
      RowHammingZero(g, n, i, j - 1);
    }
  }

  /** A Hamming distance of zero means every tile is the blank or in its goal cell:
      this is isGoal. */
  lemma {:induction false} HammingZero(g: seq<seq<int>>, n: int, i: int)
    requires Square(g, n) && 0 <= i <= n
    ensures HammingRows(g, n, i) == 0 <==> forall r :: 0 <= r < i ==> RowInPlace(g, n, r, n)
  {
    if i > 0 {
      HammingZero(g, n, i - 1);
      RowHammingZero(g, n, i - 1, n);
    }
  }

  /** A misplaced tile is at least one row or column away from its goal cell. */
  lemma MisplacedMoves(n: int, i: int, j: int, v: int)
    requires n > 0 && 0 <= j < n
    ensures Misplaced(n, i, j, v) ==> Distance(n, i, j, v) >= 1
  {
    if Misplaced(n, i, j, v) && Distance(n, i, j, v) == 0 {
      JavaDivRem(v - 1, n);
    }
  }

  lemma {:induction false} RowHammingBelowManhattan(g: seq<seq<int>>, n: int, i: int, j: int)
    requires Square(g, n) && n > 0 && 0 <= i < n && 0 <= j <= n
    ensures RowHamming(g, n, i, j) <= RowManhattan(g, n, i, j)
  {
    if j > 0 {
      RowHammingBelowManhattan(g, n, i, j - 1);
      MisplacedMoves(n, i, j - 1, g[i][j - 1]);
    }
  }

  /** The Hamming distance never exceeds the Manhattan distance: both are admissible
      estimates, the Manhattan one the sharper. */
  lemma {:induction false} HammingBelowManhattan(g: seq<seq<int>>, n: int, i: int)
    requires Square(g, n) && n > 0 && 0 <= i <= n
    ensures HammingRows(g, n, i) <= ManhattanRows(g, n, i)
  {
    if i > 0 {
      HammingBelowManhattan(g, n, i - 1);
      RowHammingBelowManhattan(g, n, i - 1, n);
    }
  }

  /** The contents of a grid, row by row. */
  ghost function Grid(t: array2<int>): (g: seq<seq<int>>)
    reads t
    ensures |g| == t.Length0 && forall i :: 0 <= i < |g| ==> |g[i]| == t.Length1
  {
    seq(t.Length0, i requires 0 <= i < t.Length0 reads t => seq(t.Length1, j requires 0 <= j < t.Length1 reads t => t[i, j]))
  }

  /** The grid with the cell at row `r`, column `c` set to `v`. */
  function SetCell(g: seq<seq<int>>, r: int, c: int, v: int): seq<seq<int>>
    requires 0 <= r < |g| && 0 <= c < |g[r]|
  {
    g[r := g[r][c := v]]
  }

  /** The grid after the tile at (`ti`, `tj`) slides into the blank at (`bi`, `bj`). */
  function Slide(g: seq<seq<int>>, bi: int, bj: int, ti: int, tj: int): (h: seq<seq<int>>)
    requires 0 <= bi < |g| && 0 <= bj < |g[bi]| && 0 <= ti < |g| && 0 <= tj < |g[ti]|
    ensures |h| == |g| && forall r :: 0 <= r < |g| ==> |h[r]| == |g[r]|
  {
    SetCell(SetCell(g, bi, bj, g[ti][tj]), ti, tj, 0)
  }

  /** Sliding the tile back undoes a move. */
  lemma SlideBack(g: seq<seq<int>>, bi: int, bj: int, ti: int, tj: int)
    requires 0 <= bi < |g| && 0 <= bj < |g[bi]| && 0 <= ti < |g| && 0 <= tj < |g[ti]|
    requires g[bi][bj] == 0 && (bi, bj) != (ti, tj)
    ensures Slide(Slide(g, bi, bj, ti, tj), ti, tj, bi, bj) == g
  {
    var h := Slide(g, bi, bj, ti, tj);
    var k := Slide(h, ti, tj, bi, bj);
    assert h[ti][tj] == 0 && h[bi][bj] == g[ti][tj];
    forall r | 0 <= r < |g| ensures k[r] == g[r] {
      assert |k[r]| == |g[r]|;
      forall c | 0 <= c < |g[r]| ensures k[r][c] == g[r][c] {
      }
    }
  }

  /** The one-element sequence of `t` when `c` holds, otherwise the empty one. */
  function Step(c: bool, t: (int, int)): seq<(int, int)> {
    if c then [t] else []
  }

  /** The cells the blank at (`bi`, `bj`) can move to, in the order neighbors tries
      them: up, down, left, right. */
  function Moves(n: int, bi: int, bj: int): (m: seq<(int, int)>)
    ensures forall k :: 0 <= k < |m| ==> Abs(m[k].0 - bi) + Abs(m[k].1 - bj) == 1
    ensures 0 <= bi < n && 0 <= bj < n ==>
              forall k :: 0 <= k < |m| ==> 0 <= m[k].0 < n && 0 <= m[k].1 < n
  {
    [] + Step(bi > 0, (bi - 1, bj)) + Step(bi + 1 < n, (bi + 1, bj)) +
    Step(bj > 0, (bi, bj - 1)) + Step(bj + 1 < n, (bi, bj + 1))
  }

  /** Every in-bounds cell next to the blank is a move, so a blank has between two and
      four moves on a board of two rows or more. */
  lemma MovesComplete(n: int, bi: int, bj: int, ti: int, tj: int)
    requires 0 <= bi < n && 0 <= bj < n && 0 <= ti < n && 0 <= tj < n
    requires Abs(ti - bi) + Abs(tj - bj) == 1
    ensures (ti, tj) in Moves(n, bi, bj)
    ensures n >= 2 ==> 2 <= |Moves(n, bi, bj)| <= 4
  {
  }

  /** Some cell holds the blank. */
  ghost predicate HasBlank(g: seq<seq<int>>, n: int)
    requires Square(g, n)
  {
    exists i, j :: 0 <= i < n && 0 <= j < n && g[i][j] == 0
  }

  /** (`bi`, `bj`) is where neighbors' search leaves the blank: its inner loop breaks
      at the first blank of a row but the outer loop goes on, so the result is the
      first blank of the last row holding one, or (0, 0) when there is none. */
  ghost predicate BlankSearched(g: seq<seq<int>>, n: int, bi: int, bj: int)
    requires Square(g, n)
  {
    if HasBlank(g, n) then
      0 <= bi < n && 0 <= bj < n && g[bi][bj] == 0 &&
      (forall j :: 0 <= j < bj ==> g[bi][j] != 0) &&
      (forall i, j :: bi < i < n && 0 <= j < n ==> g[i][j] != 0)
    else
      bi == 0 && bj == 0
  }

  /** deepCloneTiles: a fresh `n`-by-`n` grid with the same tiles. */
  method DeepCloneTiles(n: int, someTiles: array2<int>) returns (t: array2<int>)
    requires 0 <= n && someTiles.Length0 == n && someTiles.Length1 == n
    ensures fresh(t) && t.Length0 == n && t.Length1 == n && Grid(t) == Grid(someTiles)
  {
    t := new int[n, n];
    for i := 0 to n
      invariant forall r, c :: 0 <= r < i && 0 <= c < n ==> t[r, c] == someTiles[r, c]
    {
      for j := 0 to n
        invariant forall r, c :: 0 <= r < i && 0 <= c < n ==> t[r, c] == someTiles[r, c]
        invariant forall c :: 0 <= c < j ==> t[i, c] == someTiles[i, c]
      {
        t[i, j] := someTiles[i, j];
      }
    }
    assert forall r :: 0 <= r < n ==> Grid(t)[r] == Grid(someTiles)[r];
  }

  class Board {
    const dimension: int
    const tiles: array2<int>
    const isGoal: bool
    var hamming: int

    ghost predicate Valid()
      reads this, tiles
    {
      0 <= dimension && tiles.Length0 == dimension && tiles.Length1 == dimension &&
      hamming == HammingRows(Grid(tiles), dimension, dimension) && (isGoal <==> hamming == 0)
    }

    /** The constructor: a deep copy of `tiles` and its Hamming distance, counted row by
        row; the board is the goal when that distance is zero. */
    constructor(tiles: array2<int>)
      requires tiles.Length0 == tiles.Length1
      ensures Valid() && dimension == tiles.Length0 && Grid(this.tiles) == Grid(tiles)
      ensures fresh(this.tiles)
    {
      var n := tiles.Length0;
      var t := DeepCloneTiles(n, tiles);
      ghost var g := Grid(t);
      var h := 0;
      for i := 0 to n
        invariant h == HammingRows(g, n, i)
      {
        for j := 0 to n
          invariant h == HammingRows(g, n, i) + RowHamming(g, n, i, j)
        {
          assert t[i, j] == g[i][j];
          if t[i, j] != j + n * i + 1 && t[i, j] != 0 {
            h := h + 1;
          }
        }
      }
      dimension := n;
      this.tiles := t;
      hamming := h;
      isGoal := h == 0;
    }

    method Dimension() returns (n: int)
      requires Valid()
      ensures n == |Grid(tiles)|
    {
      n := dimension;
    }

    /** hamming: the number of tiles out of place, as counted on construction. */
    method Hamming() returns (h: int)
      requires Valid()
      ensures h == HammingRows(Grid(tiles), dimension, dimension)
    {
      h := hamming;
    }

    /** isGoal: every tile is the blank or in its goal cell. */
    method IsGoal() returns (b: bool)
      requires Valid()
      ensures b <==> forall r :: 0 <= r < dimension ==> RowInPlace(Grid(tiles), dimension, r, dimension)
    {
      HammingZero(Grid(tiles), dimension, dimension);
      b := isGoal;
    }

    /** manhattan: the sum over the non-blank tiles of the rows and columns between each
        tile and its goal cell. */
    method Manhattan() returns (m: int)
      requires Valid()
      ensures m == ManhattanRows(Grid(tiles), dimension, dimension)
      ensures hamming <= m
    {
      ghost var g := Grid(tiles);
      var n := dimension;
      m := 0;
      for i := 0 to n
        invariant m == ManhattanRows(g, n, i)
      {
        for j := 0 to n
          invariant m == ManhattanRows(g, n, i) + RowManhattan(g, n, i, j)
        {
          assert tiles[i, j] == g[i][j];
          if tiles[i, j] != 0 {
            m := m + Abs(i - JavaDiv(tiles[i, j] - 1, n)) + Abs(j - JavaRem(tiles[i, j] - 1, n));
          }
        }
      }
      if n > 0 {
        HammingBelowManhattan(g, n, n);
      }
    }

    /** equals: the same object, or another board of the same dimension and tiles;
        `null` is never equal. */
    method Equals(y: Board?) returns (b: bool)
      requires Valid() && (y != null ==> y.Valid())
      ensures b <==> y != null && y.dimension == dimension && Grid(y.tiles) == Grid(tiles)
    {
      if this == y {
        return true;
      }
      if y == null {
        return false;
      }
      var other := y;
      if other.dimension != dimension {
        return false;
      }
      for i := 0 to dimension
        invariant forall r, c :: 0 <= r < i && 0 <= c < dimension ==> tiles[r, c] == other.tiles[r, c]
      {
        for j := 0 to dimension
          invariant forall r, c :: 0 <= r < i && 0 <= c < dimension ==> tiles[r, c] == other.tiles[r, c]
          invariant forall c :: 0 <= c < j ==> tiles[i, c] == other.tiles[i, c]
        {
          if tiles[i, j] != other.tiles[i, j] {
            assert Grid(y.tiles)[i][j] != Grid(tiles)[i][j];
            return false;
          }
        }
      }
      assert forall r :: 0 <= r < dimension ==> Grid(y.tiles)[r] == Grid(tiles)[r];
      return true;
    }

    /** The blank search at the head of neighbors. */
    method FindBlank() returns (bi: int, bj: int)
      requires Valid()
      ensures BlankSearched(Grid(tiles), dimension, bi, bj)
    {
      ghost var g := Grid(tiles);
      ghost var found := false;
      bi, bj := 0, 0;
      for i := 0 to dimension
        invariant found ==> 0 <= bi < i && 0 <= bj < dimension && g[bi][bj] == 0
        invariant found ==> forall c :: 0 <= c < bj ==> g[bi][c] != 0
        invariant found ==> forall r, c :: bi < r < i && 0 <= c < dimension ==> g[r][c] != 0
        invariant !found ==> bi == 0 && bj == 0 && forall r, c :: 0 <= r < i && 0 <= c < dimension ==> g[r][c] != 0
      {
        for j := 0 to dimension
          invariant forall c :: 0 <= c < j ==> g[i][c] != 0
        {
          assert tiles[i, j] == g[i][j];
          if tiles[i, j] == 0 {
            bi, bj := i, j;
            found := true;
            break;
          }
        }
      }
    }

    /** neighbors: one new board for each cell next to the blank, up, down, left and
        right in that order, with that cell's tile slid into the blank. The ghost
        results name the blank cell the search settled on. */
    method Neighbors() returns (neighbors: seq<Board>, ghost bi: int, ghost bj: int)
      requires Valid()
      ensures BlankSearched(Grid(tiles), dimension, bi, bj)
      ensures AllSlid(neighbors, Grid(tiles), bi, bj, Moves(dimension, bi, bj))
    {
      var blankRowIdx, blankColIdx := FindBlank();
      bi, bj := blankRowIdx, blankColIdx;
      ghost var g := Grid(tiles);
      ghost var up, down := Step(bi > 0, (bi - 1, bj)), Step(bi + 1 < dimension, (bi + 1, bj));
      ghost var left, right := Step(bj > 0, (bi, bj - 1)), Step(bj + 1 < dimension, (bi, bj + 1));
      ghost var moves: seq<(int, int)> := [];
      neighbors := [];
      if blankRowIdx > 0 {
        neighbors, moves := AddNeighbour(neighbors, moves, blankRowIdx, blankColIdx, blankRowIdx - 1, blankColIdx);
      }
      assert moves == [] + up;
      if blankRowIdx + 1 < dimension {
        neighbors, moves := AddNeighbour(neighbors, moves, blankRowIdx, blankColIdx, blankRowIdx + 1, blankColIdx);
      }
      assert moves == [] + up + down;
      if blankColIdx > 0 {
        neighbors, moves := AddNeighbour(neighbors, moves, blankRowIdx, blankColIdx, blankRowIdx, blankColIdx - 1);
      }
      assert moves == [] + up + down + left;
      if blankColIdx + 1 < dimension {
        neighbors, moves := AddNeighbour(neighbors, moves, blankRowIdx, blankColIdx, blankRowIdx, blankColIdx + 1);
      }
      assert moves == [] + up + down + left + right == Moves(dimension, bi, bj);
    }

    /** One `neighbors.add`: a deep copy with the tile at (`ti`, `tj`) slid into the
        blank at (`bi`, `bj`), appended to `neighbors`. */
    method AddNeighbour(neighbors: seq<Board>, ghost moves: seq<(int, int)>, bi: int, bj: int, ti: int, tj: int)
      returns (ns: seq<Board>, ghost ms: seq<(int, int)>)
      requires Valid() && 0 <= bi < dimension && 0 <= bj < dimension && 0 <= ti < dimension && 0 <= tj < dimension
      requires AllSlid(neighbors, Grid(tiles), bi, bj, moves)
      ensures AllSlid(ns, Grid(tiles), bi, bj, ms) && ms == moves + [(ti, tj)]
      ensures |ns| == |neighbors| + 1 && ns[..|neighbors|] == neighbors
      ensures fresh(ns[|neighbors|]) && fresh(ns[|neighbors|].tiles)
    {
      ghost var g := Grid(tiles);
      var b := NeighbourAt(bi, bj, ti, tj);
      assert Grid(tiles) == g;
      ns, ms := neighbors + [b], moves + [(ti, tj)];
      forall k | 0 <= k < |ns| ensures SlidFrom(ns[k], g, bi, bj, ms[k]) {
        if k < |neighbors| {
          assert old(SlidFrom(neighbors[k], g, bi, bj, moves[k]));
          assert ns[k] == neighbors[k] && ms[k] == moves[k];
        }
      }
    }

    /** A deep copy with the tile at (`ti`, `tj`) slid into the blank at (`bi`,
        `bj`). */
    method NeighbourAt(bi: int, bj: int, ti: int, tj: int) returns (b: Board)
      requires Valid() && 0 <= bi < dimension && 0 <= bj < dimension && 0 <= ti < dimension && 0 <= tj < dimension
      ensures fresh(b) && fresh(b.tiles) && SlidFrom(b, Grid(tiles), bi, bj, (ti, tj))
    {
      ghost var g := Grid(tiles);
      var deepClonedTiles := DeepCloneTiles(dimension, tiles);
      SlideTile(deepClonedTiles, bi, bj, ti, tj);
      assert Grid(tiles) == g;
      b := new Board(deepClonedTiles);
    }

    /** twin: a new board with the two cells TwinCells names exchanged. */
    method Twin() returns (b: Board)
      requires Valid() && dimension >= 2
      ensures b.Valid() && fresh(b) && fresh(b.tiles)
      ensures Grid(b.tiles) == SwapCells(Grid(tiles), TwinCells(Grid(tiles)))
    {
      var deepClonedTiles := DeepCloneTiles(dimension, tiles);
      ghost var g := Grid(deepClonedTiles);
      var i1, j1, i2, j2 := 0, 0, 1, 1;
      if deepClonedTiles[i1, j1] == 0 {
        j1 := j1 + 1;
      } else if deepClonedTiles[i2, j2] == 0 {
        j2 := j2 - 1;
      }
      assert (i1, j1, i2, j2) == TwinCells(g);
      SwapTiles(deepClonedTiles, i1, j1, i2, j2);
      assert Grid(tiles) == g;
      b := new Board(deepClonedTiles);
    }
  }

  /** The two writes of a neighbour: the tile at (`ti`, `tj`) moves into the blank at
      (`bi`, `bj`) and its own cell becomes blank. */
  method SlideTile(t: array2<int>, bi: int, bj: int, ti: int, tj: int)
    modifies t
    requires t.Length0 == t.Length1
    requires 0 <= bi < t.Length0 && 0 <= bj < t.Length1 && 0 <= ti < t.Length0 && 0 <= tj < t.Length1
    ensures Grid(t) == Slide(old(Grid(t)), bi, bj, ti, tj)
  {
    ghost var g := Grid(t);
    t[bi, bj] := t[ti, tj];
    t[ti, tj] := 0;
    assert forall r :: 0 <= r < t.Length0 ==> Grid(t)[r] == Slide(g, bi, bj, ti, tj)[r];
  }

  /** The exchange at the end of twin: the tiles of two cells trade places. */
  method SwapTiles(t: array2<int>, i1: int, j1: int, i2: int, j2: int)
    modifies t
    requires t.Length0 == t.Length1
    requires 0 <= i1 < t.Length0 && 0 <= j1 < t.Length1 && 0 <= i2 < t.Length0 && 0 <= j2 < t.Length1
    ensures Grid(t) == SwapCells(old(Grid(t)), (i1, j1, i2, j2))
  {
    ghost var g := Grid(t);
    var temp := t[i1, j1];
    t[i1, j1] := t[i2, j2];
    t[i2, j2] := temp;
    assert forall r :: 0 <= r < t.Length0 ==> Grid(t)[r] == SwapCells(g, (i1, j1, i2, j2))[r];
  }

  /** `b` is a valid board holding grid `g` after the tile at `t` slid into the blank
      at (`bi`, `bj`). */
  ghost predicate SlidFrom(b: Board, g: seq<seq<int>>, bi: int, bj: int, t: (int, int))
    reads b, b.tiles
  {
    b.Valid() && 0 <= bi < |g| && 0 <= bj < |g[bi]| && 0 <= t.0 < |g| && 0 <= t.1 < |g[t.0]| &&
    Grid(b.tiles) == Slide(g, bi, bj, t.0, t.1)
  }

  /** Board `k` of `boards` is grid `g` after the tile at `moves[k]` slid into the
      blank at (`bi`, `bj`). */
  ghost predicate AllSlid(boards: seq<Board>, g: seq<seq<int>>, bi: int, bj: int, moves: seq<(int, int)>)
    reads set b | b in boards, set b | b in boards :: b.tiles
  {
    |boards| == |moves| &&
    forall k {:trigger SlidFrom(boards[k], g, bi, bj, moves[k])} :: 0 <= k < |boards| ==> SlidFrom(boards[k], g, bi, bj, moves[k])
  }

  /** The two cells twin exchanges: (0, 1) and (1, 1) when the blank is at (0, 0),
      (0, 0) and (1, 0) when it is at (1, 1), otherwise (0, 0) and (1, 1). */
  function TwinCells(g: seq<seq<int>>): (cells: (int, int, int, int))
    requires |g| >= 2 && |g[0]| >= 2 && |g[1]| >= 2
  {
    if g[0][0] == 0 then (0, 1, 1, 1) else if g[1][1] == 0 then (0, 0, 1, 0) else (0, 0, 1, 1)
  }

  /** The grid with the tiles of two cells exchanged. */
  function SwapCells(g: seq<seq<int>>, cells: (int, int, int, int)): seq<seq<int>>
    requires 0 <= cells.0 < |g| && 0 <= cells.1 < |g[cells.0]|
    requires 0 <= cells.2 < |g| && 0 <= cells.3 < |g[cells.2]|
  {
    SetCell(SetCell(g, cells.0, cells.1, g[cells.2][cells.3]), cells.2, cells.3, g[cells.0][cells.1])
  }

  /** The number of blanks in the top-left two-by-two square. */
  function CornerBlanks(g: seq<seq<int>>): int
    requires |g| >= 2 && |g[0]| >= 2 && |g[1]| >= 2
  {
    (if g[0][0] == 0 then 1 else 0) + (if g[0][1] == 0 then 1 else 0) +
    (if g[1][0] == 0 then 1 else 0) + (if g[1][1] == 0 then 1 else 0)
  }

  /** twin exchanges two different cells of the top-left square, and when that square
      holds at most one blank, both of them hold tiles, so twin only ever swaps tiles
      and never moves the blank. */
  lemma TwinSwapsTiles(g: seq<seq<int>>)
    requires |g| >= 2 && |g[0]| >= 2 && |g[1]| >= 2
    ensures var c := TwinCells(g);
            (c.0, c.1) != (c.2, c.3) && c.0 < 2 && c.1 < 2 && c.2 < 2 && c.3 < 2
    ensures var c := TwinCells(g);
            CornerBlanks(g) <= 1 ==> g[c.0][c.1] != 0 && g[c.2][c.3] != 0
    ensures var c := TwinCells(g);
            SwapCells(SwapCells(g, c), c) == g
  {
    var c := TwinCells(g);
    var h := SwapCells(g, c);
    var k := SwapCells(h, c);
    forall r | 0 <= r < |g| ensures k[r] == g[r] {
      assert |k[r]| == |g[r]|;
    }
  }
}
