/** The game board: a 40 x 4 grid stored flat, with wrap-around column addressing. */
module Grid {

  const GridWidth := 40
  const GridHeight := 4
  const GridSize := GridWidth * GridHeight

  /** A cell holds nothing (`undefined` or `null` in snake.js), a snake segment or the food. */
  datatype Cell = Empty | Snake | Food

  datatype Pos = Pos(x: int, y: int)

  /** `x % GRID_WIDTH` as JavaScript evaluates it: the remainder of truncating
      division, which takes the sign of the dividend (Dafny's `%` is Euclidean). */
  function JsRemWidth(x: int): (r: int)
    ensures -GridWidth < r < GridWidth
    ensures x >= 0 ==> r >= 0
    ensures x <= 0 ==> r <= 0
    ensures (x - r) % GridWidth == 0
  {
    if x >= 0 then x % GridWidth else -((-x) % GridWidth)
  }

  /** The column `cellAt` and `setCellAt` use: the truncating remainder by 40, moved up by 40
      when it is negative. */
  function NormColumn(x: int): (c: int)
    ensures 0 <= c < GridWidth
    ensures c == x % GridWidth
  {
    var m := JsRemWidth(x);
    if m < 0 then m + GridWidth else m
  }

  /** The flat index that `cellAt` and `setCellAt` use for (x, y); y is not normalised. */
  function Index(x: int, y: int): (i: int)
    ensures 0 <= y < GridHeight <==> 0 <= i < GridSize
    ensures 0 <= y < GridHeight ==> i % GridWidth == x % GridWidth && i / GridWidth == y
  {
    NormColumn(x) + GridWidth * y
  }

  /** `cellAt`: reading outside the array gives `undefined`, which is an empty cell. */
  function CellAt(g: seq<Cell>, x: int, y: int): (c: Cell)
    requires |g| == GridSize
    ensures 0 <= y < GridHeight ==> c == g[x % GridWidth + GridWidth * y]
    ensures !(0 <= y < GridHeight) ==> c == Empty
  {
    var i := Index(x, y);
    if 0 <= i < |g| then g[i] else Empty
  }

  /** `bitAt`: 1 for an occupied cell (snake or food), 0 for an empty one. */
  function BitAt(g: seq<Cell>, x: int, y: int): (b: int)
    requires |g| == GridSize
    ensures b == 0 || b == 1
    ensures b == 1 <==> CellAt(g, x, y) == Snake || CellAt(g, x, y) == Food
  {
    if CellAt(g, x, y) != Empty then 1 else 0
  }

  predicate InBounds(p: Pos) {
    0 <= p.x < GridWidth && 0 <= p.y < GridHeight
  }

  /** The flat index of an in-bounds position. */
  function IndexOf(p: Pos): int {
    p.x + GridWidth * p.y
  }

  /** The position stored at flat index i. */
  function PosOf(i: int): Pos {
    Pos(i % GridWidth, i / GridWidth)
  }

  lemma IndexOfPosOf(i: int)
    requires 0 <= i < GridSize
    ensures InBounds(PosOf(i)) && IndexOf(PosOf(i)) == i
  {
  }

  lemma PosOfIndexOf(p: Pos)
    requires InBounds(p)
    ensures 0 <= IndexOf(p) < GridSize && PosOf(IndexOf(p)) == p
    ensures Index(p.x, p.y) == IndexOf(p)
  {
  }

  /** The number of cells of g holding c. */
  function Count(g: seq<Cell>, c: Cell): (n: nat)
    ensures n <= |g|
  {
    if g == [] then 0 else Count(g[..|g| - 1], c) + (if g[|g| - 1] == c then 1 else 0)
  }

  /** Overwriting one cell changes the count of each marker by at most the old and the new value. */
  lemma {:induction false} CountUpdate(g: seq<Cell>, i: int, v: Cell, c: Cell)
    requires 0 <= i < |g|
    ensures Count(g[i := v], c) == Count(g, c) - (if g[i] == c then 1 else 0) + (if v == c then 1 else 0)
  {
    var n := |g| - 1;
    if i == n {
      assert g[i := v][..n] == g[..n];
    } else {
      assert g[i := v][..n] == g[..n][i := v];
      CountUpdate(g[..n], i, v, c);
    }
  }

  lemma {:induction false} CountPositive(g: seq<Cell>, i: int, c: Cell)
    requires 0 <= i < |g| && g[i] == c
    ensures Count(g, c) >= 1
  {
    var n := |g| - 1;
    if i < n {
      CountPositive(g[..n], i, c);
    }
  }

  lemma {:induction false} CountAbsent(g: seq<Cell>, c: Cell)
    requires forall i :: 0 <= i < |g| ==> g[i] != c
    ensures Count(g, c) == 0
  {
    if g != [] {
      CountAbsent(g[..|g| - 1], c);
    }
  }

  /** Two distinct cells that do not hold c leave room for at most |g| - 2 of them. */
  lemma {:induction false} CountTwoOthers(g: seq<Cell>, a: int, b: int, c: Cell)
    requires 0 <= a < b < |g| && g[a] != c && g[b] != c
    ensures Count(g, c) <= |g| - 2
  {
    var n := |g| - 1;
    if b < n {
      CountTwoOthers(g[..n], a, b, c);
    } else {
      assert g[..n][a] != c;
      CountAtMost(g[..n], a, c);
    }
  }

  lemma {:induction false} CountAtMost(g: seq<Cell>, a: int, c: Cell)
    requires 0 <= a < |g| && g[a] != c
    ensures Count(g, c) <= |g| - 1
  {
    var n := |g| - 1;
    if a < n {
      CountAtMost(g[..n], a, c);
    }
  }
}
