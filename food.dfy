/** Where `dropFood` puts the food: the first of up to 320 random probes that does
    not hit the snake, or else the (k+1)-th non-snake cell in index order, where k is
    the fallback draw. The random draws are inputs, so the placement is a function. */
module Food {
  import opened Grid
  import opened Wrappers

  const MaxAttempts := GridSize * 2

  /** The random probe indices, one per attempt, each a uniformly drawn whole number below 160. */
  predicate ValidProbes(probes: seq<int>) {
    |probes| == MaxAttempts && forall j :: 0 <= j < |probes| ==> 0 <= probes[j] < GridSize
  }

  /** k is a value the fallback draw can take when the snake has len segments: a whole number
      below the number of cells the snake leaves free. */
  predicate DrawFits(k: nat, len: int) {
    len < GridSize ==> k < GridSize - len
  }

  /** The number of cells that do not hold a snake segment. */
  function FreeCount(g: seq<Cell>): nat {
    |g| - Count(g, Snake)
  }

  /** The number of probes that hit the snake before the first one that does not. */
  function FirstFreeAttempt(g: seq<Cell>, probes: seq<int>): (a: nat)
    requires forall j :: 0 <= j < |probes| ==> 0 <= probes[j] < |g|
    ensures a <= |probes|
    ensures forall j :: 0 <= j < a ==> g[probes[j]] == Snake
    ensures a < |probes| ==> g[probes[a]] != Snake
  {
    if probes == [] || g[probes[0]] != Snake then 0 else 1 + FirstFreeAttempt(g, probes[1..])
  }

  /** The (k+1)-th non-snake cell: it is free and exactly k free cells come before it. */
  function NthFree(g: seq<Cell>, k: nat): (j: int)
    requires k < FreeCount(g)
    ensures 0 <= j < |g| && g[j] != Snake && FreeCount(g[..j]) == k
    decreases |g|
  {
    var n := |g| - 1;
    if k < FreeCount(g[..n]) then
      var j := NthFree(g[..n], k);
      assert g[..n][..j] == g[..j];
      j
    else
      n
  }

  /** Past a free cell the number of free cells before an index strictly grows. */
  lemma {:induction false} FreeCountGrows(g: seq<Cell>, a: int, b: int)
    requires 0 <= a < b <= |g| && g[a] != Snake
    ensures FreeCount(g[..a]) < FreeCount(g[..b])
  {
    assert g[..b][..b - 1] == g[..b - 1];
    if b == a + 1 {
      assert g[..b][b - 1] == g[a];
    } else {
      FreeCountGrows(g, a, b - 1);
    }
  }

  /** The characterisation in NthFree's postcondition picks out one cell only. */
  lemma NthFreeUnique(g: seq<Cell>, k: nat, j: int)
    requires 0 <= j < |g| && g[j] != Snake && FreeCount(g[..j]) == k
    ensures k < FreeCount(g) && NthFree(g, k) == j
  {
    FreeCountGrows(g, j, |g|);
    assert g[..|g|] == g;
    var m := NthFree(g, k);
    if m < j {
      FreeCountGrows(g, m, j);
    } else if j < m {
      FreeCountGrows(g, j, m);
    }
  }

  /** The cell `dropFood` turns into food, if any. */
  function FoodSpot(g: seq<Cell>, probes: seq<int>, k: nat): (r: Option<int>)
    requires |g| == GridSize && ValidProbes(probes)
    ensures r.Some? ==> 0 <= r.value < GridSize && g[r.value] != Snake
    ensures r.None? <==> FirstFreeAttempt(g, probes) == |probes| && k >= FreeCount(g)
  {
    var a := FirstFreeAttempt(g, probes);
    if a < |probes| then Some(probes[a])
    else if k < FreeCount(g) then Some(NthFree(g, k))
    else None
  }

  /** The grid after `dropFood` when the snake has len segments. */
  function Dropped(g: seq<Cell>, len: int, probes: seq<int>, k: nat): (r: seq<Cell>)
    requires |g| == GridSize && ValidProbes(probes)
    ensures |r| == GridSize
    ensures forall i :: 0 <= i < GridSize ==> (r[i] == Snake <==> g[i] == Snake)
    ensures len == GridSize ==> r == g
  {
    if GridSize - len == 0 then g
    else match FoodSpot(g, probes, k)
      case Some(j) => g[j := Food]
      case None => g
  }

  /** When the grid holds exactly len snake cells and len < 160, a draw in range always
      places food, on exactly one non-snake cell, and leaves the snake count alone. */
  lemma DropPlaces(g: seq<Cell>, len: int, probes: seq<int>, k: nat)
    requires |g| == GridSize && ValidProbes(probes)
    requires Count(g, Snake) == len < GridSize && DrawFits(k, len)
    ensures FoodSpot(g, probes, k).Some?
    ensures Dropped(g, len, probes, k) == g[FoodSpot(g, probes, k).value := Food]
    ensures Count(Dropped(g, len, probes, k), Snake) == len
    ensures Count(g, Food) == 0 ==> Count(Dropped(g, len, probes, k), Food) == 1
  {
    var j := FoodSpot(g, probes, k).value;
    CountUpdate(g, j, Food, Snake);
    CountUpdate(g, j, Food, Food);
    if Count(g, Food) == 0 && g[j] == Food {
      CountPositive(g, j, Food);
    }
  }

  /** With all probes on the snake, the fallback puts food on the (k+1)-th free cell. */
  lemma FallbackPlacesNth(g: seq<Cell>, len: int, probes: seq<int>, k: nat)
    requires |g| == GridSize && ValidProbes(probes)
    requires Count(g, Snake) == len < GridSize && DrawFits(k, len)
    requires forall j :: 0 <= j < |probes| ==> g[probes[j]] == Snake
    ensures var j := NthFree(g, k);
      Dropped(g, len, probes, k) == g[j := Food] && FreeCount(g[..j]) == k
  {
    assert FirstFreeAttempt(g, probes) == |probes|;
  }

  /** With one free cell left, that cell gets the food whatever the draws are. */
  lemma LastFreeCellGetsFood(g: seq<Cell>, probes: seq<int>, k: nat, j: int)
    requires |g| == GridSize && ValidProbes(probes)
    requires Count(g, Snake) == GridSize - 1 && DrawFits(k, GridSize - 1)
    requires 0 <= j < GridSize && g[j] != Snake
    ensures Dropped(g, GridSize - 1, probes, k) == g[j := Food]
  {
    DropPlaces(g, GridSize - 1, probes, k);
    var m := FoodSpot(g, probes, k).value;
    if m < j {
      CountTwoOthers(g, m, j, Snake);
    } else if j < m {
      CountTwoOthers(g, j, m, Snake);
    }
  }
}
