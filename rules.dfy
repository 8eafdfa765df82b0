/** The rules of one tick, stated on values: directions and the reversal guard, how
    a target cell is classified, the invariants that tie the snake to the grid, and
    the score. The game object in module Engine is proved against these. */
module Rules {
  import opened Grid
  import opened Food

  const InitialLength := 4
  /** The row the snake starts on. */
  const StartRow := 2

  datatype Dir = Up | Down | Left | Right

  /** The column step of a direction: zero for the vertical ones, one to the left or right otherwise. */
  function DX(d: Dir): (r: int)
    ensures -1 <= r <= 1
    ensures r == 0 <==> d == Up || d == Down
    ensures r == -1 <==> d == Left
  {
    match d
    case Left => -1
    case Right => 1
    case _ => 0
  }

  /** The row step of a direction: zero for the horizontal ones; up is towards row 0. */
  function DY(d: Dir): (r: int)
    ensures -1 <= r <= 1
    ensures r == 0 <==> d == Left || d == Right
    ensures r == -1 <==> d == Up
  {
    match d
    case Up => -1
    case Down => 1
    case _ => 0
  }

  /** The opposite direction. */
  function Flip(d: Dir): Dir {
    match d
    case Up => Down
    case Down => Up
    case Left => Right
    case Right => Left
  }

  /** The reversal test of `changeDirection`: the two unit vectors sum to zero. */
  predicate Reverses(a: Dir, b: Dir)
    ensures Reverses(a, b) <==> b == Flip(a)
  {
    DX(a) + DX(b) == 0 && DY(a) + DY(b) == 0
  }

  /** The cell one step from p in direction d: always an orthogonal neighbour of p. */
  function Step(p: Pos, d: Dir): (q: Pos)
    ensures Adjacent(p, q)
  {
    Pos(p.x + DX(d), p.y + DY(d))
  }

  predicate Adjacent(p: Pos, q: Pos) {
    (p.x == q.x && (p.y - q.y == 1 || q.y - p.y == 1)) ||
    (p.y == q.y && (p.x - q.x == 1 || q.x - p.x == 1))
  }

  /** A step followed by a step the opposite way returns to the start. */
  lemma StepBack(p: Pos, d: Dir)
    ensures Step(Step(p, d), Flip(d)) == p
  {
  }

  /** The direction a tick moves in: the oldest queued request, which sits at the back
      of the queue because requests are added at the front; else the current one. */
  function NextDirection(cur: Dir, queue: seq<Dir>): (d: Dir)
    ensures d == cur || d in queue
  {
    if |queue| > 0 then queue[|queue| - 1] else cur
  }

  /** What a new request is compared with: the newest queued request, else the current direction. */
  function LastRequested(cur: Dir, queue: seq<Dir>): (d: Dir)
    ensures d == cur || d in queue
  {
    if |queue| > 0 then queue[0] else cur
  }

  /** A new request goes behind the pending ones: it becomes what the next request is
      compared with, but the next tick still takes the oldest pending request. */
  lemma QueueIsFifo(cur: Dir, queue: seq<Dir>, d: Dir)
    ensures LastRequested(cur, [d] + queue) == d
    ensures NextDirection(cur, [d] + queue) == if queue == [] then d else NextDirection(cur, queue)
  {
  }

  /** Read oldest to newest, the current direction followed by the queue never turns
      straight back: each entry is compared with the one queued before it. */
  predicate ChainOk(cur: Dir, queue: seq<Dir>) {
    forall i :: 0 <= i < |queue| ==> NoTurnBack(cur, queue, i)
  }

  /** Entry i of the queue does not reverse the direction before it. */
  predicate NoTurnBack(cur: Dir, queue: seq<Dir>, i: int)
    requires 0 <= i < |queue|
  {
    !Reverses(queue[i], Before(cur, queue, i))
  }

  /** The direction that was current or queued just before entry i was queued. */
  function Before(cur: Dir, queue: seq<Dir>, i: int): Dir
    requires 0 <= i < |queue|
  {
    if i + 1 < |queue| then queue[i + 1] else cur
  }

  /** Accepting a request that passes the guard keeps the chain free of reversals. */
  lemma ChainEnqueue(cur: Dir, queue: seq<Dir>, d: Dir)
    requires ChainOk(cur, queue) && !Reverses(d, LastRequested(cur, queue))
    ensures ChainOk(cur, [d] + queue)
  {
    var q := [d] + queue;
    forall i | 0 <= i < |q|
      ensures NoTurnBack(cur, q, i)
    {
      if i > 0 {
        assert q[i] == queue[i - 1];
        if i + 1 < |q| {
          assert q[i + 1] == queue[i];
        }
        assert NoTurnBack(cur, queue, i - 1);
      } else {
        assert Before(cur, q, 0) == LastRequested(cur, queue);
      }
    }
  }

  /** Consuming the oldest request makes it current and keeps the chain free of reversals. */
  lemma ChainConsume(cur: Dir, queue: seq<Dir>)
    requires ChainOk(cur, queue) && |queue| > 0
    ensures ChainOk(queue[|queue| - 1], queue[..|queue| - 1])
    ensures !Reverses(NextDirection(cur, queue), cur)
  {
    var n := |queue| - 1;
    assert NoTurnBack(cur, queue, n);
    var q := queue[..n];
    forall i | 0 <= i < |q|
      ensures NoTurnBack(queue[n], q, i)
    {
      assert NoTurnBack(cur, queue, i);
    }
  }

  /** How `updateWorld` classifies the cell the head moves to. */
  datatype Move = Crash | Eat | Advance

  function Last(s: seq<Pos>): Pos
    requires |s| > 0
  {
    s[|s| - 1]
  }

  /** The classification of `updateWorld`: out of bounds, or a snake cell other than the
      tail, ends the episode; a food cell is eaten; anything else is an open move. */
  function Classify(g: seq<Cell>, s: seq<Pos>, p: Pos): (m: Move)
    requires |g| == GridSize && |s| > 0
    ensures m != Crash ==> InBounds(p)
  {
    var tail := Last(s);
    var outOfBounds := p.x < 0 || p.x >= GridWidth || p.y < 0 || p.y >= GridHeight;
    var collidesWithSelf := CellAt(g, p.x, p.y) == Snake && !(p.x == tail.x && p.y == tail.y);
    if outOfBounds || collidesWithSelf then Crash
    else if CellAt(g, p.x, p.y) == Food then Eat
    else Advance
  }

  predicate NoDuplicates(s: seq<Pos>) {
    forall i, j :: 0 <= i < j < |s| ==> s[i] != s[j]
  }

  predicate Contiguous(s: seq<Pos>) {
    forall i :: 0 <= i < |s| - 1 ==> Linked(s, i)
  }

  /** Segment i touches segment i+1. */
  predicate Linked(s: seq<Pos>, i: int)
    requires 0 <= i < |s| - 1
  {
    Adjacent(s[i], s[i + 1])
  }

  /** The snake cells of the grid are exactly the snake's positions. */
  predicate Agrees(g: seq<Cell>, s: seq<Pos>)
    requires |g| == GridSize
  {
    forall i :: 0 <= i < GridSize ==> (g[i] == Snake <==> PosOf(i) in s)
  }

  /** The invariants of the snake body and the grid between ticks. */
  predicate BodyOk(g: seq<Cell>, s: seq<Pos>) {
    && |g| == GridSize
    && InitialLength <= |s| <= GridSize
    && (forall i :: 0 <= i < |s| ==> InBounds(s[i]))
    && NoDuplicates(s)
    && Contiguous(s)
    && Agrees(g, s)
    && Count(g, Snake) == |s|
  }

  /** One food cell while there is room for one, none once the snake fills the grid. */
  predicate FoodOk(g: seq<Cell>, s: seq<Pos>) {
    Count(g, Food) == if |s| < GridSize then 1 else 0
  }

  /** For an in-bounds position, `cellAt` reads the cell at its flat index. */
  lemma CellAtInBounds(g: seq<Cell>, p: Pos)
    requires |g| == GridSize && InBounds(p)
    ensures 0 <= IndexOf(p) < GridSize && CellAt(g, p.x, p.y) == g[IndexOf(p)]
  {
    PosOfIndexOf(p);
  }

  /** The classification in terms of the snake rather than the grid: a move crashes
      exactly when it leaves the grid or runs into a segment other than the tail, and
      eats exactly when the target holds food. Moving onto the tail is never a crash. */
  lemma ClassifyMeaning(g: seq<Cell>, s: seq<Pos>, p: Pos)
    requires BodyOk(g, s)
    ensures Classify(g, s, p) == Crash <==> !InBounds(p) || (p in s && p != Last(s))
    ensures Classify(g, s, p) == Eat <==> InBounds(p) && g[IndexOf(p)] == Food
    ensures InBounds(p) && p == Last(s) ==> Classify(g, s, p) == Advance
  {
    if InBounds(p) {
      CellAtInBounds(g, p);
      PosOfIndexOf(p);
      assert g[IndexOf(p)] == Snake <==> p in s;
    }
  }

  /** The head never moves back onto the segment behind it: given the neck invariant and
      a reversal-free direction chain, the next target is not the second segment. */
  lemma NeverOntoNeck(s: seq<Pos>, cur: Dir, queue: seq<Dir>)
    requires |s| >= 2 && s[1] == Step(s[0], Flip(cur)) && ChainOk(cur, queue)
    ensures Step(s[0], NextDirection(cur, queue)) != s[1]
  {
    if |queue| > 0 {
      ChainConsume(cur, queue);
    }
  }

  /** Pushing a new head that is in bounds, adjacent to the old head and not yet part of
      the body keeps the body in bounds, contiguous and free of duplicates. */
  lemma PushHead(s: seq<Pos>, p: Pos)
    requires |s| > 0 && (forall i :: 0 <= i < |s| ==> InBounds(s[i])) && NoDuplicates(s) && Contiguous(s)
    requires InBounds(p) && Adjacent(s[0], p) && p !in s
    ensures var s' := [p] + s;
            (forall i :: 0 <= i < |s'| ==> InBounds(s'[i])) && NoDuplicates(s') && Contiguous(s')
  {
    var s' := [p] + s;
    assert NoDuplicates(s') by {
      forall i, j | 0 <= i < j < |s'|
        ensures s'[i] != s'[j]
      {
        if i > 0 {
          assert s'[i] == s[i - 1] && s'[j] == s[j - 1];
        } else {
          assert s'[j] in s;
        }
      }
    }
    assert Contiguous(s') by {
      forall i | 0 <= i < |s'| - 1
        ensures Linked(s', i)
      {
        if i > 0 {
          assert s'[i] == s[i - 1] && s'[i + 1] == s[i];
          assert Linked(s, i - 1);
        }
      }
    }
    assert forall i :: 0 <= i < |s'| ==> InBounds(s'[i]) by {
      forall i | 0 <= i < |s'|
        ensures InBounds(s'[i])
      {
        if i > 0 {
          assert s'[i] == s[i - 1];
        }
      }
    }
  }

  /** The grid side of an open move: clearing the tail cell and marking the target
      keeps the snake cells equal to the new body. */
  lemma AdvanceAgrees(g: seq<Cell>, s: seq<Pos>, p: Pos)
    requires |g| == GridSize && |s| > 0 && Agrees(g, s) && NoDuplicates(s)
    requires InBounds(p) && InBounds(Last(s)) && p !in s[..|s| - 1]
    ensures 0 <= IndexOf(Last(s)) < GridSize && 0 <= IndexOf(p) < GridSize
    ensures Agrees(g[IndexOf(Last(s)) := Empty][IndexOf(p) := Snake], [p] + s[..|s| - 1])
  {
    var n := |s| - 1;
    var t := s[n];
    PosOfIndexOf(p);
    PosOfIndexOf(t);
    var ti, pi := IndexOf(t), IndexOf(p);
    var g' := g[ti := Empty][pi := Snake];
    var s' := [p] + s[..n];
    assert t !in s[..n];
    assert s == s[..n] + [t];
    forall i | 0 <= i < GridSize
      ensures g'[i] == Snake <==> PosOf(i) in s'
    {
      IndexOfPosOf(i);
      var q := PosOf(i);
      if i == pi {
        assert q == p;
      } else if i == ti {
        assert q == t;
      } else {
        assert q != p && q != t;
        assert q in s' <==> q in s[..n];
      }
    }
  }

  /** The counting side of an open move: one snake cell is cleared and one is set, and
      neither is the food cell. */
  lemma AdvanceCounts(g: seq<Cell>, s: seq<Pos>, p: Pos)
    requires BodyOk(g, s) && InBounds(p) && g[IndexOf(p)] != Food
    requires g[IndexOf(p)] == Snake ==> p == Last(s)
    ensures 0 <= IndexOf(Last(s)) < GridSize && 0 <= IndexOf(p) < GridSize
    ensures var g' := g[IndexOf(Last(s)) := Empty][IndexOf(p) := Snake];
            Count(g', Snake) == Count(g, Snake) && Count(g', Food) == Count(g, Food)
  {
    var t := Last(s);
    PosOfIndexOf(p);
    PosOfIndexOf(t);
    var ti, pi := IndexOf(t), IndexOf(p);
    var g1 := g[ti := Empty];
    assert g[ti] == Snake by {
      IndexOfPosOf(ti);
      assert PosOf(ti) in s;
    }
    CountUpdate(g, ti, Empty, Snake);
    CountUpdate(g, ti, Empty, Food);
    assert g1[pi] == Empty;
    CountUpdate(g1, pi, Snake, Snake);
    CountUpdate(g1, pi, Snake, Food);
  }

  /** An open move: the tail leaves, the head enters the target; the invariants hold
      again for the new grid g' and body s'. */
  lemma AdvanceKeepsInvariants(g: seq<Cell>, s: seq<Pos>, p: Pos, g': seq<Cell>, s': seq<Pos>)
    requires BodyOk(g, s) && FoodOk(g, s)
    requires Adjacent(s[0], p) && Classify(g, s, p) == Advance
    requires g' == g[IndexOf(Last(s)) := Empty][IndexOf(p) := Snake] && s' == [p] + s[..|s| - 1]
    ensures BodyOk(g', s') && FoodOk(g', s') && |s'| == |s|
  {
    var n := |s| - 1;
    ClassifyMeaning(g, s, p);
    PosOfIndexOf(p);
    assert p in s ==> p == Last(s);
    assert p !in s[..n] by {
      assert s == s[..n] + [s[n]];
    }
    assert g[IndexOf(p)] == Snake ==> p == Last(s) by {
      IndexOfPosOf(IndexOf(p));
    }
    assert Contiguous(s[..n]) by {
      forall i | 0 <= i < n - 1
        ensures Linked(s[..n], i)
      {
        assert Linked(s, i);
      }
    }
    PushHead(s[..n], p);
    AdvanceAgrees(g, s, p);
    AdvanceCounts(g, s, p);
  }

  /** A move onto food: the head enters the target, the tail stays; the body invariants
      hold with one more segment and the food is gone. */
  lemma EatKeepsBody(g: seq<Cell>, s: seq<Pos>, p: Pos, g': seq<Cell>, s': seq<Pos>)
    requires BodyOk(g, s) && FoodOk(g, s)
    requires Adjacent(s[0], p) && Classify(g, s, p) == Eat
    requires g' == g[IndexOf(p) := Snake] && s' == [p] + s
    ensures BodyOk(g', s') && Count(g', Food) == 0 && |s| < GridSize
  {
    ClassifyMeaning(g, s, p);
    PosOfIndexOf(p);
    var pi := IndexOf(p);
    assert p !in s;
    CountPositive(g, pi, Food);
    PushHead(s, p);
    assert Agrees(g', s') by {
      forall i | 0 <= i < GridSize
        ensures g'[i] == Snake <==> PosOf(i) in s'
      {
        IndexOfPosOf(i);
        if i != pi {
          assert PosOf(i) != p;
        }
      }
    }
    CountUpdate(g, pi, Snake, Snake);
    CountUpdate(g, pi, Snake, Food);
  }

  /** After the food is eaten, `dropFood` restores the food invariant and changes no snake cell. */
  lemma DropKeepsInvariants(g: seq<Cell>, s: seq<Pos>, probes: seq<int>, k: nat, g': seq<Cell>)
    requires BodyOk(g, s) && Count(g, Food) == 0
    requires ValidProbes(probes) && DrawFits(k, |s|)
    requires g' == Dropped(g, |s|, probes, k)
    ensures BodyOk(g', s) && FoodOk(g', s)
  {
    if |s| < GridSize {
      DropPlaces(g, |s|, probes, k);
    }
    assert Agrees(g', s) by {
      forall i | 0 <= i < GridSize
        ensures g'[i] == Snake <==> PosOf(i) in s
      {
      }
    }
  }

  /** The snake `startGame` builds, head first. */
  function InitialSnake(): (s: seq<Pos>)
    ensures |s| == InitialLength && s[0] == Pos(InitialLength - 1, StartRow)
    ensures forall i :: 0 <= i < |s| - 1 ==> s[i + 1] == Step(s[i], Left)
  {
    [Pos(3, StartRow), Pos(2, StartRow), Pos(1, StartRow), Pos(0, StartRow)]
  }

  /** The grid `startGame` builds before it drops the food. */
  function InitialGrid(): (g: seq<Cell>)
    ensures |g| == GridSize
    ensures forall i :: 0 <= i < |g| ==> g[i] != Food
  {
    seq(GridSize, i requires 0 <= i < GridSize =>
      if StartRow * GridWidth <= i < StartRow * GridWidth + InitialLength then Snake else Empty)
  }

  /** The grid at the start of every episode: the start loop's snake cells, and whatever food
      `dropFood` placed. */
  function StartGrid(probes: seq<int>, k: nat): (g: seq<Cell>)
    requires ValidProbes(probes)
    ensures |g| == GridSize
    ensures forall i :: 0 <= i < GridSize ==>
      (g[i] == Snake <==> StartRow * GridWidth <= i < StartRow * GridWidth + InitialLength)
  {
    Dropped(InitialGrid(), InitialLength, probes, k)
  }

  /** The initial four segments sit on (3,2), (2,2), (1,2), (0,2), exactly those cells are
      snake cells, and after `dropFood` exactly one other cell holds food. */
  lemma StartInvariants(probes: seq<int>, k: nat)
    requires ValidProbes(probes) && DrawFits(k, InitialLength)
    ensures BodyOk(InitialGrid(), InitialSnake()) && Count(InitialGrid(), Food) == 0
    ensures BodyOk(StartGrid(probes, k), InitialSnake()) && FoodOk(StartGrid(probes, k), InitialSnake())
    ensures Count(StartGrid(probes, k), Food) == 1 && Score(|InitialSnake()|) == 0
  {
    var g := InitialGrid();
    var s := InitialSnake();
    var blank := seq(GridSize, i requires 0 <= i < GridSize => Empty);
    var base := StartRow * GridWidth;
    assert g == blank[base := Snake][base + 1 := Snake][base + 2 := Snake][base + 3 := Snake];
    CountAbsent(blank, Snake);
    CountAbsent(g, Food);
    CountUpdate(blank, base, Snake, Snake);
    CountUpdate(blank[base := Snake], base + 1, Snake, Snake);
    CountUpdate(blank[base := Snake][base + 1 := Snake], base + 2, Snake, Snake);
    CountUpdate(blank[base := Snake][base + 1 := Snake][base + 2 := Snake], base + 3, Snake, Snake);
    InitialAgrees();
    DropKeepsInvariants(g, s, probes, k, StartGrid(probes, k));
  }

  /** The snake cells of the initial grid are exactly the four initial segments. */
  lemma InitialAgrees()
    ensures Agrees(InitialGrid(), InitialSnake())
  {
    var g, s := InitialGrid(), InitialSnake();
    forall i | 0 <= i < GridSize
      ensures g[i] == Snake <==> PosOf(i) in s
    {
      IndexOfPosOf(i);
      if PosOf(i) in s {
        var j :| 0 <= j < |s| && s[j] == PosOf(i);
      }
    }
  }

  /** `currentScore`: segments grown since the start of the episode. It is positive exactly
      when the snake has grown, and within 0..156 for any length the board allows. */
  function Score(len: int): (r: int)
    ensures r > 0 <==> len > InitialLength
    ensures InitialLength <= len <= GridSize ==> 0 <= r <= GridSize - InitialLength
  {
    len - InitialLength
  }

  /** The test of `endGame` for a new best: a positive score that beats the stored best,
      in an episode in which the player asked for at least one direction. */
  predicate RecordsBest(score: int, storedBest: int, hasMoved: bool)
    ensures RecordsBest(score, storedBest, hasMoved) <==>
      hasMoved && score > (if storedBest > 0 then storedBest else 0)
  {
    score > 0 && score > storedBest && hasMoved
  }

  /** A crash before the snake has eaten never sets a record, and neither does an
      episode without a direction request, whatever the stored best. */
  lemma NoRecordWithoutGrowthOrTurn(len: int, storedBest: int, hasMoved: bool)
    requires len <= InitialLength || !hasMoved
    ensures !RecordsBest(Score(len), storedBest, hasMoved)
  {
  }
}
