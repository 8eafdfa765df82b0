/** The game engine: one mutable game object holding the grid array, the snake body
    (head first), the current direction, the queue of pending direction requests
    (newest first) and whether the player has asked for a direction this episode. */
module Engine {
  import opened Grid
  import opened Wrappers
  import opened Encoder
  import opened Food
  import opened Rules

  /** What `endGame` saves as the new best: the score and the board text at that moment. */
  datatype BestRecord = BestRecord(score: int, gridText: string)

  class Game {
    var grid: array<Cell>
    var snake: seq<Pos>
    var currentDirection: Dir
    var moveQueue: seq<Dir>
    var hasMoved: bool

    /** The invariants kept between ticks: the snake and the grid agree, there is one
        food cell while there is room, the direction chain never reverses, and the
        segment behind the head lies opposite the current direction. */
    ghost predicate Valid()
      reads this, grid
    {
      && BodyOk(grid[..], snake)
      && FoodOk(grid[..], snake)
      && ChainOk(currentDirection, moveQueue)
      && snake[1] == Step(snake[0], Flip(currentDirection))
    }

    /** The state `startGame` leaves behind. */
    ghost predicate IsStart(probes: seq<int>, k: nat)
      requires ValidProbes(probes)
      reads this, grid
    {
      && snake == InitialSnake()
      && currentDirection == Right
      && moveQueue == []
      && !hasMoved
      && grid[..] == StartGrid(probes, k)
    }

    /** The cell the next tick moves the head to. */
    ghost function Target(): (t: Pos)
      requires |snake| > 0
      ensures Adjacent(snake[0], t)
      reads this
    {
      Step(snake[0], NextDirection(currentDirection, moveQueue))
    }

    /** How the next tick classifies its target. */
    ghost function NextMove(): Move
      requires Valid()
      reads this, grid
    {
      Classify(grid[..], snake, Target())
    }

    /** Loading the page: the game starts at once. */
    constructor (probes: seq<int>, k: nat)
      requires ValidProbes(probes) && DrawFits(k, InitialLength)
      ensures fresh(grid) && Valid() && IsStart(probes, k)
    {
      grid := new Cell[0];
      snake := [];
      currentDirection := Right;
      moveQueue := [];
      hasMoved := false;
      new;
      StartGame(probes, k);
    }

    /** `setCellAt`: the column wraps, the row does not, and no other cell changes. */
    method SetCellAt(x: int, y: int, cellType: Cell)
      requires grid.Length == GridSize && 0 <= y < GridHeight
      modifies grid
      ensures grid[..] == old(grid[..])[x % GridWidth + GridWidth * y := cellType]
    {
      var i := Index(x, y);
      grid[i] := cellType;
    }

    /** `startGame`: a fresh grid, the four-segment snake on row 2 heading right, an
        empty queue, no direction asked for yet, and one food cell. */
    method StartGame(probes: seq<int>, k: nat)
      requires ValidProbes(probes) && DrawFits(k, InitialLength)
      modifies this
      ensures fresh(grid)
      ensures Valid() && IsStart(probes, k)
    {
      grid := new Cell[GridSize](_ => Empty);
      snake := [];
      for x := 0 to InitialLength
        invariant fresh(grid) && grid.Length == GridSize
        invariant snake == seq(x, j requires 0 <= j < x => Pos(x - 1 - j, StartRow))
        invariant forall i :: 0 <= i < GridSize ==>
          grid[i] == if StartRow * GridWidth <= i < StartRow * GridWidth + x then Snake else Empty
      {
        var y := StartRow;
        snake := [Pos(x, y)] + snake;
        assert x % GridWidth + GridWidth * y == StartRow * GridWidth + x;
        SetCellAt(x, y, Snake);
      }
      currentDirection := Right;
      moveQueue := [];
      hasMoved := false;
      assert grid[..] == InitialGrid();
      assert snake == InitialSnake();
      StartInvariants(probes, k);
      DropFood(probes, k);
      assert grid[..] == StartGrid(probes, k);
    }

    /** `dropFood`: nothing when the snake fills the grid; otherwise the first probe that
        misses the snake, or failing that the cell the fallback scan counts down to. */
    method DropFood(probes: seq<int>, k: nat)
      requires grid.Length == GridSize && ValidProbes(probes)
      modifies grid
      ensures grid[..] == Dropped(old(grid[..]), |snake|, probes, k)
    {
      var emptyCells := GridSize - |snake|;
      if emptyCells == 0 {
        return;
      }
      ghost var g := grid[..];
      var attempts := 0;
      while attempts < MaxAttempts
        invariant 0 <= attempts <= MaxAttempts
        invariant grid[..] == g
        invariant forall j :: 0 <= j < attempts ==> g[probes[j]] == Snake
      {
        var i := probes[attempts];
        if grid[i] != Snake {
          grid[i] := Food;
          assert FirstFreeAttempt(g, probes) == attempts;
          return;
        }
        attempts := attempts + 1;
      }
      var dropCounter := k;
      for i := 0 to GridSize
        invariant grid[..] == g
        invariant dropCounter == k - FreeCount(g[..i]) >= 0
      {
        assert g[..i + 1][..i] == g[..i];
        if grid[i] != Snake {
          if dropCounter == 0 {
            grid[i] := Food;
            NthFreeUnique(g, k, i);
            return;
          }
          dropCounter := dropCounter - 1;
        }
      }
      assert g[..GridSize] == g;
    }

    /** `changeDirection`: a request is queued unless it reverses the newest queued
        direction (or the current one when nothing is queued); either way the episode
        now counts as one in which the player moved. */
    method ChangeDirection(newDir: Dir)
      requires Valid()
      modifies this
      ensures Valid()
      ensures grid == old(grid) && snake == old(snake) && currentDirection == old(currentDirection)
      ensures moveQueue == if Reverses(newDir, LastRequested(old(currentDirection), old(moveQueue)))
                           then old(moveQueue) else [newDir] + old(moveQueue)
      ensures hasMoved
    {
      var lastDir := if |moveQueue| > 0 then moveQueue[0] else currentDirection;
      if DX(newDir) + DX(lastDir) != 0 || DY(newDir) + DY(lastDir) != 0 {
        ChainEnqueue(currentDirection, moveQueue, newDir);
        moveQueue := [newDir] + moveQueue;
      }
      hasMoved := true;
    }

    /** `gridString`: the braille text of the grid, built two columns at a time. */
    method GridString() returns (str: string)
      requires grid.Length == GridSize
      ensures str == Encode(grid[..])
    {
      str := "";
      var x := 0;
      while x < GridWidth
        invariant 0 <= x <= GridWidth && x % 2 == 0
        invariant |str| == x / 2
        invariant forall j :: 0 <= j < x / 2 ==> str[j] == BlockGlyph(grid[..], j)
      {
        var idx0 := x + 0 * GridWidth;
        var idx1 := x + 1 + 0 * GridWidth;
        var idx2 := x + 2 * GridWidth;
        var idx3 := x + 1 + 2 * GridWidth;
        var n: bv8 := 0
          | Bit(Occupied(grid[idx0]))
          | (Bit(Occupied(grid[idx0 + GridWidth])) << 1)
          | (Bit(Occupied(grid[idx2])) << 2)
          | (Bit(Occupied(grid[idx1])) << 3)
          | (Bit(Occupied(grid[idx1 + GridWidth])) << 4)
          | (Bit(Occupied(grid[idx3])) << 5)
          | (Bit(Occupied(grid[idx0 + 3 * GridWidth])) << 6)
          | (Bit(Occupied(grid[idx3 + GridWidth])) << 7);
        assert n == Pack(BlockBits(grid[..], x / 2));
        str := str + [(BrailleBase + n as int) as char];
        x := x + 2;
      }
    }

    /** `endGame`: the record to save, if this episode beats the stored best. */
    method EndGame(storedBest: int) returns (saved: Option<BestRecord>)
      requires grid.Length == GridSize
      ensures saved.Some? <==> RecordsBest(Score(|snake|), storedBest, hasMoved)
      ensures saved.Some? ==> saved.value == BestRecord(Score(|snake|), Encode(grid[..]))
    {
      var score := Score(|snake|);
      if score > 0 && score > storedBest && hasMoved {
        var text := GridString();
        saved := Some(BestRecord(score, text));
      } else {
        saved := None;
      }
    }

    /** `updateWorld`: one tick. It adopts the oldest queued direction, then either ends
        the episode (saving a new best if earned) and starts a fresh one, or moves the
        head onto the target: an open move drops the tail, a move onto food keeps it and
        drops new food. */
    method UpdateWorld(storedBest: int, probes: seq<int>, k: nat) returns (saved: Option<BestRecord>)
      requires Valid() && ValidProbes(probes)
      requires NextMove() == Eat ==> DrawFits(k, |snake| + 1)
      requires NextMove() == Crash ==> DrawFits(k, InitialLength)
      modifies this, grid
      ensures Valid()
      ensures old(NextMove()) == Crash ==>
        && fresh(grid) && IsStart(probes, k)
        && saved == if RecordsBest(Score(|old(snake)|), storedBest, old(hasMoved))
                    then Some(BestRecord(Score(|old(snake)|), Encode(old(grid[..]))))
                    else None
      ensures saved.Some? ==> storedBest < saved.value.score <= GridSize - InitialLength
      ensures old(NextMove()) != Crash ==>
        && grid == old(grid) && saved == None && hasMoved == old(hasMoved)
        && currentDirection == NextDirection(old(currentDirection), old(moveQueue))
        && moveQueue == if old(moveQueue) == [] then [] else old(moveQueue)[..|old(moveQueue)| - 1]
      ensures old(NextMove()) == Advance ==>
        && snake == [old(Target())] + old(snake)[..|old(snake)| - 1]
        && grid[..] == old(grid[..])[IndexOf(old(Last(snake))) := Empty][IndexOf(old(Target())) := Snake]
      ensures old(NextMove()) == Eat ==>
        && snake == [old(Target())] + old(snake)
        && grid[..] == Dropped(old(grid[..])[IndexOf(old(Target())) := Snake], |old(snake)| + 1, probes, k)
    {
      ghost var g0, s0, cur0, q0 := grid[..], snake, currentDirection, moveQueue;
      ghost var target := Target();
      ghost var move := NextMove();
      NeverOntoNeck(s0, cur0, q0);
      TakeNextDirection();
      assert snake == s0;
      var head := snake[0];
      var tail := snake[|snake| - 1];
      var newX := head.x + DX(currentDirection);
      var newY := head.y + DY(currentDirection);
      assert Pos(newX, newY) == target;

      var outOfBounds := newX < 0 || newX >= GridWidth || newY < 0 || newY >= GridHeight;
      var collidesWithSelf := CellAt(grid[..], newX, newY) == Snake && !(newX == tail.x && newY == tail.y);
      if outOfBounds || collidesWithSelf {
        assert move == Crash;
        saved := Restart(storedBest, probes, k);
        return;
      }

      assert move != Crash;
      MoveHead(Pos(newX, newY), probes, k);
      saved := None;
    }

    /** The terminal half of `updateWorld`: `endGame` decides the record, then `startGame`
        begins a new episode. */
    method Restart(storedBest: int, probes: seq<int>, k: nat) returns (saved: Option<BestRecord>)
      requires grid.Length == GridSize && |snake| <= GridSize
      requires ValidProbes(probes) && DrawFits(k, InitialLength)
      modifies this
      ensures fresh(grid) && Valid() && IsStart(probes, k)
      ensures saved == if RecordsBest(Score(|old(snake)|), storedBest, old(hasMoved))
                       then Some(BestRecord(Score(|old(snake)|), Encode(old(grid[..]))))
                       else None
      ensures saved.Some? ==> storedBest < saved.value.score <= GridSize - InitialLength
    {
      saved := EndGame(storedBest);
      StartGame(probes, k);
    }

    /** The first step of `updateWorld`: the oldest queued request, if any, leaves the
        queue and becomes the current direction. */
    method TakeNextDirection()
      requires ChainOk(currentDirection, moveQueue)
      modifies this
      ensures currentDirection == NextDirection(old(currentDirection), old(moveQueue))
      ensures moveQueue == if old(moveQueue) == [] then [] else old(moveQueue)[..|old(moveQueue)| - 1]
      ensures ChainOk(currentDirection, moveQueue)
      ensures grid == old(grid) && snake == old(snake) && hasMoved == old(hasMoved)
    {
      if |moveQueue| > 0 {
        ChainConsume(currentDirection, moveQueue);
        currentDirection := moveQueue[|moveQueue| - 1];
        moveQueue := moveQueue[..|moveQueue| - 1];
      }
    }

    /** The rest of a tick that does not end the episode: the head enters the target, and
        either the tail leaves (an open move) or new food is dropped (a move onto food). */
    method MoveHead(target: Pos, probes: seq<int>, k: nat)
      requires BodyOk(grid[..], snake) && FoodOk(grid[..], snake) && ValidProbes(probes)
      requires ChainOk(currentDirection, moveQueue)
      requires target == Step(snake[0], currentDirection)
      requires Classify(grid[..], snake, target) != Crash
      requires Classify(grid[..], snake, target) == Eat ==> DrawFits(k, |snake| + 1)
      modifies this, grid
      ensures Valid()
      ensures grid == old(grid) && hasMoved == old(hasMoved)
      ensures currentDirection == old(currentDirection) && moveQueue == old(moveQueue)
      ensures old(Classify(grid[..], snake, target)) == Advance ==>
        && snake == [target] + old(snake)[..|old(snake)| - 1]
        && grid[..] == old(grid[..])[IndexOf(old(Last(snake))) := Empty][IndexOf(target) := Snake]
      ensures old(Classify(grid[..], snake, target)) == Eat ==>
        && snake == [target] + old(snake)
        && grid[..] == Dropped(old(grid[..])[IndexOf(target) := Snake], |old(snake)| + 1, probes, k)
    {
      ghost var head := snake[0];
      StepBack(head, currentDirection);
      PosOfIndexOf(target);
      var eatsFood := CellAt(grid[..], target.x, target.y) == Food;
      if !eatsFood {
        Slither(target);
      } else {
        Grow(target, probes, k);
      }
      assert snake[1] == head;
    }

    /** The open-move half of `updateWorld`: the tail cell is cleared, then the target
        becomes the new head. */
    method Slither(target: Pos)
      requires BodyOk(grid[..], snake) && FoodOk(grid[..], snake)
      requires Adjacent(snake[0], target) && Classify(grid[..], snake, target) == Advance
      modifies this, grid
      ensures grid == old(grid)
      ensures snake == [target] + old(snake)[..|old(snake)| - 1]
      ensures grid[..] == old(grid[..])[IndexOf(old(Last(snake))) := Empty][IndexOf(target) := Snake]
      ensures BodyOk(grid[..], snake) && FoodOk(grid[..], snake)
      ensures currentDirection == old(currentDirection) && moveQueue == old(moveQueue)
      ensures hasMoved == old(hasMoved)
    {
      ghost var g0, s0 := grid[..], snake;
      ClassifyMeaning(g0, s0, target);
      PosOfIndexOf(target);
      var tail := snake[|snake| - 1];
      PosOfIndexOf(tail);
      assert tail.x % GridWidth + GridWidth * tail.y == IndexOf(tail);
      assert target.x % GridWidth + GridWidth * target.y == IndexOf(target);
      snake := snake[..|snake| - 1];
      SetCellAt(tail.x, tail.y, Empty);
      SetCellAt(target.x, target.y, Snake);
      snake := [target] + snake;
      AdvanceKeepsInvariants(g0, s0, target, grid[..], snake);
    }

    /** The food half of `updateWorld`: the target becomes the new head, the tail stays,
        and new food is dropped. */
    method Grow(target: Pos, probes: seq<int>, k: nat)
      requires BodyOk(grid[..], snake) && FoodOk(grid[..], snake) && ValidProbes(probes)
      requires Adjacent(snake[0], target) && Classify(grid[..], snake, target) == Eat
      requires DrawFits(k, |snake| + 1)
      modifies this, grid
      ensures grid == old(grid)
      ensures snake == [target] + old(snake)
      ensures grid[..] == Dropped(old(grid[..])[IndexOf(target) := Snake], |old(snake)| + 1, probes, k)
      ensures BodyOk(grid[..], snake) && FoodOk(grid[..], snake)
      ensures currentDirection == old(currentDirection) && moveQueue == old(moveQueue)
      ensures hasMoved == old(hasMoved)
    {
      ghost var g0, s0 := grid[..], snake;
      ClassifyMeaning(g0, s0, target);
      PosOfIndexOf(target);
      assert target.x % GridWidth + GridWidth * target.y == IndexOf(target);
      SetCellAt(target.x, target.y, Snake);
      snake := [target] + snake;
      EatKeepsBody(g0, s0, target, grid[..], snake);
      ghost var g1 := grid[..];
      DropFood(probes, k);
      DropKeepsInvariants(g1, snake, probes, k, grid[..]);
    }
  }
}
