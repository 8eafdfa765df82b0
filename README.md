# snake-in-url game engine, modelled in Dafny

snake-in-url plays the snake game in the address bar. The board is 40 columns by 4 rows. After every tick, each 2 x 4 block of cells is drawn as one Unicode braille character. This project models the engine of `snake.js`: the grid, the snake, the direction queue, one tick of the game, food placement, the score, the best-score test and the braille encoder. It then proves the invariants the engine keeps.

Modules:

- `Grid` (grid.dfy)
  - The flat 160-cell board. A cell is `Empty`, `Snake` or `Food`; JavaScript's `undefined` and `null` are both `Empty`.
  - Column addressing follows JavaScript's truncating `%`, written out in `JsRemWidth` and proved equal to the Euclidean `x % 40` after normalisation.
  - Reads outside the array give `Empty`.
  - `Count` counts the cells that hold a given value.
- `Encoder` (encoder.dfy)
  - The braille text of the board, `Encode`.
  - A decoder, `Decode`, proved to recover the occupancy of every cell.
- `Food` (food.dfy)
  - Where `dropFood` puts the food, as a function of the random draws: 320 probe indices and the fallback counter.
- `Rules` (rules.dfy)
  - Directions and the reversal guard.
  - How a tick classifies its target cell (`Crash`, `Eat`, `Advance`).
  - The invariants tying the snake to the grid, the start state, and the score.
- `Engine` (engine.dfy)
  - The class `Game`. It holds the module-level state of `snake.js` as fields: the grid `array`, the snake (head first), the current direction, the move queue (newest first) and `hasMoved`.
  - It has one method per operation, each proved against the functions of `Rules`, `Food` and `Encoder`.
  - The constructor and `StartGame` establish `Valid()`; `ChangeDirection` and `UpdateWorld` keep it. `SetCellAt` and `DropFood` are the low-level steps those methods are built from, and are specified on the grid alone.

`Game.Valid()` is the invariant between ticks:

- the snake cells of the grid are exactly the snake's positions;
- the snake has at least 4 segments, all in bounds, no duplicates, consecutive segments orthogonally adjacent;
- the number of snake cells equals the snake's length;
- exactly one food cell while the snake is shorter than 160, none once it fills the grid;
- reading the current direction and then the queue from oldest to newest, no entry reverses the one before it;
- the second segment lies opposite the current direction from the head.

The randomness of `dropFood` is an input:

- `probes` holds the 320 probe indices, each a whole number drawn below 160;
- `k` is the fallback draw, a whole number below the number of free cells.

The operations that drop food require that `k` is a value that draw can produce (`DrawFits`), for the snake length at which that `dropFood` runs.

The move queue is first-in first-out. `changeDirection` adds at the front (snake.js:272) and `updateWorld` takes from the back (snake.js:136), so the oldest request is applied first.

## Model

| member | source | states |
|---|---|---|
| Grid.JsRemWidth | snake.js:227 | `x % GRID_WIDTH` in JavaScript: strictly between -40 and 40, sign of the dividend, differs from x by a multiple of 40 |
| Grid.NormColumn | snake.js:227-228 | the normalised column lies in [0,40) and equals x mod 40 for every integer x, negatives included |
| Grid.Index | snake.js:229 | the flat index is in [0,160) exactly when the row is in [0,4); its column is x mod 40 and its row is y unchanged |
| Grid.CellAt | snake.js:226-230 | for a row in range, the cell at index (x mod 40) + 40y; for any other row, an empty cell (JavaScript's `undefined`) |
| Grid.BitAt | snake.js:232-234 | 1 exactly when the cell holds a snake segment or food, else 0 |
| Grid.PosOfIndexOf | snake.js:229 | for an in-bounds position the flat index is in range, decodes back to the position, and is the index `cellAt` uses |
| Grid.IndexOfPosOf | snake.js:229 | every flat index is the index of an in-bounds position |
| Grid.CountUpdate | snake.js:239 | writing one cell changes each value's count by what was removed and what was written |
| Engine.Game.SetCellAt | snake.js:236-240 | the cell at (x mod 40) + 40y becomes the new value and every other cell is unchanged |
| Engine.Game.StartGame | snake.js:121-133 | a fresh grid holding the snake [(3,2),(2,2),(1,2),(0,2)] heading right, an empty queue, `hasMoved` false, food dropped by `dropFood`; the game invariant holds |
| Engine.Game.constructor | snake.js:32 | loading the page starts an episode: a fresh grid and the state `startGame` leaves, with the invariant |
| Rules.StartInvariants | snake.js:121-133 | the start grid has exactly the four initial cells as snake cells, no food before `dropFood` and exactly one food cell after, and the score is 0 |
| Rules.InitialSnake | snake.js:124-128 | four segments, the head at (3,2), each further segment one step left of the one before |
| Rules.InitialGrid | snake.js:122-128 | 160 cells and no food before `dropFood` runs |
| Rules.StartGrid | snake.js:121-132 | the grid `startGame` leaves: 160 cells whose snake cells are exactly indices 80-83, the start loop's segments on row 2 |
| Rules.InitialAgrees | snake.js:124-128 | the snake cells of the grid built by the start loop are exactly the four initial segments |
| Engine.Game.UpdateWorld | snake.js:135-162 | one tick. It adopts the oldest queued direction. On a crash it returns the best record `endGame` saves and restarts exactly as `startGame`. On an open move the head enters the target and the tail cell is cleared. On food the head enters and `dropFood` runs with the longer snake. A saved record's score beats the stored best and is at most 156. The invariant holds after every tick |
| Engine.Game.Restart | snake.js:146-150 | a crash: the record saved is the one `endGame` decides for the old state, with a score above the stored best and at most 156, and the new state is exactly the one `startGame` leaves, with the invariant |
| Engine.Game.MoveHead | snake.js:152-161 | a tick that does not end the episode: an open move or a move onto food gives the new body and grid from the old state, and the invariant holds again |
| Engine.Game.Target | snake.js:138-141 | the cell the next tick moves the head to is an orthogonal neighbour of the head |
| Rules.Step | snake.js:140-141 | one step from a position in a direction is always an orthogonal neighbour of it |
| Rules.DX | snake.js:6-9 | the column step of a direction is -1, 0 or 1, 0 exactly for Up and Down, and -1 exactly for Left |
| Rules.DY | snake.js:6-9 | the row step of a direction is -1, 0 or 1, 0 exactly for Left and Right, and -1 exactly for Up |
| Engine.Game.TakeNextDirection | snake.js:136 | the oldest queued direction leaves the back of the queue and becomes current; the chain stays free of reversals |
| Engine.Game.Slither | snake.js:153-159 | an open move: the new snake is the target followed by all but the tail, the grid has the tail cleared then the target marked, and the body and food invariants hold |
| Engine.Game.Grow | snake.js:158-161 | a move onto food: the snake grows by the target at the front, the grid is the marked grid after `dropFood`, and the invariants hold |
| Rules.Classify | snake.js:143-152 | any move that is not a crash lands in bounds, so movement never wraps horizontally |
| Rules.ClassifyMeaning | snake.js:143-152 | a move crashes exactly when the target is out of bounds or is a segment other than the tail; it eats exactly when the target holds food; moving onto the tail is an open move |
| Rules.CellAtInBounds | snake.js:144 | for an in-bounds target, `cellAt` reads the cell at the target's flat index |
| Rules.AdvanceKeepsInvariants | snake.js:153-159 | after an open move the body and food invariants hold and the length is unchanged |
| Rules.AdvanceAgrees | snake.js:154-159 | after an open move the snake cells of the grid are exactly the new body |
| Rules.AdvanceCounts | snake.js:155-158 | an open move leaves the number of snake cells and of food cells unchanged |
| Rules.PushHead | snake.js:159 | pushing an adjacent, in-bounds, new head keeps the body in bounds, contiguous and free of duplicates |
| Rules.EatKeepsBody | snake.js:158-159 | after a move onto food the body invariant holds with one more segment, no food is left, and the old length was below 160 |
| Rules.DropKeepsInvariants | snake.js:161 | after the food is eaten, `dropFood` restores exactly one food cell (none once the board is full) and changes no snake cell |
| Rules.NeverOntoNeck | snake.js:136-141 | under the neck invariant and a reversal-free chain, the next target is never the segment behind the head |
| Rules.NextDirection | snake.js:136 | the direction a tick moves in is the current one or one of the queued requests |
| Rules.LastRequested | snake.js:270 | what a new request is compared with is the current direction or one of the queued requests |
| Rules.QueueIsFifo | snake.js:270-272 | a new request becomes what the next request is compared with, but the next tick still takes the oldest pending request |
| Rules.Reverses | snake.js:271 | the test that the two unit vectors sum to zero holds exactly when the second direction is the opposite of the first |
| Rules.ChainEnqueue | snake.js:269-273 | queueing a request that passes the guard keeps the chain free of reversals |
| Rules.ChainConsume | snake.js:136 | taking the oldest request keeps the rest of the chain free of reversals, and the adopted direction never reverses the current one |
| Engine.Game.ChangeDirection | snake.js:269-275 | the request goes to the front of the queue unless it reverses the newest queued direction (or the current one when none is queued); `hasMoved` is set either way; the invariant holds |
| Engine.Game.DropFood | snake.js:242-267 | the new grid is `Dropped` of the old grid: nothing with 160 segments, else the first probe off the snake, else the (k+1)-th non-snake cell of the scan |
| Food.FirstFreeAttempt | snake.js:248-255 | the number of probes before the first one off the snake: all earlier probes hit the snake, and the one at that position (if any) does not |
| Food.NthFree | snake.js:257-266 | the (k+1)-th non-snake cell: a non-snake cell with exactly k non-snake cells before it |
| Food.FreeCountGrows | snake.js:259-264 | the scan's count of non-snake cells strictly grows past a non-snake cell |
| Food.NthFreeUnique | snake.js:258-262 | the cell where the scan's counter reaches zero is the (k+1)-th non-snake cell, and only that cell is |
| Food.FoodSpot | snake.js:246-266 | the chosen cell is never a snake cell; none is chosen exactly when every probe hits the snake and the counter reaches no free cell |
| Food.Dropped | snake.js:242-267 | no snake cell changes, and with 160 segments the grid is unchanged |
| Food.DropPlaces | snake.js:242-267 | with fewer than 160 segments and a draw in range, exactly one non-snake cell becomes food and the snake count is unchanged |
| Food.FallbackPlacesNth | snake.js:256-266 | when all probes hit the snake, the fallback always places food, on the (k+1)-th non-snake cell in index order |
| Food.LastFreeCellGetsFood | snake.js:242-267 | with one free cell left, that cell gets the food whatever the draws are |
| Engine.Game.GridString | snake.js:196-216 | the loop's string equals `Encode` of the grid |
| Encoder.Encode | snake.js:196-216 | 20 characters, each in U+2800..U+28FF |
| Encoder.BlockLayout | snake.js:200-212 | bits 0-7 of block i show (2i,0), (2i,1), (2i,2), (2i+1,0), (2i+1,1), (2i+1,2), (2i,3), (2i+1,3) |
| Encoder.DecodeEncode | snake.js:196-216 | decoding the board string recovers the occupancy of all 160 cells |
| Encoder.EncodeExactlyOccupancy | snake.js:205-212 | two boards encode to the same string exactly when the same cells are occupied (snake and food both count) |
| Encoder.UnpackPack | snake.js:204-212 | reading the eight bits back from a packed byte gives the eight dots |
| Encoder.PackUnpack | snake.js:204-212 | every byte is the packing of its own eight bits |
| Encoder.DotIndexInverse | snake.js:200-212 | every cell is shown by exactly one dot of one block |
| Encoder.Glyph | snake.js:213 | the character U+2800+n is braille and stands for n |
| Encoder.BlockBits | snake.js:205-212 | the eight dots of block i: dot k+1 is raised exactly when `bitAt` is 1 for the cell that dot shows |
| Encoder.Pack | snake.js:204-212 | bit k of the packed byte is set exactly when dot k+1 is raised, for each of the eight dots |
| Engine.Game.EndGame | snake.js:164-173 | a record is saved exactly when the line-167 test holds, and it holds the score and the board text |
| Rules.NoRecordWithoutGrowthOrTurn | snake.js:167 | an episode with no growth, or with no direction request, never sets a record |
| Rules.Score | snake.js:222-224 | the score is positive exactly when the snake has grown past 4 segments, and lies in 0..156 for any length the board allows |
| Rules.RecordsBest | snake.js:167 | a record is set exactly when the player asked for a direction and the score beats both 0 and the stored best |

## Left out

- `main` and `frameHandler` (snake.js:26-45) and the pause handlers: frame timing and focus events. A tick is one call of `UpdateWorld`, and the constructor stands for the `startGame` call at page load.
- `tickTime` (snake.js:218-220): floating-point arithmetic with no effect on the state.
- `localStorage`: the stored best score is a parameter of `EndGame` and `UpdateWorld`, and the record to save is their result. `parseInt` of a malformed stored value (NaN) is not modelled; the stored best is an integer.
- `drawMaxScore`, `showMaxScore`, `shareScore`, `showShareNote`, `drawWorld` and the URL, DOM and event functions: display and browser plumbing.
- `Math.random`: the probe indices and the fallback draw are inputs.
- Engine.Game.SetCellAt: requires the row to be in [0,4). JavaScript would create a property outside the 160 cells for any other row, and no caller passes one.
- Engine.Game.DropFood: specified for any draw. Placement is guaranteed only for a draw in the range `Math.random` gives (`Food.DropPlaces`); a larger draw places nothing, as in JavaScript.
- Key and touch bindings are not modelled: they map keys to the four directions, which `ChangeDirection` takes as a `Dir`.
