# Conway's Game of Life on a torus — a verified model of the grid engine

This project models the grid engine of a small Game of Life program
(`test/life.ts`). The engine covers three things:

- a rectangular board whose edges wrap around, stored row-major, so cell
  `(x, y)` has index `x + y * width`;
- the generation step, which runs a rule pass into a next-generation buffer
  and then snapshots and commits;
- a look-back window of the last 10 generations, used to stop the game once
  the board is empty or a state repeats.

The board and the driver are Dafny classes whose methods change arrays in
place, as the source's objects do:

- `currGen: array<bool>` holds the states of the cells;
- `nextGen: array<bool>` is the next-generation buffer;
- `neighbors: array2<int>` holds eight neighbour indices per cell;
- `prevStates: seq<seq<bool>>` is the window.

The source links each `Cell` object to its neighbour `Cell` objects. The
model uses integer indices into the board arrays instead. Each loop method
is proved against a value-level definition:

- `Topology` covers index arithmetic and the wiring;
- `Rules` covers neighbour counting, the rule and the whole rule pass;
- `History` covers the bounded first-in-first-out window.

Lemmas then prove what those definitions promise.

The model follows the code literally in one place where the code is not the
textbook rule. The buffer `nextGen` is cleared once, at construction. After
that the rule pass writes a slot only when the rule changes that cell. The
board invariant `GameField.BufferOk` captures this:

- before the first step the buffer is all false;
- after any step it equals the current generation.

So the first `Process` makes a cell alive only if it was dead with exactly
three live neighbours. Live cells that should survive die on that step.
Every later step computes exact B3/S23 (born with 3 live neighbours,
survives with 2 or 3). The textbook rule would seed every buffer slot from
the cell's current state before each pass. This code does not, and the
model follows the code.

Two more places where the model follows the code rather than an idealised
board:

- A board may have a side of length 0. It then has no cells, every loop is
  empty, and it counts as dead at once. The code never evaluates `% width`
  when there is no cell.
- A side of length 1 or 2 makes a cell appear more than once among its own
  eight neighbour entries, and it is counted each time (see
  `Topology.NeighborIsSelf` and `Rules.OneCellBoard`). The eight neighbours
  are always eight entries, not eight distinct cells.

## Model

| member | source | states |
|---|---|---|
| `Topology.CellAt` | test/life.ts:86-88 | The row-major index `x + y*width` of an in-range coordinate lies in `[0, width*height)`. Its column (`% width`) is `x` and its row (`/ width`) is `y`. |
| `Topology.CoordinatesRoundTrip` | test/life.ts:127-128 | The column `i % width` and row `i / width` of a cell index are in range. Turning them back into an index gives `i`, and coordinates survive a round trip through an index. |
| `Topology.Neighbors` | test/life.ts:126-138 | Each cell is wired to exactly eight neighbour indices, and every one lies in `[0, width*height)`. |
| `Topology.NeighborsWrap` | test/life.ts:126-138 | Neighbour k of the cell at `(x, y)` is `((x+dx) mod width) + ((y+dy) mod height)*width`, with offsets in the order NW, N, NE, W, E, SW, S, SE. The source's `x == 0 ? width-1 : x-1` style wrap is arithmetic modulo the side. |
| `Topology.NeighborsSymmetric` | test/life.ts:126-138 | The wiring is symmetric: a cell is neighbour `7-k` of its own neighbour `k`. |
| `Topology.NeighborIsSelf` | test/life.ts:126-138 | A cell is its own neighbour k iff each direction k moves in runs along a side of length 1. So boards at least 2×2 never list a cell as its own neighbour, and one-wide boards do. |
| `Topology.NeighborsDistinct` | test/life.ts:126-138 | On a board at least 3×3 the eight neighbour entries of a cell name eight different cells. |
| `Rules.CountLiveNone` | test/life.ts:32-42 | The live count of a list of states is 0 iff no entry is alive. |
| `Rules.CountLiveAll` | test/life.ts:32-42 | The live count equals the number of entries iff every entry is alive. |
| `Rules.CountLiveAppend` | test/life.ts:32-42 | The live count is additive over concatenation. |
| `Rules.LivingNeighbors` | test/life.ts:32-42 | The number of live entries among a cell's eight neighbour entries is at most 8. |
| `Rules.OneCellBoard` | test/life.ts:32-42 | On a 1×1 board all eight entries are the cell itself. A live cell counts 8 live neighbours, a dead one 0: duplicate entries are counted each time. |
| `Rules.RuleSlotCarried` | test/life.ts:164-180 | A buffer slot that already holds the cell's own state ends up with exactly the B3/S23 outcome. |
| `Rules.RuleSlotFromCleared` | test/life.ts:164-180 | A buffer slot that holds false ends up true iff the cell was dead with exactly 3 live neighbours. |
| `Rules.RulePassCarried` | test/life.ts:164-180 | A rule pass over a buffer equal to the current generation yields the exact B3/S23 successor of that generation. |
| `Rules.RulePassFromCleared` | test/life.ts:164-180 | A rule pass over an all-false buffer (the state left at test/life.ts:70) makes cell i alive iff it was dead with exactly 3 live neighbours. |
| `Rules.EmptyBoardStaysEmpty` | test/life.ts:164-180 | From an empty board, a rule pass over either buffer the engine can hold leaves every slot false. |
| `Rules.LoneCellDies` | test/life.ts:164-180 | On a board at least 3×3, a single live cell has no live neighbour and no dead cell sees more than one. So a rule pass over either buffer the engine can hold leaves every cell dead, which by `GameField.Process` is the board after one step. |
| `History.PushFifo` | test/life.ts:140-155 | The window can hold at most 10 entries. Below capacity it grows by one and keeps every entry. At capacity it drops the oldest, keeps the other nine in order, and ends with the new snapshot. |
| `History.PushRecent` | test/life.ts:140-155 | Pushing onto the window of a trace of generations gives the window of the longer trace. So the window always holds exactly the last 10 generations. |
| `History.RecursIffSeenWithinWindow` | test/life.ts:108-124 | A state matches an entry of the window iff it is one of the last 10 generations of the trace, in both directions. A cycle of period at most 10 is caught; nothing older is. |
| `Life.GameField.constructor` | test/life.ts:53-61 | A new board has the given sizes and initial states, an empty window and an all-false buffer, and satisfies the board invariant. |
| `Life.GameField.GetState` | test/life.ts:16-18 | Returns the state of cell i of the current generation. |
| `Life.GameField.SetState` | test/life.ts:24-26 | Sets the state of cell i and changes no other cell. |
| `Life.GameField.GenerateGameField` | test/life.ts:67-78 | First resets every cell and clears every buffer slot. Then gives each cell its initial state and wires its eight neighbours. The buffer stays all false. |
| `Life.GameField.GetNeighborsByCurrentCell` | test/life.ts:126-138 | Writes the eight toroidal neighbour indices of one cell and leaves every other cell's wiring unchanged. |
| `Life.GameField.NumberOfLivingNeighbors` | test/life.ts:32-42 | The counting loop returns the number of live entries among the cell's eight neighbour entries in the current generation. |
| `Life.GameField.DoProcessNextGen` | test/life.ts:164-180 | The rule pass writes only the buffer. A live cell with fewer than 2 or more than 3 live neighbours gets false, a dead cell with exactly 3 gets true, and every other slot keeps its previous value. The current generation is outside its frame, so visit order does not matter. |
| `Life.GameField.CopyState` | test/life.ts:142-145 | The copy loop returns exactly the states of the current generation. |
| `Life.GameField.SavePrevState` | test/life.ts:140-155 | Pushes a copy of the current generation into the window, evicting the oldest entry at capacity 10. It keeps the window equal to the last 10 generations. |
| `Life.GameField.CopyFromNextGenToOldGen` | test/life.ts:157-162 | Snapshots the pre-commit generation into the window, then sets every cell to its buffer slot. The buffer and the wiring are unchanged. |
| `Life.GameField.Process` | test/life.ts:182-185 | One step keeps the board invariant: the buffer equals the new generation, and the window is the last 10 pre-step generations. The new generation is the rule pass over the old state and buffer. It is exact B3/S23 on every step after the first. On the first step a cell is alive iff it was dead with exactly 3 live neighbours. |
| `Life.GameField.CheckIsDead` | test/life.ts:98-106 | Returns true iff every cell of the current generation is dead. |
| `Life.GameField.CheckStatus` | test/life.ts:108-124 | Returns true iff some window entry equals the current generation element-wise. Equivalently, the current generation is one of the last 10 generations before it. It returns false on an empty window. |
| `Life.GameOfLive.constructor` | test/life.ts:191-198 | A game with explicit sizes gets a valid board with those sizes and initial states and an empty window. |
| `Life.GameOfLive.CheckConditions` | test/life.ts:200-206 | The game goes on iff some cell is alive and the current generation does not recur in the window. |

## Left out

- `getRandomInt` and `GameField._generateCellState` (test/life.ts:1-5, 63-65) draw from `Math.random`. The model takes the board sizes and the initial cell states as constructor parameters instead.
- The constructor branch of `GameOfLive` that picks random sizes when both are 0 (test/life.ts:192-193). `GameOfLive.constructor` requires that not both sizes be 0, and models only the explicit-size branch.
- `showGameField` and `_getSeparator` (test/life.ts:80-96) only format the board as text for `console.log`. They are output and are not modelled.
- `play()` and the top-level script (test/life.ts:208-220) loop `console.log`, `_checkConditions` and `process` with no bound. Those two steps are modelled; the unbounded output loop is not.
- Cells as objects that reference each other, with `getNeighbors`/`setNeighbors` (test/life.ts:20-30). The model uses board indices instead. No behaviour depends on object identity, because the wiring is fixed once at construction.
- `SavePrevState` refills the evicted snapshot array when the window is full instead of allocating a new one. The window is modelled as a sequence of values, so this reuse of storage is not visible. No other holder of that array exists.
- Board sizes that are negative or not integers are outside the model, because sizes are natural numbers.
