# Game of Life engine, modelled in Dafny

This project models the browser Game of Life in `life/js/index.js`, everything except drawing:

- **The board (`Field`).** It is a table of `cellsWidth × cellsHeight` cells, addressed `cells[x][y]`. Its size is the canvas size divided by the cell size of 8 pixels, rounded down. Every cell starts dead.
- **The neighbour count.** Each cell counts the live cells around it. Edge guards make the board stop at its border, so it does not wrap.
- **Conway's rules.** A live cell with fewer than 2 or more than 3 live neighbours dies. A dead cell with exactly 3 is born.
- **The generation step.** It runs in two phases: it first lists every cell that should flip, then flips them all.
- **Text save and load.** The board is saved as a string of `'0'`/`'1'` and read back from one.
- **Run control and the page loop.** The simulation starts and stops, and the loop steps the board while it runs.
- **Drag-to-paint.** Mouse events paint cells while the button is held.

Three modules:

- `Rules` (`rules.dfy`) holds the specification as values.
  - A board is a `Grid` (`seq<seq<bool>>`, x-major). The live-neighbour count is `Neighbours`, one generation is `NextGen`, and the saved text is `Encode`.
  - Reading a text back is `Load`, and `Addressable` says when a text fits the board.
  - Lemmas state what these mean:
    - the count lies in [0, 8];
    - the rules are B3/S23;
    - collect-then-flip equals `NextGen` in any order;
    - a dead board, a block and an L of three cells behave as Conway's rules say;
    - the text has one character per cell at position `x * cellsHeight + y`;
    - save then load is the identity exactly on square boards.
- `Engine` (`field.dfy`) is the `Field` class.
  - It holds the cells in an `array2<bool>` that its methods update in place, plus the `running` flag.
  - A ghost `board` shows the array's contents as a `Grid`. These methods are proved against a `Rules` function: `SurroundingCount` against `Neighbours`, `CollectChanges` against `ShouldFlip`, `Step` against `NextGen`, `GetCellsString` against `Encode`, `LoadCells` against `Load`, `SetCell` against `With`. `GetCell` is proved to return the ghost board's cell, and `StartCells` to build an all-dead table.
- `Controls` (`page.dfy`) is the page.
  - It holds the field, and the gesture state `mouseActive`, `currentCell` and `settingStatus`.
  - It has the loop tick, the three mouse handlers, and `Drag`. `Drag` is a whole press–move–release gesture, proved to paint every cell on its path with the opposite of the first cell's former state.

Save and load disagree on chunk size. `getCellsString` writes `cellsHeight` characters per column. `loadCells` reads the text in chunks of `cellsWidth` characters, chunk number k being column k. So a board reads its own text back correctly only when it is square. On a non-square board with at least one cell, reading its own text would reach a cell that does not exist; an empty board's text is empty. `EncodeAddressableIffSquare` states this, `AddressableExact` shows that `Addressable` means exactly "every character reaches an existing cell", and `LoadEncodeRoundTrip` proves that on a square board the text, read into any board of that size, gives the saved board back.

`loadCells` checks neither the text's length nor its characters nor the board's dimensions: it reads any text, and a text too long for the board makes it dereference a missing cell. The model makes "every character reaches a cell" (`Addressable`) a precondition of `LoadCells`. Any character other than '1' loads as a dead cell. Positions are counted in Unicode characters, whereas the source counts UTF-16 units; the two agree on texts without characters outside the Basic Multilingual Plane (see "## Left out").

## Model

| member | source | states |
|---|---|---|
| Rules.NeighboursUnrolled | life/js/index.js:163-199 | the reference count over the Moore offsets is the sum of the eight neighbour positions that hold a live cell; positions off the board count nothing |
| Rules.NeighboursRange | life/js/index.js:163-199 | a cell never has more than 8 live neighbours |
| Rules.CornerNeighbours | life/js/index.js:163-199 | each of the four corner cells of a non-empty board has at most 3 live neighbours, because the edge guards keep the count on the board and it does not wrap |
| Rules.NeighboursExcludeSelf | life/js/index.js:163-199 | a cell's own state does not enter its neighbour count |
| Rules.CountLiveAtMost | life/js/index.js:163-199 | a list of offsets contributes at most one live neighbour per offset |
| Rules.CountLiveNone | life/js/index.js:163-199 | positions that are all dead or off the board contribute no live neighbour |
| Rules.Dies | life/js/index.js:201-204 | only a live cell dies, and a live cell dies exactly when its neighbour count is neither 2 nor 3 |
| Rules.Born | life/js/index.js:206-209 | only a dead cell is born, and a dead cell is born exactly when it has 3 live neighbours |
| Rules.ShouldDie | life/js/index.js:201-204 | only a live cell should die, and a live cell should die exactly when its live-neighbour count is neither 2 nor 3 |
| Rules.ShouldBirth | life/js/index.js:206-209 | only a dead cell should be born, and a dead cell should be born exactly when it has 3 live neighbours |
| Rules.ShouldFlip | life/js/index.js:123 | a live cell flips exactly when its count is neither 2 nor 3, a dead cell exactly when its count is 3 |
| Rules.RulesExclusive | life/js/index.js:201-209 | no cell both should die and should be born |
| Rules.NextIsB3S23 | life/js/index.js:116-129 | a cell is live after the step exactly when it has 3 live neighbours, or is live and has 2 (Conway's B3/S23) |
| Rules.IsolatedCellDies | life/js/index.js:201-204 | a live cell with no live neighbour is dead after the step |
| Rules.DeadIsFixed | life/js/index.js:116-129 | a board with no live cell is left unchanged by the step |
| Rules.BlockIsStill | life/js/index.js:116-129 | a lone 2x2 block of live cells is left unchanged by the step |
| Rules.LShapeCompletesBlock | life/js/index.js:116-129 | three live cells in an L become the 2x2 block: the three survive, the fourth corner is born, nothing else lives |
| Rules.LShapeAt | life/js/index.js:201-209 | the rules applied to one cell near an L of live cells: it is live afterwards exactly when it lies in the L's 2x2 square |
| Rules.With | life/js/index.js:135-139 | setting a cell gives the board the same shape, that cell the given state and every other cell its old state |
| Rules.Flip | life/js/index.js:129 | flipping a cell negates that cell and leaves every other cell and the board's shape as they were |
| Rules.ApplyFlips | life/js/index.js:129 | flipping a list of cells one after another keeps the board's shape |
| Rules.ApplyFlipsAt | life/js/index.js:129 | flipping a duplicate-free list of cells one after another flips exactly the listed cells |
| Rules.FlipOrderIrrelevant | life/js/index.js:116-129 | two duplicate-free lists of the same cells flip the board alike, so the collection order does not matter |
| Rules.BatchFlipIsNextGen | life/js/index.js:116-129 | flipping exactly the cells that should die or be born, all decided on the board before any flip, yields the next generation |
| Rules.EncodeColumnAt | life/js/index.js:86-88 | a column's text has one character per cell, '1' exactly for live cells |
| Rules.EncodeLength | life/js/index.js:82-92 | the board's text has cellsWidth * cellsHeight characters |
| Rules.EncodeAt | life/js/index.js:82-92 | the character at x * cellsHeight + y is '1' if cell (x, y) is live and '0' otherwise |
| Rules.EncodeBinary | life/js/index.js:82-92 | the text holds only '0' and '1' |
| Rules.LoadNothing | life/js/index.js:66-80 | reading no character changes no cell |
| Rules.LoadOneMore | life/js/index.js:66-75 | reading the character at position k * cellsWidth + j sets cell (k, j) live exactly when that character is '1', and changes nothing else |
| Rules.SameIndex | life/js/index.js:67-73 | in chunks of cellsWidth, every position of the text names one (chunk, offset) pair, so no two characters set the same cell |
| Rules.LoadEncodeRoundTrip | life/js/index.js:66-92 | on a square board, the board's text fits the board, and reading it into any board of the same size gives the saved board back, every cell set from the text |
| Rules.AddressableExact | life/js/index.js:67-73 | a text of n characters fits a cellsWidth x cellsHeight board exactly when every position p has chunk number p / cellsWidth below cellsWidth and offset p % cellsWidth below cellsHeight, so the precondition of LoadCells excludes only texts that reach a missing cell |
| Rules.EncodeAddressableIffSquare | life/js/index.js:66-92 | a board's own text reaches only existing cells exactly when the board is square or empty |
| Rules.Dead | life/js/index.js:23-30 | the starting board has cellsWidth columns of cellsHeight cells, all dead |
| Engine.ChunkInRange | life/js/index.js:67-73 | in a text that fits the board, every chunk start i is below cellsWidth * cellsWidth, so the chunk number i / cellsWidth names an existing column |
| Engine.Field.constructor | life/js/index.js:17-20 | the board is floor(width / 8) by floor(height / 8) cells, all dead, and not running |
| Engine.Field.StartCells | life/js/index.js:23-30 | a fresh table of the given size in which every cell is dead |
| Engine.Field.GetCell | life/js/index.js:141-143 | returns the state of cell (x, y) |
| Engine.Field.SetCell | life/js/index.js:135-139 | cell (x, y) takes the given state, and no other cell changes |
| Engine.Field.SurroundingCount | life/js/index.js:163-199 | the edge-guarded count equals the reference number of live cells among the in-bounds Moore neighbours |
| Engine.Field.CollectChanges | life/js/index.js:116-127 | lists each cell at most once, and exactly the cells that should die or be born on the untouched board |
| Engine.Field.Step | life/js/index.js:116-129 | the new board is the next generation of the old one, with the same dimensions |
| Engine.Field.GetCellsString | life/js/index.js:82-92 | returns the board's text: column after column, one '0'/'1' per cell |
| Engine.Field.LoadCells | life/js/index.js:66-80 | when every character reaches a cell, cell (k, j) is set live exactly when the character at k * cellsWidth + j is '1', every other cell keeps its state, and the simulation is stopped |
| Engine.Field.LoadChunk | life/js/index.js:68-74 | one chunk of cellsWidth characters sets its column, character j to row j |
| Engine.Field.Run | life/js/index.js:145-147 | the simulation runs |
| Engine.Field.Stop | life/js/index.js:149-151 | the simulation is stopped |
| Controls.Page.constructor | life/js/index.js:3-5 | no gesture under way, no cell painted yet, a fresh dead board that is not running |
| Controls.Page.Tick | life/js/index.js:222-227 | a tick advances the board by one generation when the simulation runs, and leaves it alone otherwise |
| Controls.Page.MouseDown | life/js/index.js:278-294 | the gesture starts; its paint value is the opposite of the pressed cell's state unless one is still set; that cell is painted with it and becomes the current cell |
| Controls.Page.MouseMove | life/js/index.js:262-276 | while the button is down, a cell other than the current one is painted with the gesture's value and becomes current; otherwise nothing changes |
| Controls.Page.MouseUp | life/js/index.js:296-299 | the gesture ends and its paint value is cleared |
| Controls.Page.Drag | life/js/index.js:262-299 | after press, moves and release, every cell on the path holds the opposite of the first cell's former state, every other cell is unchanged, the paint value is cleared, and the last cell of the path is the current cell |

## Left out

- Drawing is not modelled: `clean`, `draw`, the cell colour and the grid lines are canvas side effects. For the same reason `cellSize` is a constant 8: the model never converts pixels.
- `saveCells` is not modelled: it wraps the text from `getCellsString` in JSON and downloads it, which is browser I/O. The text itself is modelled.
- The file-input handler is not modelled: it reads a file, parses it as JSON, resizes the canvas and overwrites `cellSize`, all host I/O and a foreign parser. It does not recompute `cellsWidth`/`cellsHeight`, so `LoadCells` always reads with the board's existing size.
- The timer and speed slider are not modelled: `setTimeout` and the slider's wiring are host scheduling. One turn of `loop` is `Controls.Page.Tick`.
- The pixel-to-cell conversion in the mouse handlers is not modelled: it uses `getBoundingClientRect` and `Math.floor` on fractional pixel positions. The handlers take integer cell coordinates instead.
- DOM lookups and event-listener registration are not modelled; they are host plumbing.
- Engine.Field.GetCell: requires an existing cell; what `getCell` does off the board (throw on a missing column, `undefined` on a missing row) is described under Engine.Field.SetCell below. A cell is modelled by its `active` flag. A cell's identity is its position, `(x, y)`, which is what `currentCell` holds.
- Engine.Field.SetCell: requires an existing cell. On a column outside the board `getCell` throws; on an existing column but a row outside the board it returns `undefined`, and the assignment to its `active` then throws. The state is a boolean, so a `null` status is not modelled. The default argument is never used, but mousemove passes a `null` paint value after a failed press (see below); the rest of the code treats that `null` as a dead cell.
- Engine.Field.LoadCells: requires `Addressable`. Outside it, the source either loops forever (empty board width with a non-empty text) or fails on a missing cell after setting some cells. Neither behaviour is modelled.
- Engine.Field.LoadCells: the text is a Dafny `string`, indexed by Unicode character, while `length`, `substr` and `rowString[j]` in the source count UTF-16 code units. A character outside the Basic Multilingual Plane is one position in the model but two in the source: it loads there as two dead cells and shifts every later cell by one. Texts written by `getCellsString` hold only '0' and '1', so the round trip is unaffected.
- Controls.Page.MouseDown: requires the pressed cell to exist. The source sets `mouseActive` to true first, then fetches the cell. On a column outside the board `getCell` throws. On an existing column but a row outside the board, the cell is `undefined`, and reading its `active` (or painting it) throws. Every off-board press therefore ends with the button marked down while the paint value is unchanged. If that value was `null`, a later mousemove paints with `null`. `Controls.Page.Valid` rules this state out, and the model does not capture it.
- Controls.Page.MouseMove: requires the cell under the pointer to exist. On a column outside the board `getCell` throws before anything changes. On an existing column but a row outside the board the cell is `undefined`. With the button up, or no cell painted yet (`null != undefined` is false), that is a no-op. With the button down after a painted cell, painting `undefined` throws.
- Controls.Page.Drag: is a composition of the three handlers rather than a source function, and starts from no gesture under way.
