# Dungeon map generator, modelled in Dafny

This project models the dungeon-map pipeline of a small Python/numpy dungeon generator. The pipeline is `dungeon_map_generator`, with the grid allocator `init_tilemap` that it calls. It builds a `uint8` tile grid, square (20 x 20) until it is trimmed, in seven steps:

1. allocate a 20 x 20 zero grid;
2. stamp three seed rectangles with the flag `TEMP` (`room_fill`);
3. erode their edges with a neighbour-count cellular rule (`adj_map`, `room_eroder`);
4. scale every surviving cell to `ROOM` = 16;
5. link adjacent rooms with reciprocal North/East/South/West exit bits (`get_possible_connections`, `get_directions`, `room_random`, `room_connector`);
6. drop every all-zero row and column (`tilemap_trim`);
7. remove pairs of single-exit rooms that point at each other (`room_clear`).

## How the model is built

- Cells are `bv8`, so numpy's `uint8` arithmetic, including its wrap-around, is exact.
- A grid the source changes in place is an `array2<bv8>`. Its value is `Cells(a)`, a `seq<seq<bv8>>` (`Grid`).
- Each in-place stage is a method with loops, proved against a function on `Grid`. The method's postcondition is `Cells(tilemap) == Spec(old(Cells(tilemap)), draws)`. The properties the source promises are lemmas about that function.
- The pure stages (`get_directions`, `get_possible_connections`, `room_random`, `tilemap_trim`) are functions.
- Random draws are parameters:
  - `room_fill`'s three `rand` calls per rectangle are a `BoxDraw` with its range predicate `ValidDraw`.
  - `room_eroder`'s coin flips are boolean oracles, indexed by iteration and cell.
  - `random()` is a `real`.
  - `sample` is CPython's pool algorithm, driven by an integer oracle per cell.
- `DungeonMapGenerator` runs the stages in the source's order on one array until trimming, which allocates a fresh one; `room_clear` runs on that. It ends with the grid `DungeonMap`, which is:
  - reciprocal (every exit bit is answered by the opposite bit on the neighbour);
  - made of the values 0 and 16..31;
  - free of active cells without an exit;
  - free of mutually pointing single-exit pairs.

Modules follow the source: `Constants`, `GeneratorHelpers` (Generator_Helpers.py), and one module per stage of Dungeon_Generator.py: `Fill`, `Erosion`, `Directions`, `Connector`, `Trim`, `Clear`, and `DungeonGenerator` for the composition.

Where a docstring of Dungeon_Generator.py and its code disagree, the model follows the code:
- `adj_map`'s docstring promises "how many neighbors each cell has in orthogonal directions" (Dungeon_Generator.py:55-56), which reads as a zero-padded count. The code does not pad: a cell in the first or last row counts only its horizontal neighbours, a cell in the first or last column only its vertical ones, and corners get 0. `Erosion.AdjCountAtBorder` states this. `Erosion.AdjCountIsPaddedCount` shows that the two readings agree on every cell off the outer ring of a 0/1 grid, and on every cell of the grids the pipeline actually erodes, where the outer ring is empty.
- `tilemap_trim`'s docstring promises "only the bounding box of the room positions" (Dungeon_Generator.py:100). The code removes every all-zero row and column, including those inside the bounding box (`Trim.KeptLines`).
- `get_possible_connections`' docstring promises an array "of same dimensions" (Dungeon_Generator.py:138-139). The code returns an (H-2) x (W-2) array of direction masks (`Connector.PossibleConnections`).

## Model

| member | source | states |
|---|---|---|
| GeneratorHelpers.InitTilemap | Generator_Helpers.py:5-21 | a fresh array with `height` rows and `width` columns (`height` columns when `width` is 0), every cell 0 |
| GeneratorHelpers.FromGrid | Dungeon_Generator.py:104 | fancy indexing allocates: a fresh array holding exactly the selected grid |
| Fill.BoxWithinMargin | Dungeon_Generator.py:32-37 | every drawn rectangle is non-empty and lies within rows and columns 1..17 |
| Fill.XEnd | Dungeon_Generator.py:35-37 | x_e, clamped by `min`: it never passes column 18, and an in-range draw gives a slice of at least one column |
| Fill.Filled | Dungeon_Generator.py:33-38 | defines the grid after the three slice assignments (TEMP on every cell a rectangle covers, the old value elsewhere); its contract keeps the shape |
| Fill.FillRect | Dungeon_Generator.py:38 | the slice assignment sets exactly the cells of the rectangle and leaves every other cell unchanged |
| Fill.RoomFill | Dungeon_Generator.py:20-39 | the grid after the loop is the old grid with TEMP stamped over all three rectangles (`Filled`) |
| Fill.FilledEmptyGrid | Dungeon_Generator.py:32-38 | on the zero 20 x 20 grid: cells are 0 or TEMP, a cell is TEMP iff a rectangle covers it, row and column 0 and the last two rows and columns stay 0 |
| Erosion.CellCount | Dungeon_Generator.py:58-63 | the value adj_map leaves in one cell: vertical pair (rows 1..h-2) plus horizontal pair (columns 1..w-2), times the cell when iso is set, in uint8 |
| Erosion.AdjGrid | Dungeon_Generator.py:58-64 | defines the neighbour-count grid, cell (i, j) holding adj_map's count `AdjCount`; its contract keeps the shape |
| Erosion.AdjMap | Dungeon_Generator.py:58-64 | the whole caller buffer is overwritten with the neighbour-count grid of the tilemap, and the tilemap is untouched |
| Erosion.MaskByBit | Dungeon_Generator.py:63 | iso masking: an inactive cell reads 0, an active one reads its neighbour sum |
| Erosion.AdjCountAtBorder | Dungeon_Generator.py:61-63 | a border-row cell counts only horizontal neighbours, a border-column cell only vertical ones, and corners are 0 |
| Erosion.AdjCountIsPaddedCount | Dungeon_Generator.py:61-63 | on a 0/1 grid, for a cell off the outer ring (for every cell when the ring is empty), the count is the number of active orthogonal neighbours, or 0 for an inactive cell |
| Erosion.ActiveCountMeansNeighbour | Dungeon_Generator.py:61-63 | for an active interior cell of a 0/1 grid the count is nonzero iff one of its four neighbours is active |
| Erosion.ClearWhere | Dungeon_Generator.py:81-87 | one ndenumerate pass sets to WALL exactly the cells whose count equals the target and whose draw says so |
| Erosion.ErodeIteration | Dungeon_Generator.py:80-84 | one loop iteration on values: counts from one snapshot, then the count-2 and count-3 passes; it only ever sets cells to WALL |
| Erosion.Eroded | Dungeon_Generator.py:78-88 | defines room_eroder's result as five iterations and the final pass; its contract keeps the shape |
| Erosion.ErodeStep | Dungeon_Generator.py:80-84 | one iteration of the loop: snapshot counts, then the count-2 pass and the count-3 pass |
| Erosion.FinalStep | Dungeon_Generator.py:85-87 | the final pass clears exactly the cells whose fresh count is 0 |
| Erosion.RoomEroder | Dungeon_Generator.py:78-88 | the grid after five iterations and the final pass is `Eroded` of the input |
| Erosion.ErodeIterationRule | Dungeon_Generator.py:80-84 | within one iteration every decision uses the count snapshot taken at its start; cells whose count is neither 2 nor 3 (1 or 4, say) are never cleared |
| Erosion.ErodedShrinks | Dungeon_Generator.py:78-88 | erosion only ever writes WALL: the active set shrinks, 0/1 grids stay 0/1, an empty ring stays empty |
| Erosion.SurvivesBeside | Dungeon_Generator.py:85-87 | an active cell with an active neighbour survives the final pass |
| Erosion.FinalPassNoIsolated | Dungeon_Generator.py:85-87 | after the final pass (empty ring) no active cell has a count of zero |
| Erosion.ErodedNoIsolated | Dungeon_Generator.py:78-88 | after erosion every active cell is interior and has an active orthogonal neighbour |
| Directions.GetDirections | Dungeon_Generator.py:123-126 | a direction is listed iff its bit is set, and the list is in North, East, South, West order |
| Directions.GetDirectionsUnique | Dungeon_Generator.py:123-126 | that list is the only ordered list of exactly those directions |
| Directions.GetDirectionsIgnoresHighBits | Dungeon_Generator.py:123 | bits 4..7 are ignored: `get_directions(v) == get_directions(v & 15)` |
| Directions.GetDirectionsOfWall | Dungeon_Generator.py:123-126 | 0 gives no direction |
| Directions.GetDirectionsOfCorridor | Dungeon_Generator.py:123-126 | ROOM with the North and South bits gives North, South |
| Directions.GetDirectionsOfCrossing | Dungeon_Generator.py:123-126 | 31 gives all four directions in order |
| Directions.OppositeStepsBack | Dungeon_Generator.py:181-199 | the opposite of the opposite is the direction itself, the opposite step undoes the step, and each direction bit is a single bit among bits 0..3 |
| Connector.Mask4Exits | Dungeon_Generator.py:146-151 | the packed up/right/down/left mask has exactly the set flags as exits and no bit above bit 3 |
| Connector.OrExits | Dungeon_Generator.py:191-199 | the or-assignment of an exit mask adds exactly those exits and keeps bits 4..7 |
| Connector.ConnectionMask | Dungeon_Generator.py:141-152 | the possible-connections entry of an interior cell: up/right/down/left flags packed in bits 0..3, times (cell != 0); nothing above bit 3 |
| Connector.ConnectionMaskExits | Dungeon_Generator.py:141-152 | bit d of an interior cell's entry is set iff the cell is active and its neighbour toward d is active |
| Connector.PossibleConnections | Dungeon_Generator.py:141-153 | an (H-2) x (W-2) grid whose entry (y-1, x-1) is the mask of interior cell (y, x) |
| Connector.RoomRandom | Dungeon_Generator.py:162-165 | the result is 1, 2 or 3 |
| Connector.RoomRandomMonotone | Dungeon_Generator.py:162-165 | a larger draw never gives fewer exits |
| Connector.Sample | Dungeon_Generator.py:189 | exactly k picks, drawn from the pool without reusing a slot |
| Connector.DistinctSubMultiset | Dungeon_Generator.py:189 | picks from a pool without repeats have no repeats |
| Connector.Choice | Dungeon_Generator.py:185-189 | the directions one cell picks: none when it reads 0, otherwise `sample` of its candidates, min(room_random, candidates) of them; never more than three |
| Connector.ChoiceBounds | Dungeon_Generator.py:185-189 | an inactive cell picks nothing; an active one picks distinct candidates, min(room_random, candidates) of them, at most 3, and at least 1 when it has a candidate |
| Connector.ChoicesAreSound | Dungeon_Generator.py:185-189 | every pick leaves an active interior cell toward an active neighbour |
| Connector.InLinksOf | Dungeon_Generator.py:183-190 | the links made are exactly the picks of interior cells |
| Connector.MarkedCell | Dungeon_Generator.py:190-199 | a cell ends with its old exits plus those of the links at either end, its bits 4..7 unchanged, and it is 0 iff it was 0 and no link touches it |
| Connector.HasSymmetric | Dungeon_Generator.py:191-199 | a link marks a cell toward d exactly when it marks the neighbour toward the opposite direction |
| Connector.LinkEndsActive | Dungeon_Generator.py:185-199 | links only join two active cells, both inside the grid |
| Connector.MarkedAnswered | Dungeon_Generator.py:190-199 | on a grid without exit bits of its own, each exit a link sets is answered on the neighbour |
| Connector.ConnectedReciprocal | Dungeon_Generator.py:179-200 | every exit bit set by room_connector is matched by the opposite bit on the neighbour in that direction |
| Connector.NeighbourCandidate | Dungeon_Generator.py:186-187 | an active interior cell with an active neighbour has a candidate direction |
| Connector.ConnectedGivesExit | Dungeon_Generator.py:185-199 | such a cell leaves room_connector with at least one exit |
| Connector.MarkedZero | Dungeon_Generator.py:185-199 | a cell is 0 afterwards iff it was 0 before |
| Connector.ConnectedRoomValues | Dungeon_Generator.py:179-200 | on a 0/ROOM grid, zero cells stay 0 and active cells keep bit 4 and stay in 16..31 |
| Connector.Connected | Dungeon_Generator.py:179-200 | defines room_connector's result: the input with the exits of every interior cell's picks or-ed in at both ends; its contract keeps the shape |
| Connector.MarkStep | Dungeon_Generator.py:191-199 | one link ors its bit into the cell and the opposite bit into the neighbour and changes nothing else |
| Connector.ApplyLink | Dungeon_Generator.py:191-199 | the two in-place or-assignments of one pick |
| Connector.ApplyLinks | Dungeon_Generator.py:190-199 | the inner loop makes exactly the picks of the cell, in order |
| Connector.ConnectCell | Dungeon_Generator.py:185-199 | one cell of the scan: skipped when it reads 0, otherwise its picks are applied |
| Connector.RoomConnector | Dungeon_Generator.py:179-200 | the grid after the scan is `Connected` of the input: the input with the exits of all picks set on both ends |
| Trim.Selected | Dungeon_Generator.py:104 | the selected indices are in range and strictly ascending |
| Trim.SelectedSound | Dungeon_Generator.py:104 | every selected index has its mask bit set |
| Trim.SelectedFinds | Dungeon_Generator.py:104 | every index whose mask bit is set is selected |
| Trim.TilemapTrim | Dungeon_Generator.py:102-105 | the result is rectangular with one row per kept row and one column per kept column |
| Trim.KeptLines | Dungeon_Generator.py:102-104 | a row (a column) is kept iff it holds a nonzero cell, interior ones included, in the original order |
| Trim.TrimCell | Dungeon_Generator.py:104 | each result cell is the original cell at its kept row and kept column |
| Trim.TrimKeepsNonzero | Dungeon_Generator.py:102-105 | every nonzero cell of the input appears in the result |
| Trim.TrimNeighbour | Dungeon_Generator.py:102-105 | a nonzero neighbour of a kept cell is still its neighbour after trimming |
| Trim.TrimReciprocal | Dungeon_Generator.py:102-105 | trimming keeps reciprocity |
| Trim.TrimNonzeros | Dungeon_Generator.py:102-105 | the multiset of nonzero values is unchanged |
| Trim.PickSelectedTotal | Dungeon_Generator.py:104 | when every item whose mask bit is clear weighs nothing, the selected items weigh as much as all items |
| Clear.SingleExitBits | Dungeon_Generator.py:215-216 | 17, 18, 20 and 24 are ROOM with exactly one exit, and dir_dict steps toward that exit |
| Clear.Target | Dungeon_Generator.py:215-221 | the cell numpy reads for a single-exit cell: its neighbour through its one exit, with an index of -1 read from the far end |
| Clear.ClearStep | Dungeon_Generator.py:218-223 | defines one step of the scan (a single-exit cell whose in-grid target is single-exit is zeroed with it); its contract keeps the shape |
| Clear.ClearStepClears | Dungeon_Generator.py:218-223 | a step sets only single-exit cells to 0 and changes nothing else |
| Clear.ClearStepInBounds | Dungeon_Generator.py:218-223 | a step keeps every single-exit target inside the grid |
| Clear.ClearStepPairs | Dungeon_Generator.py:221-223 | a cell is cleared exactly when the cell it points at is, and no third cell changes |
| Clear.ClearFrom | Dungeon_Generator.py:217-223 | defines the rest of the row-major scan from cell (i, j), each step reading the grid the earlier steps left; its contract keeps the shape |
| Clear.ClearFromClears | Dungeon_Generator.py:217-223 | the scan only ever sets single-exit cells to 0 |
| Clear.Pruned | Dungeon_Generator.py:215-224 | room_clear only clears single-exit cells and leaves every target in bounds |
| Clear.SettledKept | Dungeon_Generator.py:217-223 | clearing single-exit cells never unsettles a cell |
| Clear.StepSettles | Dungeon_Generator.py:217-223 | after the step at a cell, that cell and all earlier ones are settled |
| Clear.ClearFromSettles | Dungeon_Generator.py:217-223 | the rest of the scan settles every cell |
| Clear.PrunedSettles | Dungeon_Generator.py:215-224 | afterwards no single-exit cell points at another single-exit cell |
| Clear.OutOfRangeClearedFirst | Dungeon_Generator.py:217-223 | [[18, 18]] is not `InBounds`, yet the live scan zeroes its pair at (0, 0) before reading (0, 1) and returns [[0, 0]] |
| Clear.ReciprocalInBounds | Dungeon_Generator.py:219-221 | under reciprocity no target leaves the grid, so the scan raises no IndexError |
| Clear.MutualPair | Dungeon_Generator.py:219-221 | under reciprocity a single-exit cell points at its neighbour through its exit, which points back when it is single-exit too |
| Clear.ZeroPairReciprocal | Dungeon_Generator.py:222-223 | clearing two mutually pointing single-exit neighbours keeps reciprocity |
| Clear.ClearStepReciprocal | Dungeon_Generator.py:218-223 | a step keeps reciprocity |
| Clear.ClearFromReciprocal | Dungeon_Generator.py:217-223 | the rest of the scan keeps reciprocity |
| Clear.PrunedReciprocal | Dungeon_Generator.py:215-224 | room_clear keeps reciprocity and never goes out of bounds |
| Clear.ClearCell | Dungeon_Generator.py:218-223 | one cell of the scan on the live array |
| Clear.ClearRow | Dungeon_Generator.py:217-223 | one row of the row-major scan: the array afterwards is the row's steps applied in column order (`ScanRow`) |
| Clear.ScanRow | Dungeon_Generator.py:217-223 | defines the steps of one row from column x to its end, in column order; its contract keeps the shape |
| Clear.ScanRowThenRest | Dungeon_Generator.py:217-223 | the scan from the start of row y is that row's steps followed by the scan from row y + 1 |
| Clear.RoomClear | Dungeon_Generator.py:215-224 | the array after the scan is `Pruned` of the input |
| DungeonGenerator.Scaled | Dungeon_Generator.py:235 | defines `tilemap *= 16` on values (every cell times 16 in uint8); its contract keeps the shape |
| DungeonGenerator.Times16Binary | Dungeon_Generator.py:235 | scaling maps TEMP to ROOM and WALL to WALL, with no exit bits |
| DungeonGenerator.ScaledRooms | Dungeon_Generator.py:235 | after `tilemap *= 16` a 0/1 grid holds only 0 and ROOM |
| DungeonGenerator.ScaleRooms | Dungeon_Generator.py:235 | the in-place multiplication, cell by cell |
| DungeonGenerator.SeededShape | Dungeon_Generator.py:232-235 | before connecting: 20 x 20, only 0 and ROOM, empty outer ring, every room interior with an active neighbour |
| DungeonGenerator.ConnectedRooms | Dungeon_Generator.py:235-236 | connecting such a grid keeps the ring empty and the values in {0, 16..31}, and makes it reciprocal |
| DungeonGenerator.ConnectedLinked | Dungeon_Generator.py:234-236 | after connecting, every room has at least one exit |
| DungeonGenerator.UntrimmedShape | Dungeon_Generator.py:232-236 | before trimming: 20 x 20, empty ring, values in {0, 16..31}, reciprocal, every room with an exit |
| DungeonGenerator.CellsFrom | Dungeon_Generator.py:237 | a grid made of cells of such a grid keeps the value and exit properties |
| DungeonGenerator.ClearedKeeps | Dungeon_Generator.py:238 | clearing single-exit cells keeps the value and exit properties |
| DungeonGenerator.DungeonMap | Dungeon_Generator.py:226-239 | the stages composed on values; the result is the trimmed grid with only single-exit cells cleared |
| DungeonGenerator.DungeonMapShape | Dungeon_Generator.py:232-238 | the final map is reciprocal, holds only 0 and 16..31, gives every room an exit and has no mutually pointing single-exit pair |
| DungeonGenerator.DungeonMapGenerator | Dungeon_Generator.py:226-239 | the pipeline returns a fresh array holding `DungeonMap` of the draws, with those four properties |

## Left out

- GeneratorHelpers.InitTilemap: the sizes are `nat`, so the ValueError numpy raises for a negative height or width is not modelled; the pipeline only passes DUNGEON_SIZE = 20.
- Randomness: `rand`, `random` and `sample` are parameters (oracles). Only room_fill's draws carry a range precondition (`ValidDraw`); the other oracles are left unconstrained (any real for `random`, any natural reduced modulo the pool size for `sample`, any boolean for the erosion coin flips), which over-approximates the draws. The weights 60/25/15 and the 1/2 and 1/10 erosion odds are not modelled.
- Connector.RoomRandom: the float `random()` is a Dafny `real`, so floating-point rounding near 0.60 and 0.85 is not modelled.
- Connector.Sample: only CPython's pool branch of `random.sample` (pools of at most 21 elements, always the case for four directions) is modelled. `randbelow(n)` is an oracle value reduced modulo n.
- Directions.GetDirections: takes a `bv8` cell value rather than an unbounded Python int, and returns `Direction` values rather than the strings "North" … "West".
- Erosion.AdjMap: numpy's four vectorised slice steps (`fill`, `=`, `+=`, `*=`) are one row-major pass that does the same uint8 arithmetic per cell. The intermediate buffer states between the numpy statements are not modelled.
- Fill.RoomFill: requires the 20 x 20 grid the pipeline passes. The width formula hard-codes 16 and can produce negative slice ends on larger grids; that case is not modelled.
- Clear.RoomClear: requires `InBounds`: no single-exit cell points past the last row or column. This is stronger than "no IndexError". numpy only raises when the scan reaches such a cell while it is still single-exit, so a grid like [[18, 18]], whose pair is zeroed at (0, 0) before (0, 1) is read, returns [[0, 0]] without error but is excluded (`Clear.OutOfRangeClearedFirst`). The exception itself is not modelled. The pipeline always meets the requirement (`Clear.ReciprocalInBounds`). A step toward row or column -1 wraps, as in numpy.
- Plotting, printing and timing (`_make_exit_map`, `_on_click`, `_debug`, `_main`) are not modelled.
- Room_Generator.py is not part of this model: its `room_map_generator` only returns a zero grid.
- Graph connectivity of the rooms is not modelled: the code promises none.
- Constants.py is copied as Dafny constants.
- Aliasing between the returned array and its input: the pipeline allocates its own grid, and trimming allocates a fresh one (`GeneratorHelpers.FromGrid`).
