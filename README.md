# ScrollingWaveformCollapse: the Wave Function Collapse engine, modelled in Dafny

The `WaveformCollapse` engine takes a source image and a tile side R and does the following:

1. It cuts the image, and its 90°, 180° and 270° rotations, into R × R blocks ("blobs").
2. It keeps each distinct block once, in a catalog (`uniqueBlobs`).
3. For every block it visits it records which blocks were seen north, east, south and west of it (`patterns`, one `BlobPattern` per visited block).
4. It fills a grid of cells (`Superposition`s) with every catalogued block.
5. It collapses a randomly chosen cell to one random candidate, and prunes the candidates of the surrounding cells until nothing changes.
6. It then repeats the same collapse and pruning on the cell with the fewest candidates, until no cell has more than one candidate.
7. It paints the first candidate of every cell into the output raster.

The project models that engine. Its modules follow the structure of the program:

| file | module | contents |
|---|---|---|
| `wrappers.dfy` | `Wrappers` | `Option` and `Result`. |
| `tiles.dfy` | `Tiles` | Images as read-only rasters (`rows[y][x]`, the pixel `getRGB(x, y)` reads); blocks in row-major order; counting whole tiles along a side. |
| `catalog.dfy` | `Catalog` | `BlobPattern`, and what catalog construction records, stated as plain sets. A *view* is the tiles, pattern keys and direction-labelled edges `(d, a, b)` ("b was seen in direction d from a"). It is given for one visit of a tile coordinate, for a column, for a pass and for all the passes. |
| `superposition.dfy` | `Superpositions` | The `Superposition` class. Its `positions` field is a `seq` the methods reassign. |
| `grid.dfy` | `Grid` | The grid as a value (`Board`: the candidate list of every cell, column by column) and what the solver and the compositor compute from it: the pruning test, recovery, the solver's termination measure (`Total`) and one output pixel (`RenderPixel`). |
| `waveform.dfy` | `Waveform` | Construction checks; the `WaveformCollapse` class. |

The `WaveformCollapse` class holds the following:
- the catalog fields, which its methods update in place;
- `grid`, a `seq<seq<Superposition>>` of distinct objects whose `positions` the solver changes;
- the output raster, an `array2<int>` painted in place.

A ghost field `cells` mirrors the candidate lists of the grid's objects, and `GridValid` keeps the two in step. Every solver method is specified by its effect on `cells`. It is proved to keep the invariants the solver relies on:
- every cell has the grid's shape;
- every candidate comes from the catalog;
- no cell holds more candidates than the catalog has;
- no cell is empty while the catalog is not.

Each method's loops are proved against their specification function:
- `CellView`, `ColumnView`, `GridView` and `PassesView` for catalog construction;
- `FailingAt` and `Uncollapsed` for pruning;
- `RenderPixel` for painting.

Three behaviours of the code differ from textbook Wave Function Collapse, and the model keeps them:
- **Inclusive grid bounds.** The grid loops run over `0..width` and `0..height` inclusively, so the grid has (W + 1) × (H + 1) cells. The painting of the last column and row falls outside the W·R × H·R raster and is clipped.
- **Adjacency symmetry.** It is proved only for square sources (`SquareSourceSymmetric`). Each rotated pass reuses the unrotated image's loop bounds and reads blocks against the rotated image's own bounds. For a source that is not square, symmetry need not hold: `WideSourceAsymmetric` shows a 2 × 1 source with R = 1 whose catalog is not symmetric.
- **Candidates without a pattern.** A candidate that has none is never pruned.

## Model

| member | source | states |
|---|---|---|
| Tiles.BlockAt | src/main/kotlin/Main.kt:324-325 | Pixel (i, j) of the block at tile (gx, gy) is the image pixel (gx·R + i, gy·R + j), and that pixel lies inside the image. This is `getRGB(gx*R, gy*R, R, R, arr, 0, R)` filling `arr` row by row. |
| Tiles.TileInRangeDiv | src/main/kotlin/Main.kt:318-321 | The model's tile-by-tile range test holds exactly when `0 <= gx < width / R` and `0 <= gy < height / R`, the bounds test of getBlobFromGriddedImage. |
| Tiles.WholeIsDiv | src/main/kotlin/Main.kt:292-293 | Counting the whole R-pixel tiles along a side gives `side / R`, the number of tiles a pass visits. |
| Superpositions.WithoutMember | src/main/kotlin/Main.kt:210 | `removeAll(rm)` keeps exactly the candidates that are not in rm. |
| Superpositions.WithoutShrinks | src/main/kotlin/Main.kt:210 | `removeAll` never lengthens the list. It shortens the list exactly when some candidate is in rm, and leaves it unchanged when it does not shorten it. |
| Superpositions.Superposition.constructor | src/main/kotlin/Main.kt:37 | A superposition holds the list it is given. |
| Superpositions.Superposition.Collapsed | src/main/kotlin/Main.kt:39 | `collapsed()` holds exactly when the list is a single tile. |
| Superpositions.Superposition.CollapseTo | src/main/kotlin/Main.kt:41-44 | Afterwards the list is exactly `[blob]`. |
| Superpositions.Superposition.CollapseRandom | src/main/kotlin/Main.kt:46-49 | Needs a non-empty list (indexing element 0 of an empty list fails). Afterwards exactly one candidate is left, and it was one of the old candidates. |
| Superpositions.Superposition.RemoveAll | src/main/kotlin/Main.kt:210 | The new list is the old one with the removed set taken out, in the same order. |
| Superpositions.Superposition.AddAll | src/main/kotlin/Main.kt:214 | The given tiles are appended to the list. |
| Superpositions.Superposition.RemoveOrRecover | src/main/kotlin/Main.kt:210-215 | The list is the old one without rm. If that is empty, it is the fallback list instead. |
| Catalog.CellEdge | src/main/kotlin/Main.kt:337-364 | A visit of (x, y) records edge (d, a, b) exactly when (x, y) is in range, a is its block, and b is the in-range neighbouring block in direction d. |
| Catalog.CellViewUnfold | src/main/kotlin/Main.kt:338-364 | A visit of an in-range tile records four things: its block, its in-range neighbours as tiles, one pattern key, and one edge per in-range neighbour (north, east, south, west). |
| Catalog.EdgesMember | src/main/kotlin/Main.kt:345-364 | An edge (d, a, b) is in the adjacency map exactly when a has a pattern whose side d contains b. |
| Catalog.RecordEdges | src/main/kotlin/Main.kt:345-364 | Adding the present neighbours to the four sets of the tile's pattern (created empty first when missing) adds the tile to the keys. It adds exactly one edge per present neighbour. |
| Catalog.RecordVisit | src/main/kotlin/Main.kt:337-364 | Recording a visit into the pattern map, with `uniqueBlobs` gaining the block and its neighbours, adds exactly that visit's view to the catalog's view. |
| Catalog.VisitRecords | src/main/kotlin/Main.kt:337-364 | After a visit, b is in side d of a's pattern exactly when it already was, or when a is the visited block and b its neighbour in direction d. |
| Catalog.OnlyAdds | src/main/kotlin/Main.kt:345-364 | When the catalog's view grows, every tile stays, and every adjacency set of every pattern keeps all of its members. |
| Catalog.AbsorbKeeps | src/main/kotlin/Main.kt:328-334 | Getting a block keeps `uniqueBlobs` free of repeats. The old list is a prefix of the new one, and the set of tiles grows by exactly the block returned. |
| Catalog.EmptyCatalog | src/main/kotlin/Main.kt:60-61 | A fresh catalog (empty list, empty map) has the empty view. |
| Catalog.ColumnEdgeFrom | src/main/kotlin/Main.kt:296-298 | Every edge of a column's view was recorded by a visit of one of the column's rows. |
| Catalog.ColumnHas | src/main/kotlin/Main.kt:296-298 | Everything a visited cell records is in its column's view. |
| Catalog.GridEdgeFrom | src/main/kotlin/Main.kt:295-299 | Every edge of a pass was recorded by a visit of a coordinate inside the loop bounds. |
| Catalog.GridHas | src/main/kotlin/Main.kt:295-299 | Everything a visited cell records is in its pass's view. |
| Catalog.PassesHas | src/main/kotlin/Main.kt:289-300 | Everything a single pass records is in the view of all the passes. |
| Catalog.PassesEdgeFrom | src/main/kotlin/Main.kt:289-300 | Every edge of the catalog was recorded by one of the passes. |
| Catalog.CellEdgeFlip | src/main/kotlin/Main.kt:340-343 | An edge recorded at (x, y) points to an in-range tile, and the visit of that tile records the edge flipped. |
| Catalog.FullGridCovered | src/main/kotlin/Main.kt:292-293 | The loop bounds `width / R` and `height / R` of a pass over an image cover exactly that image's own tile grid. |
| Catalog.NeighboursAre | src/main/kotlin/Main.kt:340-343 | The four neighbours looked up by a visit of (x, y) are the blocks at (x, y − 1), (x + 1, y), (x, y + 1) and (x − 1, y), each None when off the tile grid. |
| Catalog.FlipAt | src/main/kotlin/Main.kt:295-299 | In a pass that covers its image's tile grid, an edge recorded at one visited tile is recorded flipped in the same pass. |
| Catalog.FlipInPass | src/main/kotlin/Main.kt:295-299 | In a pass that covers its image's tile grid, the flip of every recorded edge is recorded as well. |
| Catalog.FullPassSymmetric | src/main/kotlin/Main.kt:292-299 | A pass over an image's whole tile grid records symmetric adjacency. B is in A's east set exactly when A is in B's west set, and the same holds for north and south. |
| Catalog.FullPassesSymmetric | src/main/kotlin/Main.kt:289-300 | When every pass image has the loop bounds' tile grid, the whole catalog is symmetric. |
| Catalog.SymmetricPatterns | src/main/kotlin/Main.kt:345-364 | On a symmetric catalog, b in side d of a's pattern implies that a is in side opposite(d) of b's pattern. |
| Grid.NeighboursAdjacent | src/main/kotlin/Main.kt:132-137 | getNeighbours lists exactly the four coordinates one step away along a row or a column. |
| Grid.NeighboursDirs | src/main/kotlin/Main.kt:132-137 | The four neighbours come in the order north, east, south, west, the same offsets as the checks of prunePositions. |
| Grid.Uncollapsed | src/main/kotlin/Main.kt:138-145 | The coordinates marked dirty are exactly the adjacent coordinates inside the grid whose cell has more than one candidate. |
| Grid.PruneKeeps | src/main/kotlin/Main.kt:195-210 | A candidate survives pruning exactly when it has no pattern, or when each of its four sides meets the neighbouring cell's candidates (a side with no neighbouring cell always passes). |
| Grid.PruneShrinks | src/main/kotlin/Main.kt:208-217 | Pruning a cell with more than one candidate has four effects. It shortens the list when something fails. It leaves the list alone when nothing fails. It keeps the candidates within the catalog. It never leaves the cell empty while the catalog has a tile. |
| Grid.PruneStep | src/main/kotlin/Main.kt:208-217 | A prune that removes something keeps the board shaped, within the catalog and bounded. It strictly lowers the total candidate count and keeps every cell non-empty. |
| Grid.RecoverOutcome | src/main/kotlin/Main.kt:210-215 | Removing rm and, when nothing is left, adding the fallback tile (none with an empty catalog) is the outcome the pruning specification allows. |
| Grid.KeepsSettledAt | src/main/kotlin/Main.kt:147 | Changing the list of cell (x, y) alone starts the run of boards on which no cell other than (x, y) has grown and no cell with at most one candidate has changed. |
| Grid.KeepsSettledStep | src/main/kotlin/Main.kt:184-217 | Pruning another cell that has more than one candidate down to a shorter list keeps the property that no cell but (x, y) has grown and no cell with at most one candidate has changed. |
| Grid.CollapseStep | src/main/kotlin/Main.kt:147 | Collapsing a cell to one of its candidates keeps the board invariants. It does not raise the total, lowers it when the cell was open, and keeps every cell non-empty. |
| Grid.Full | src/main/kotlin/Main.kt:85-101 | The initial board has (W + 1) × (H + 1) cells, each holding the whole catalog. |
| Grid.FullValid | src/main/kotlin/Main.kt:85-101 | The initial board is within the catalog and bounded by its size. No cell of it is empty when the catalog has a tile. |
| Grid.NoneOpenSettled | src/main/kotlin/Main.kt:103-124 | While the catalog has no more tiles than the entropy sentinel `Int.MAX_VALUE`, a board with no cell the scan would pick has every cell at one candidate or fewer. |
| Grid.SettledSingle | src/main/kotlin/Main.kt:161-174 | A settled board with no empty cell has exactly one candidate in every cell. |
| Grid.RenderAt | src/main/kotlin/Main.kt:234-243 | Output pixel (x·R + i, y·R + j) is pixel (i, j) of the first candidate of cell (x, y), or 0 (black) when the cell has no candidate. |
| Grid.WithinDrawable | src/main/kotlin/Main.kt:237-241 | A board of R × R catalog tiles can be painted: every first candidate has R·R pixels. |
| Grid.CanvasStep | src/main/kotlin/Main.kt:231-245 | Drawing cell (x, y) sets exactly the pixels of its R × R block. It sets them to the cell's tile, or to 0 for an empty cell, and keeps every other pixel. |
| Waveform.CheckDimensions | src/main/kotlin/Main.kt:67-72 | Construction goes ahead exactly when R > 0, R divides both sides of the source, and the output raster has no zero side. Each failure is named and, like the Kotlin messages, carries what caused it: R = 0 fails the remainder; then the width check reports the width and R; then the height check reports the height and R; then the raster reports its two sides. |
| Waveform.Create | src/main/kotlin/Main.kt:66-82 | Construction fails, before any extraction, exactly when a size check fails, and reports that check's error. Its error carries the offending side and R. Otherwise the engine is fresh and holds the given inputs. Its catalog is repeat-free, made of R × R tiles, and has the view of the four passes. No cell can be picked. Below the sentinel every cell has at most one candidate, and exactly one with a non-empty catalog. The image is W·R × H·R with every pixel as `RenderPixel` paints it. |
| Waveform.SquareSourceSymmetric | src/main/kotlin/Main.kt:288-300 | For a square source, the recorded adjacency is symmetric in every direction. |
| Waveform.SingleRowNoNorth | src/main/kotlin/Main.kt:292-298 | Passes whose loop covers a single row of tiles record no north edge. |
| Waveform.WideSourceAsymmetric | src/main/kotlin/Main.kt:289-300 | For a 2 × 1 source with R = 1, the catalog is not symmetric. The quarter-turn pass visits only the top tile of its 1 × 2 image, so the bottom tile is recorded south of the top one but never the reverse. |
| Waveform.NonEmptyCatalog | src/main/kotlin/Main.kt:288-335 | A source holding a whole tile gives a catalog that contains the block at its top-left corner. |
| Waveform.FailingPositions | src/main/kotlin/Main.kt:193-206 | The loop collects exactly the candidates that have a pattern and fail at least one of the four checks. |
| Waveform.DrawTile | src/main/kotlin/Main.kt:240-243 | Painting a tile at (ox, oy) sets each output pixel inside the tile's R × R block to the tile's pixel there, clipped to the raster, and keeps every other pixel. |
| Waveform.WaveformCollapse.constructor | src/main/kotlin/Main.kt:66-82 | After construction these hold: the catalog is repeat-free, made of R × R tiles, and its view is the view of the four passes. No cell can be picked. Every cell has at most one candidate, and exactly one when the catalog is non-empty. The image is W·R × H·R with every pixel as `RenderPixel` paints it. |
| Waveform.WaveformCollapse.Init | src/main/kotlin/Main.kt:74-81 | Running the catalog build, the solve and the rendering in order gives the constructor's final state. |
| Waveform.WaveformCollapse.BuildCatalog | src/main/kotlin/Main.kt:74 | From an empty catalog, `findPatterns(baseImage)` leaves exactly the view of the four passes in the catalog. |
| Waveform.WaveformCollapse.Solve | src/main/kotlin/Main.kt:75-79 | A fresh grid and a random start in `0..W × 0..H` end with no cell the scan would pick. Below the sentinel every cell has at most one candidate, exactly one with a non-empty catalog, and every first candidate can be painted. |
| Waveform.WaveformCollapse.SolveAndRender | src/main/kotlin/Main.kt:75-81 | After the solve and `gridToImage`, no cell can be picked, every cell is settled below the sentinel (a single tile with a non-empty catalog), and every pixel of the W·R × H·R image is the painted grid's. |
| Waveform.WaveformCollapse.Render | src/main/kotlin/Main.kt:81 | The image becomes the painted grid. |
| Waveform.WaveformCollapse.GetBlobFromGriddedImage | src/main/kotlin/Main.kt:317-335 | The result is None off the image's tile grid, and the R × R block otherwise. `uniqueBlobs` gains the block exactly when it was missing, stays repeat-free, and the old list is a prefix of the new one. |
| Waveform.WaveformCollapse.AddBlobPatterns | src/main/kotlin/Main.kt:337-365 | The catalog's view grows by exactly the visit's view, and no adjacency set loses a member. |
| Waveform.WaveformCollapse.VisitColumn | src/main/kotlin/Main.kt:296-298 | The inner loop adds the view of the column's visits. |
| Waveform.WaveformCollapse.VisitGrid | src/main/kotlin/Main.kt:295-299 | The two loops of one pass add the view of the whole pass. |
| Waveform.WaveformCollapse.FindPatterns | src/main/kotlin/Main.kt:288-301 | The four passes add exactly the catalog view, keeping `uniqueBlobs` repeat-free and only growing. |
| Waveform.WaveformCollapse.InitialiseGrid | src/main/kotlin/Main.kt:85-101 | The grid is (W + 1) × (H + 1) fresh, distinct superpositions, each holding a copy of `uniqueBlobs`. |
| Waveform.WaveformCollapse.GetSuperposition | src/main/kotlin/Main.kt:176-182 | The result is None exactly outside the inclusive bounds, and otherwise the cell's superposition, with that cell's candidates. |
| Waveform.WaveformCollapse.UncollapsedNeighbours | src/main/kotlin/Main.kt:138-145 | The result is exactly the in-grid neighbours with more than one candidate. |
| Waveform.WaveformCollapse.FindLowestEntropyCoordinate | src/main/kotlin/Main.kt:103-124 | The result is None exactly when no cell has between 2 and `Int.MAX_VALUE` candidates. Otherwise it is an in-grid such cell with no more candidates than any other such cell. |
| Waveform.WaveformCollapse.PrunePositions | src/main/kotlin/Main.kt:184-218 | Off the grid, or on a cell with at most one candidate, nothing changes and the result is false. Otherwise the result is true exactly when some candidate fails. Only that cell changes: it is pruned or recovered, and the total shrinks. |
| Waveform.WaveformCollapse.RemoveAndRecover | src/main/kotlin/Main.kt:208-215 | Removing the failing candidates, and refilling an emptied cell with one catalog tile, changes only that cell. It keeps the grid invariants and strictly lowers the total. |
| Waveform.WaveformCollapse.PickFallback | src/main/kotlin/Main.kt:214 | `uniqueBlobs.shuffled().take(1)` is empty for an empty catalog and otherwise one tile of the catalog. |
| Waveform.WaveformCollapse.CollapseCell | src/main/kotlin/Main.kt:147 | Only the collapsed cell changes. It ends with one of its candidates, and the total does not grow. |
| Waveform.WaveformCollapse.PropagateStep | src/main/kotlin/Main.kt:150-158 | It takes one dirty coordinate. If pruning changed it, only that cell changed: it had more than one candidate, its new list is the pruning-or-recovery outcome of its failing candidates and is strictly shorter, the total dropped, and its uncollapsed neighbours were added to the dirty set. Otherwise nothing changed and only that coordinate left the dirty set. |
| Waveform.WaveformCollapse.CollapseAndPropagate | src/main/kotlin/Main.kt:126-159 | An empty cell is left alone. Otherwise it ends with exactly one of its old candidates, and the propagation loop ends. No other cell gains candidates, and a cell with at most one candidate is never changed. The total never grows, and it drops when the cell was open. |
| Waveform.WaveformCollapse.Propagate | src/main/kotlin/Main.kt:148-158 | The dirty-set loop ends. The collapsed cell keeps its tile, no other cell grows, cells with at most one candidate are untouched, the total does not grow and no cell empties while the catalog has a tile. |
| Waveform.WaveformCollapse.CollapseAllStartingAt | src/main/kotlin/Main.kt:161-174 | The loop ends with no cell left to pick. Below the sentinel every cell has at most one candidate, and exactly one when the catalog and every cell are non-empty. |
| Waveform.WaveformCollapse.DrawColumn | src/main/kotlin/Main.kt:232-245 | One pass of the inner loop paints the cells of column x and leaves the rest of the canvas as it was. |
| Waveform.WaveformCollapse.GridToImage | src/main/kotlin/Main.kt:224-250 | The output is a fresh W·R × H·R raster. Pixel (x·R + i, y·R + j) is pixel (i, j) of cell (x, y)'s first candidate, or 0 for an empty cell. |

## Left out

- `rotateImage`: the three rotated images are inputs of the model, related to the source only by their sides (`RotationsOf`). The affine drawing is not modelled.
- I/O is not modelled: images are given as pixel rasters. File reading and writing, `saveBlobsToDisk`, the Swing window and timer, and `println` are out of scope.
- `hashCode` is not modelled. Tiles are sequences compared by value, the same equality as `Blob.equals`. `HashSet` and `HashMap` become Dafny sets and maps.
- Randomness is nondeterministic choice: `shuffle()`, `random()`, `shuffled().take(1)`, `nextInt` and the iteration order of `dirty.first()` become `:|`.
- `TYPE_INT_RGB` drops the alpha byte of every painted pixel. The model keeps the pixel value as read.
- `Dimension` fields and pixel values are unbounded naturals and integers. Negative dimensions and 32-bit overflow of `W * R` are not modelled. `gridResolution` is a `nat`, so a negative R is not modelled either: in Kotlin one that divides both sides passes the checks, the passes visit no tile, and `gridToImage` throws when it creates the raster.
- `prepareNextGrid` has an empty body.
- The `forceRandomCollapse` argument of `prunePositions` is never used by the Kotlin code. The model takes it and ignores it.
- The iteration counter `i` of `collapseAllStartingAt` only feeds `println` and is not modelled.
- `Waveform.WaveformCollapse.CollapseAndPropagate`: it requires an in-grid coordinate. Main.kt indexes `grid[x][y]` directly, and every caller passes an in-grid one.
- `Waveform.WaveformCollapse.constructor`: its "exactly one candidate per cell" holds only with a non-empty catalog. It also needs the catalog to have at most `Int.MAX_VALUE` tiles, because the entropy scan starts from that sentinel. `Waveform.NonEmptyCatalog` provides the first condition for any source holding a whole tile.
- `Waveform.Create`: the zero-sized output raster fails in Main.kt only inside `gridToImage`, after the solve. The model reports it with the other construction errors, since nothing of the solve is observable.
- `Catalog.FullPassesSymmetric`: symmetry is proved when every pass has the loop bounds' tile grid (a square source), because otherwise it need not hold (`Waveform.WideSourceAsymmetric`).
- The bound "at most four times pixels / R² unique tiles" and the idempotence of the catalog build are not stated.
