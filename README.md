# chain-triangle-chess: the lattice game engine in Dafny

This project models the integer core of *chain-triangle-chess*, a board game on a triangular lattice. It also proves properties of that model.

## The game

- **Vertices.** The lattice points are vertices `(Row, Col)`. A grid of `size` rows has the vertices with `0 <= Col <= Row <= size`.
- **Cells.** Each cell is a small triangle, named `Position(Row, Index)` with `0 <= Index <= 2*Row`.
  - An even index points up. Its corners are `(r, c), (r+1, c), (r+1, c+1)`, where `c = Index / 2`.
  - An odd index points down. Its corners are `(r, c+1), (r, c), (r+1, c+1)`.
- **Bands.** A player stretches a band between two vertices. The vertices must share a row, a column, or the difference `Row - Col`. The band covers every unit edge of the straight walk between its ends.
- **Pegs.** A `Piece` (a peg) is placed on every cell whose three sides are all covered. It is always white.
- **Reachability.** A breadth-first search over the adjacency relation ("shares a cell") lists the vertices exactly three hops away, sorted by row and then column.

Two older integer encodings of the same board are modelled too, and the model proves that they agree with it:

- the pegs `(Row, Col, Tag)` and studs of `TriangularBoard`;
- the expanded `TriangleCoord(Row, Col, PointUp)` of `TriangleGeometry`. It files a down triangle under the row above.

## Modules

| module | file | models |
|---|---|---|
| `Wrappers` | wrappers.dfy | `Option`, `Result` and `Outcome` (modelling a thrown exception) |
| `CsInt` | cs_int.dfy | C#'s truncating `/` and `%`, and `int.ToString()` |
| `Collections` | collections.dfy | distinctness and elements of sequences |
| `Records` | records.dfy | the value records `Vertex`, `Stud`, `Peg` and `TriangleCoord`, and the `(Row, Col)` order |
| `Cells` | cells.dfy | `Position` and `Piece` |
| `Grid` | grid.dfy | `TriangleGrid` except its search |
| `Reach` | reach.dfy | the search of `GetReachableVertices` |
| `Bands` | bands.dfy | `GetBandPath` and band coverage |
| `Board` | board.dfy | the class `TriangleBoard` (src/ctc/TriangleBoard.cs) |
| `Scenarios` | scenarios.dfy | the size-9 boards of the unit tests |
| `TriangularBoard` | triangular_board.dfy | pegs, studs and conversions of src/ctc/Models/TriangularBoard.cs |
| `TriangleGeometry` | triangle_geometry.dfy | studs, triangle coordinates and corner studs of src/ctc/Models/TriangleGeometry.cs |
| `Encodings` | encodings.dfy | how the two older encodings line up with `Position`/`Vertex` |

`TriangleBoard` copies `GetTriangleVertices`, `HasEdge`, `GetAdjacentVertices`, `GetReachableVertices` and `IsValidVertex` from `TriangleGrid`, apart from reading the size and the cells from its geometry (and keeping `IsValidVertex` private). Each is modelled once, in `Grid` or `Reach`.

The loops of the source are `while` loops in Dafny methods, each proved against a specification function:

- `HasEdge`, `GetAdjacentVertices`, the search, and `GetBandPath`;
- `HasBandBetween`, `IsTriangleSurrounded`, `GetTrianglesTouching`, and the rescan in `AddBand`.

Where the source iterates a `HashSet`, the model picks an arbitrary element, so every proof holds for any iteration order.

## Model

| member | source | states |
|---|---|---|
| Cells.PointUpIffEven | src/ctc/Models/Position.cs:5 | a cell points up exactly when its index is even, and down exactly when it is odd (including negative indices, under C#'s `%`) |
| Cells.ToStringShape | src/ctc/Models/Position.cs:6 | `ToString` is `(Row,Index)` followed by one glyph; it starts with `(`; the glyph is △ exactly for up cells and ▽ exactly for down cells |
| Cells.ToStringInjective | src/ctc/Models/Position.cs:3-6 | two positions with the same text are equal, so the text identifies a cell as record equality does |
| Cells.Position.PointUp | src/ctc/Models/Position.cs:5 | `Index % 2 == 0` with C#'s remainder; `PointUpIffEven` states it as even versus odd for every sign |
| Cells.Position.ToString | src/ctc/Models/Position.cs:6 | the cell's text; `ToStringShape` gives its layout and glyph, `ToStringInjective` shows it identifies the cell |
| Cells.Piece.Row | src/ctc/Models/Piece.cs:6 | the row of the piece's position; stated in `PieceContract` |
| Cells.Piece.Index | src/ctc/Models/Piece.cs:7 | the index of the piece's position; stated in `PieceContract` |
| Cells.Piece.FromPair | src/ctc/Models/Piece.cs:9 | the `(Row, Index)` tuple conversion; `PieceContract` states its position and default colour |
| Cells.Piece.FromTriple | src/ctc/Models/Piece.cs:10 | the `(Row, Index, Color)` tuple conversion; `PieceContract` states its position and that the colour is kept |
| Cells.PieceContract | src/ctc/Models/Piece.cs:3-10 | a piece made from a position alone is white and `Row`/`Index` are its position's; the pair conversion gives `Position(row, index)` in white; the triple conversion keeps the given colour and builds the same position |
| CsInt.DivRemTwo | src/ctc/Models/TriangleGrid.cs:33 | truncating division by two: `n == 2*(n/2) + n%2`; it agrees with Euclidean division for `n >= 0`; for negative `n` it rounds toward zero and the remainder lies in -1..0 |
| CsInt.DivTwoOfEven | src/ctc/Models/TriangularBoard.cs:169-175 | halving `2c` gives `c` with remainder 0, for every sign of `c` |
| CsInt.DivTwoOfOdd | src/ctc/Models/TriangularBoard.cs:169-178 | `2c+1` has a non-zero remainder, and halving it gives `c` for `c >= 0` but `c+1` for negative `c` |
| CsInt.IntToStringInjective | src/ctc/Models/Position.cs:6 | the decimal text of an integer determines the integer |
| CsInt.ParseNatToString | src/ctc/Models/Position.cs:6 | parsing the digits of a natural number's text gives the number back |
| Records.VertexLessStrictTotal | src/ctc/Models/TriangleGrid.cs:135 | the `(Row, Col)` order used to sort is irreflexive, transitive and total on distinct vertices |
| Records.SortedDistinct | src/ctc/Models/TriangleGrid.cs:135 | a sequence sorted strictly by `(Row, Col)` has no repeated vertex |
| Grid.TrianglePositions | src/ctc/Models/TriangleGrid.cs:11-24 | the cells of the grid row by row; `TrianglePositionsMembers`, `TrianglePositionsCount`, `TrianglePositionsSorted` and `TrianglePositionsDistinct` state its contents, size and order |
| Grid.TrianglePositionsMembers | src/ctc/Models/TriangleGrid.cs:11-24 | `TrianglePositions` yields exactly the cells with `0 <= row < size` and `0 <= index <= 2*row` |
| Grid.TrianglePositionsCount | src/ctc/Models/TriangleGrid.cs:11-24 | a grid of `size` rows enumerates `size*size` cells |
| Grid.TrianglePositionsSorted | src/ctc/Models/TriangleGrid.cs:16-21 | the cells come row-major: strictly ascending by row, then by index |
| Grid.TrianglePositionsDistinct | src/ctc/Models/TriangleGrid.cs:11-24 | no cell is enumerated twice |
| Grid.IsValidVertex | src/ctc/Models/TriangleGrid.cs:141-145 | the bound `0 <= row <= size`, `0 <= col <= row`; `CellVerticesValid`, `AdjacentValid` and `StudsAreValidVertices` relate it to the cells, the neighbours and the studs |
| Grid.GetTriangleVertices | src/ctc/Models/TriangleGrid.cs:29-53 | always three corners; `CornersOfCell` gives them for up and down cells, `DistinctCorners` shows they differ, `CellVerticesValid` that they are valid |
| Grid.CornersOfCell | src/ctc/Models/TriangleGrid.cs:29-53 | for a non-negative index, the corners are `(r,c),(r+1,c),(r+1,c+1)` for an up cell and `(r,c+1),(r,c),(r+1,c+1)` for a down cell, where `c = index/2` |
| Grid.CellVerticesValid | src/ctc/Models/TriangleGrid.cs:29-53 | every enumerated cell has three distinct corners, each of them a valid vertex |
| Grid.HasEdge | src/ctc/Models/TriangleGrid.cs:58-70 | the loop returns true exactly when `(v1, v2)` is one of the three consecutive corner pairs (wrapping round), in either order |
| Grid.EdgeOfAsSets | src/ctc/Models/TriangleGrid.cs:58-70 | an edge is found iff `{v1, v2} = {vs[i], vs[(i+1)%3]}` for some `i`; the test is symmetric in `v1` and `v2` |
| Grid.GetAdjacentVertices | src/ctc/Models/TriangleGrid.cs:75-97 | the accumulated set is exactly `Adjacent(size, v)`: the other corners of every cell that contains `v` |
| Grid.AddOtherCorners | src/ctc/Models/TriangleGrid.cs:86-92 | the inner loop adds to the set exactly the cell's corners other than `v` |
| Grid.AdjacentInIff | src/ctc/Models/TriangleGrid.cs:80-94 | after scanning a list of cells, `u` is in the set iff `u != v` and some scanned cell has both as corners |
| Grid.AdjacentSpec | src/ctc/Models/TriangleGrid.cs:75-97 | `u` is adjacent to `v` iff `u != v` and they share a cell of the grid |
| Grid.AdjacentIrreflexive | src/ctc/Models/TriangleGrid.cs:88 | no vertex is its own neighbour |
| Grid.AdjacentValid | src/ctc/Models/TriangleGrid.cs:75-97 | a vertex with a neighbour, and the neighbour, are both valid vertices |
| Grid.AdjacentOfIsolated | src/ctc/Models/TriangleGrid.cs:75-97 | a vertex that no cell contains has no neighbours |
| Grid.AdjacentSymmetric | src/ctc/Models/TriangleGrid.cs:75-97 | `u` is a neighbour of `v` iff `v` is a neighbour of `u` |
| Grid.AdjacentIsClose | src/ctc/Models/TriangleGrid.cs:75-97 | neighbours differ by at most one in row and in column |
| Grid.CornersAreAdjacent | src/ctc/Models/TriangleGrid.cs:75-97 | any two different corners of an enumerated cell are neighbours |
| Grid.DistinctCorners | src/ctc/Models/TriangleGrid.cs:29-53 | the three corners of any cell are pairwise different |
| Grid.EdgeCellsSpec | src/ctc/Models/TriangleGrid.cs:29-70 | for a cell with a non-negative index, `{v1, v2}` is one of its edges iff the cell is one of the (at most two) cells the edge determines |
| Grid.EdgeCellsAtMostTwo | src/ctc/Models/TriangleGrid.cs:29-70 | an edge belongs to at most two cells |
| Grid.CellsWithEdgeMembers | src/ctc/TriangleBoard.cs:84-96 | filtering a cell list by `HasEdge` keeps exactly the listed cells having `{v1, v2}` as an edge |
| Grid.CellsWithEdgeSorted | src/ctc/TriangleBoard.cs:84-96 | the filter keeps the cells in their enumeration order |
| Grid.TouchingMembers | src/ctc/TriangleBoard.cs:84-96 | the cells touching an edge are exactly its edge cells that lie in the grid |
| Grid.TouchingCount | src/ctc/TriangleBoard.cs:84-96 | at most two cells touch an edge, and the count equals the number of its edge cells in the grid |
| Grid.NeighboursTouchSomeCell | src/ctc/TriangleBoard.cs:84-96 | the edge between two neighbours touches at least one cell |
| Reach.WithinByWalks | src/ctc/Models/TriangleGrid.cs:103-136 | the vertices within `k` hops of the start are exactly the ends of walks of at most `k` steps |
| Reach.AtDistanceByWalks | src/ctc/Models/TriangleGrid.cs:103-136 | for `k > 0`, a vertex is at distance exactly `k` iff a walk of at most `k` steps reaches it and no shorter walk does |
| Reach.AtDistanceHasWalk | src/ctc/Models/TriangleGrid.cs:103-136 | every vertex at distance `k` is reached by a walk of exactly `k` steps |
| Reach.StartNotAtDistance | src/ctc/Models/TriangleGrid.cs:105-107 | the start vertex is never at a positive distance from itself, so the result never contains it |
| Reach.EmptyLevelStaysEmpty | src/ctc/Models/TriangleGrid.cs:111-133 | once a level of the search is empty, every later level is empty |
| Reach.AtDistanceValid | src/ctc/Models/TriangleGrid.cs:103-136 | every vertex at a positive distance is a valid vertex of the grid |
| Reach.AtDistanceIsClose | src/ctc/Models/TriangleGrid.cs:103-136 | a vertex at distance `k` lies within `k` rows and `k` columns of the start |
| Reach.EnqueueUnvisited | src/ctc/Models/TriangleGrid.cs:124-131 | marking before enqueueing: the visited set grows by the neighbours, and exactly the previously unvisited ones are queued, each once, at the next distance |
| Reach.GetReachableVertices | src/ctc/Models/TriangleGrid.cs:103-136 | the result holds exactly the vertices at distance 3 from `from`, sorted strictly by `(Row, Col)` and so without duplicates |
| Reach.SortByRowCol | src/ctc/Models/TriangleGrid.cs:135 | sorting a set gives its elements, strictly ascending by `(Row, Col)` |
| Bands.Collinear | src/ctc/TriangleBoard.cs:47-68 | the ends share a row, a column or `row-col`; `BandPathFails` shows it is exactly the condition under which a band is accepted |
| Bands.Delta | src/ctc/TriangleBoard.cs:47-68 | a delta is chosen iff the ends are collinear, and it is then one of the six unit steps (equal signs on the diagonal) |
| Bands.BandPath | src/ctc/TriangleBoard.cs:40-79 | the path fails iff the ends share no row, column or `row-col`, and then carries the refused ends; otherwise it has `max(|drow|,|dcol|)+1` vertices and runs from `from` to `to` |
| Bands.GetBandPath | src/ctc/TriangleBoard.cs:40-79 | the delta choice, the throw and the `while (current != to)` walk compute exactly `BandPath` |
| Bands.StepTo | src/ctc/TriangleBoard.cs:70-78 | the walk ends at `to` after `Span` unit steps of the chosen delta |
| Bands.BandPathSteps | src/ctc/TriangleBoard.cs:47-76 | every step of a path is the same unit delta: (0,±1), (±1,0), (1,1) or (-1,-1) |
| Bands.BandPathReverse | src/ctc/TriangleBoard.cs:47-76 | the path from `to` to `from` exists and is the reverse of the path from `from` to `to` |
| Bands.BandPathFails | src/ctc/TriangleBoard.cs:65-68 | the band is refused exactly when the ends differ in row, in column and in `row-col` |
| Bands.RowPath | src/ctc/TriangleBoard.cs:47-52 | a band three columns along a row visits the four vertices of that row in order |
| Bands.DiagonalPathFrom | src/ctc/TriangleBoard.cs:59-64 | a band three steps along the diagonal `(+1,+1)` visits the four diagonal vertices in order |
| Bands.ColumnPath | src/ctc/TriangleBoard.cs:53-58 | a band three rows down a column visits the four vertices of that column in order |
| Bands.UnitPath | src/ctc/TriangleBoard.cs:53-58 | a band one row down is the two-vertex path |
| Bands.HorizontalPath | tests/ctc.tests/BandPathTests.cs:18-31 | (4,0)-(4,3) yields (4,0),(4,1),(4,2),(4,3) |
| Bands.DiagonalPath | tests/ctc.tests/BandPathTests.cs:34-47 | (4,1)-(7,4) yields (4,1),(5,2),(6,3),(7,4) |
| Bands.AntiDiagonalPath | tests/ctc.tests/BandPathTests.cs:50-63 | (4,2)-(7,2) yields (4,2),(5,2),(6,2),(7,2) |
| Bands.CoveredSymmetric | src/ctc/TriangleBoard.cs:179-182 | an edge is covered from `v1` to `v2` iff it is covered from `v2` to `v1` |
| Bands.CoveredAppend | src/ctc/TriangleBoard.cs:171-188 | after appending a band, an edge is covered iff it was covered before or the new band covers it |
| Bands.CoveredMonotone | src/ctc/TriangleBoard.cs:171-188 | a covered edge stays covered whatever bands are appended |
| Bands.BandCoversAlongDelta | src/ctc/TriangleBoard.cs:171-188 | a band covers only edges along its own delta, in one direction or the other |
| Bands.CoveredIsUnitStep | src/ctc/TriangleBoard.cs:171-188 | only unit lattice edges can be covered |
| Board.Surrounded | src/ctc/TriangleBoard.cs:147-164 | all three sides of the cell are covered; `SideUncovered` and `SidesAllCovered` tie it to the early-exit loop, `SurroundedMonotone` and `OneBandMissesCell` state how it depends on the bands |
| Board.SurroundedMonotone | src/ctc/TriangleBoard.cs:147-164 | appending bands never frees a surrounded cell |
| Board.RepeatedBandSurroundsNothing | src/ctc/TriangleBoard.cs:17 | storing a band a second time (no de-duplication) surrounds no new cell |
| Board.OneBandSurroundsNothing | tests/ctc.tests/TriangleBoardTests.cs:61-71 | a single straight band surrounds no cell |
| Board.OneBandMissesCell | src/ctc/TriangleBoard.cs:147-164 | no cell has all three sides covered by one band |
| Board.SideUncovered | src/ctc/TriangleBoard.cs:155-159 | when one side has no band, the cell is not surrounded (the early `return false`) |
| Board.SidesAllCovered | src/ctc/TriangleBoard.cs:152-163 | when all three sides have a band, the cell is surrounded |
| Board.NothingSurroundedWithoutBands | src/ctc/TriangleBoard.cs:5-6 | a board without bands surrounds no cell |
| Board.HasPegAtIff | src/ctc/TriangleBoard.cs:27 | `_pegs.Any(p => p.Position == triangle)` holds iff the cell is among the pegged cells |
| Board.PegCount | src/ctc/TriangleBoard.cs:22-32 | with at most one peg per cell, the pegs and the pegged cells are equally many |
| Board.ScanDone | src/ctc/TriangleBoard.cs:22-32 | after the scan the pegged cells are exactly the surrounded ones, and every new peg is on a cell that was not pegged before |
| Board.TriangleBoard.constructor | tests/ctc.tests/TriangleBoardTests.cs:14-16 | a new board has the given size, no bands and no pegs, and satisfies the board invariant |
| Board.TriangleBoard.HasBandBetween | src/ctc/TriangleBoard.cs:171-188 | true exactly when `v1`, `v2` are consecutive, in either order, in the path of some stored band |
| Board.TriangleBoard.IsTriangleSurrounded | src/ctc/TriangleBoard.cs:147-164 | true exactly when all three sides of the cell are covered |
| Board.TriangleBoard.GetTrianglesTouching | src/ctc/TriangleBoard.cs:84-96 | the grid cells having `{v1, v2}` as an edge, in enumeration order, each once, at most two |
| Board.TriangleBoard.AddBand | src/ctc/TriangleBoard.cs:11-33 | keeps the invariant (valid bands; at most one white peg per cell; pegs exactly on the surrounded cells). A refused band fails iff the ends are not collinear and leaves bands and pegs unchanged. Otherwise `(from, to)` is appended to the bands. Old pegs remain a prefix, and every new peg is on a newly surrounded cell |
| Scenarios.TestedEdgesTouchTwoCells | tests/ctc.tests/TriangleBoardTests.cs:20-46 | on a size-9 grid the edges (1,0)-(1,1), (1,1)-(2,1) and (2,0)-(2,1) each touch exactly two cells |
| Scenarios.BandEdgesTouchTwoCells | tests/ctc.tests/BandPathTests.cs:66-82 | every edge of the band (4,2)-(7,2) touches exactly two cells |
| Scenarios.SingleBand | tests/ctc.tests/TriangleBoardTests.cs:49-71 | after adding (0,0)-(1,0) to a size-9 board, the bands are exactly that band and there are no pegs |
| Scenarios.RefusedBand | src/ctc/TriangleBoard.cs:14-17 | adding (0,0)-(2,1) to a new board fails with that pair and leaves it empty |
| Scenarios.ThreeBandsSurround | tests/ctc.tests/DebugBandPlacementTests.cs:32-40 | with bands (4,0)-(4,3), (4,1)-(7,4) and (4,2)-(7,2), a cell with a non-negative index is surrounded iff it is `Position(4,3)` |
| Scenarios.PlacementSurrounds | tests/ctc.tests/DebugBandPlacementTests.cs:32-40 | on a size-9 grid those three bands surround exactly `{Position(4,3)}` |
| Scenarios.ThreeBands | tests/ctc.tests/DebugBandPlacementTests.cs:32-40 | adding the three bands one by one leaves exactly one peg, white, at `Position(4,3)` |
| Scenarios.FiveOneIsThreeHops | tests/ctc.tests/BandValidationTests.cs:18-35 | (5,1) is at distance exactly 3 from (2,1) on a size-9 grid |
| Scenarios.ReachableFromTwoOne | tests/ctc.tests/BandValidationTests.cs:18-35 | the search from (2,1) on a size-9 grid is non-empty, contains (5,1), and each result is a valid vertex reached by a 3-step walk |
| TriangleGeometry.Studs | src/ctc/Models/TriangleGeometry.cs:13-26 | the studs row by row; `StudsMembers`, `StudsCount` and `StudsSorted` state contents, size and order |
| TriangleGeometry.TriangleCoords | src/ctc/Models/TriangleGeometry.cs:28-45 | the triangle coordinates, up before down; `TriangleCoordsMembers`, `TriangleCoordsCount` and `TriangleCoordsSorted` state contents, size and order |
| TriangleGeometry.CornerStuds | src/ctc/Models/TriangleGeometry.cs:73-91 | the studs `GetTriangleCorners` picks; `CornersAreStuds` shows they are distinct studs of the board, `CornersAgree` that they are the grid's corners |
| TriangleGeometry.StudsMembers | src/ctc/Models/TriangleGeometry.cs:13-26 | the studs are exactly the points with `0 <= col <= row <= size` |
| TriangleGeometry.StudsCount | src/ctc/Models/TriangularBoard.cs:141-153 | rows `0..size` of `row+1` studs each make `(size+1)(size+2)/2` studs (the same loop as the geometry's) |
| TriangleGeometry.StudsSorted | src/ctc/Models/TriangleGeometry.cs:13-26 | studs come row by row, left to right, strictly ascending, so none twice |
| TriangleGeometry.TriangleCoordsMembers | src/ctc/Models/TriangleGeometry.cs:28-45 | the coordinates are exactly an up triangle for each `0 <= col <= row < size`, plus a down triangle for each such pair outside the last row |
| TriangleGeometry.TriangleCoordsCount | src/ctc/Models/TriangleGeometry.cs:33-42 | a board of `size` rows has `size*size` triangle coordinates |
| TriangleGeometry.TriangleCoordsSorted | src/ctc/Models/TriangleGeometry.cs:33-42 | rows ascending, columns ascending, up before down: strictly ordered, so none twice |
| TriangleGeometry.CornersAreStuds | src/ctc/Models/TriangleGeometry.cs:73-91 | every corner stud `GetTriangleCorners` picks for an enumerated triangle is a stud of the board, and the three are distinct |
| TriangularBoard.GetPegs | src/ctc/Models/TriangularBoard.cs:155-165 | the pegs of the first `maxRow` rows (0 standing for the size); `GetPegsMembers`, `GetPegsCount`, `GetPegsSorted` and `GetPegsArePositions` state contents, size, order and agreement with the grid's cells |
| TriangularBoard.PegToTriangleCoord | src/ctc/Models/TriangularBoard.cs:167-179 | the coordinate of a peg under truncating division; `PegToTriangleCoordMeaning`, `PegRoundTrip` and `PegsCoverCoords` state what it means |
| TriangularBoard.TriangleCoordToPeg | src/ctc/Models/TriangularBoard.cs:181-191 | the peg of a coordinate; `TriangleCoordToPegMeaning` and `CoordRoundTrip` state what it means |
| TriangularBoard.GetPegsMembers | src/ctc/Models/TriangularBoard.cs:155-165 | `GetPegs(maxRow)` yields exactly the untagged pegs with `0 <= row < maxRow` and `0 <= col <= 2*row`, where 0 stands for the board's size |
| TriangularBoard.GetPegsCount | src/ctc/Models/TriangularBoard.cs:155-165 | `m` rows give `m*m` pegs, and a negative limit gives none |
| TriangularBoard.GetPegsSorted | src/ctc/Models/TriangularBoard.cs:155-165 | pegs come row by row, left to right, strictly ascending, so none twice |
| TriangularBoard.PegToTriangleCoordMeaning | src/ctc/Models/TriangularBoard.cs:167-179 | the coordinate points up iff the peg column is even; a down coordinate is one row higher; the column is the peg column halved toward zero |
| TriangularBoard.TriangleCoordToPegMeaning | src/ctc/Models/TriangularBoard.cs:181-191 | the peg is untagged, its column is even iff the coordinate points up, and a down coordinate's peg is one row lower |
| TriangularBoard.CoordRoundTrip | src/ctc/Models/TriangularBoard.cs:167-191 | coordinate to peg and back is the identity iff the coordinate points up or has a non-negative column |
| TriangularBoard.PegRoundTrip | src/ctc/Models/TriangularBoard.cs:167-191 | peg to coordinate and back keeps row and column iff the column is non-negative or even |
| TriangularBoard.PegRoundTripDropsTag | src/ctc/Models/Peg.cs:3 | for a non-negative column, the round trip gives back the peg itself iff its tag is the default empty one |
| Encodings.GetPegsArePositions | src/ctc/Models/TriangularBoard.cs:155-165 | `GetPegs()` lists, in the same order, the cells `TrianglePositions` lists, with `Col` for `Index` |
| Encodings.CornersAgree | src/ctc/Models/TriangleGeometry.cs:73-91 | for every cell, the corner studs of its converted coordinate are its grid corners, in the same order |
| Encodings.PegsCoverCoords | src/ctc/Models/TriangularBoard.cs:167-179 | a coordinate is enumerated iff some peg of `GetPegs()` converts to it |
| Encodings.StudsAreValidVertices | src/ctc/Models/TriangleGrid.cs:141-145 | a point is a stud of the board iff it is a valid vertex of the grid |

## Left out

- 32-bit arithmetic: integers are unbounded. Coordinates of a board are small, so no C# `int` overflow is modelled.
- The tuple conversions of `Vertex`, `Stud` and `Peg` are not modelled; only `Piece`'s two are. Those records are plain values here.
- `TriangleCoord`'s own declaration is not part of this model. The record is modelled from its use as `(Row, Col, PointUp)`.
- The board's geometry: the source constructs `TriangleBoard` from a geometry object, whose `TrianglePositions` it enumerates. The model gives the board a grid size and enumerates `TriangleGrid`'s cells, as the unit tests do.
- Board.TriangleBoard.HasBandBetween: requires that every stored band has a path. `AddBand` is the only way to store a band and keeps this invariant; the source would throw on a stored band without a path.
- Board.TriangleBoard.IsTriangleSurrounded: requires valid stored bands, for the same reason.
- Grid.HasEdge: requires three corners, which is what `GetTriangleVertices` always returns; the source would index out of range on a shorter array.
- Board.TriangleBoard.AddBand: leaves open the order in which new pegs are appended, because the source scans a `HashSet` of cells. Only the set of new pegs is stated.
- The comment that a band spans four vertices is not enforced by the source, and is not enforced here.
- Colour rotation, turns and win conditions: none exist in the source. Every peg is white.
- Text formatting is fixed to the invariant culture: `IntToString` writes `-` and ASCII digits, where C# interpolation would follow the current culture.
- `IEnumerable`/`yield` laziness: each enumeration is a sequence or a set.
- Exceptions: the thrown `ArgumentException` becomes a `Failure`/`Fail` value.
- Pixel and floating-point code is not modelled: `PegToPixel`, `StudToPixel`, the `Vector2` results of `GetTriangleCorners` (only its stud indices are), and the triangle height. SVG and text rendering, the ASP.NET binder, the client script and the debug file writers are left out too; they are I/O or display.
