/**
 * The concrete situations the repository's tests describe, on a board of
 * nine rows: edges shared by two cells, a single band that places no peg,
 * the three bands that surround cell (4,3), and the vertices three hops
 * from (2,1).
 */
module Scenarios {
  import opened Wrappers
  import opened Records
  import opened Cells
  import opened Collections
  import opened Grid
  import opened Bands
  import opened Reach
  import opened Board

  // ------------------------------------------------- cells along an edge

  /** Two distinct cells of the grid along an edge mean `GetTrianglesTouching` finds two. */
  lemma TouchesTwo(size: int, v1: Vertex, v2: Vertex, a: Position, b: Position)
    requires a != b && EdgeCells(v1, v2) == {a, b} && InGrid(size, a) && InGrid(size, b)
    ensures |CellsWithEdge(TrianglePositions(size), v1, v2)| == 2
  {
    TouchingCount(size, v1, v2);
    assert GridEdgeCells(size, v1, v2) == {a, b};
  }

  /** The edges the board tests probe are each shared by two cells of a nine-row grid. */
  lemma TestedEdgesTouchTwoCells()
    ensures |CellsWithEdge(TrianglePositions(9), Vertex(1, 0), Vertex(1, 1))| == 2
    ensures |CellsWithEdge(TrianglePositions(9), Vertex(1, 1), Vertex(2, 1))| == 2
    ensures |CellsWithEdge(TrianglePositions(9), Vertex(2, 0), Vertex(2, 1))| == 2
  {
    TouchesTwo(9, Vertex(1, 0), Vertex(1, 1), Position(0, 0), Position(1, 1));
    TouchesTwo(9, Vertex(1, 1), Vertex(2, 1), Position(1, 2), Position(1, 1));
    TouchesTwo(9, Vertex(2, 0), Vertex(2, 1), Position(1, 0), Position(2, 1));
  }

  /** Every edge of the band from (4,2) to (7,2) is shared by two cells of a nine-row grid. */
  lemma BandEdgesTouchTwoCells()
    ensures var p := BandPath(Vertex(4, 2), Vertex(7, 2)).value;
      forall i :: 0 <= i < |p| - 1 ==> |CellsWithEdge(TrianglePositions(9), p[i], p[i + 1])| == 2
  {
    AntiDiagonalPath();
    TouchesTwo(9, Vertex(4, 2), Vertex(5, 2), Position(4, 4), Position(4, 3));
    TouchesTwo(9, Vertex(5, 2), Vertex(6, 2), Position(5, 4), Position(5, 3));
    TouchesTwo(9, Vertex(6, 2), Vertex(7, 2), Position(6, 4), Position(6, 3));
  }

  // -------------------------------------------------------- placing bands

  /** A board whose peg cells are empty has no pegs. */
  lemma NoPegCells(pegs: seq<Piece>)
    requires OnePegPerCell(pegs) && PegCells(pegs) == {}
    ensures pegs == []
  {
    PegCount(pegs);
  }

  /** One band, from (0,0) to (1,0): it is stored as placed and no peg appears. */
  method SingleBand() returns (board: TriangleBoard)
    ensures board.Valid() && board.size == 9
    ensures board.bands == [(Vertex(0, 0), Vertex(1, 0))]
    ensures board.pegs == []
  {
    board := new TriangleBoard(9);
    var o := board.AddBand(Vertex(0, 0), Vertex(1, 0));
    OneBandSurroundsNothing(9, (Vertex(0, 0), Vertex(1, 0)));
    NoPegCells(board.pegs);
  }

  /** A band off the three directions is refused and the board is left empty. */
  method RefusedBand() returns (board: TriangleBoard, o: Outcome<BandError>)
    ensures board.Valid() && board.bands == [] && board.pegs == []
    ensures o == Fail(InvalidBandPath(Vertex(0, 0), Vertex(2, 1)))
  {
    board := new TriangleBoard(9);
    o := board.AddBand(Vertex(0, 0), Vertex(2, 1));
  }

  const Horizontal: Band := (Vertex(4, 0), Vertex(4, 3))
  const Diagonal: Band := (Vertex(4, 1), Vertex(7, 4))
  const AntiDiagonal: Band := (Vertex(4, 2), Vertex(7, 2))

  /** The nine edges the three bands cover, either way round. */
  predicate ThreeBandEdge(v1: Vertex, v2: Vertex)
  {
    SameEdge(Vertex(4, 0), Vertex(4, 1), v1, v2) || SameEdge(Vertex(4, 1), Vertex(4, 2), v1, v2) ||
    SameEdge(Vertex(4, 2), Vertex(4, 3), v1, v2) ||
    SameEdge(Vertex(4, 1), Vertex(5, 2), v1, v2) || SameEdge(Vertex(5, 2), Vertex(6, 3), v1, v2) ||
    SameEdge(Vertex(6, 3), Vertex(7, 4), v1, v2) ||
    SameEdge(Vertex(4, 2), Vertex(5, 2), v1, v2) || SameEdge(Vertex(5, 2), Vertex(6, 2), v1, v2) ||
    SameEdge(Vertex(6, 2), Vertex(7, 2), v1, v2)
  }

  /** The edges a band covers are the consecutive pairs of its four-vertex path. */
  lemma CoversOf(band: Band, a: Vertex, b: Vertex, c: Vertex, d: Vertex, v1: Vertex, v2: Vertex)
    requires BandPath(band.0, band.1) == Success([a, b, c, d]) && BandCovers(band, v1, v2)
    ensures SameEdge(a, b, v1, v2) || SameEdge(b, c, v1, v2) || SameEdge(c, d, v1, v2)
  {
    var p := [a, b, c, d];
    var i :| 0 <= i < |p| - 1 && SameEdge(p[i], p[i + 1], v1, v2);
  }

  /** The three bands of the placement test, in placing order. */
  const PlacementBands: seq<Band> := [Horizontal, Diagonal, AntiDiagonal]

  lemma ThreeBandsCover(v1: Vertex, v2: Vertex)
    requires Covered(PlacementBands, v1, v2)
    ensures ThreeBandEdge(v1, v2)
  {
    var k :| 0 <= k < 3 && BandCovers(PlacementBands[k], v1, v2);
    if k == 0 {
      HorizontalPath();
      CoversOf(Horizontal, Vertex(4, 0), Vertex(4, 1), Vertex(4, 2), Vertex(4, 3), v1, v2);
    } else if k == 1 {
      DiagonalPath();
      CoversOf(Diagonal, Vertex(4, 1), Vertex(5, 2), Vertex(6, 3), Vertex(7, 4), v1, v2);
    } else {
      AntiDiagonalPath();
      CoversOf(AntiDiagonal, Vertex(4, 2), Vertex(5, 2), Vertex(6, 2), Vertex(7, 2), v1, v2);
    }
  }

  /** A band with a four-vertex path covers its three edges, either way round. */
  lemma CoversEach(band: Band, a: Vertex, b: Vertex, c: Vertex, d: Vertex)
    requires BandPath(band.0, band.1) == Success([a, b, c, d])
    ensures BandCovers(band, a, b) && BandCovers(band, b, c) && BandCovers(band, c, d)
    ensures BandCovers(band, b, a) && BandCovers(band, c, b) && BandCovers(band, d, c)
  {
    var p := [a, b, c, d];
    assert SameEdge(p[0], p[1], a, b) && SameEdge(p[1], p[2], b, c) && SameEdge(p[2], p[3], c, d);
    assert SameEdge(p[0], p[1], b, a) && SameEdge(p[1], p[2], c, b) && SameEdge(p[2], p[3], d, c);
  }

  lemma CoveredBy(bands: seq<Band>, k: int, v1: Vertex, v2: Vertex)
    requires 0 <= k < |bands| && BandCovers(bands[k], v1, v2)
    ensures Covered(bands, v1, v2)
  {
  }

  lemma HorizontalSide()
    ensures Covered(PlacementBands, Vertex(4, 2), Vertex(4, 1))
  {
    HorizontalPath();
    CoversEach(Horizontal, Vertex(4, 0), Vertex(4, 1), Vertex(4, 2), Vertex(4, 3));
    CoveredBy(PlacementBands, 0, Vertex(4, 2), Vertex(4, 1));
  }

  lemma DiagonalSide()
    ensures Covered(PlacementBands, Vertex(4, 1), Vertex(5, 2))
  {
    DiagonalPath();
    CoversEach(Diagonal, Vertex(4, 1), Vertex(5, 2), Vertex(6, 3), Vertex(7, 4));
    CoveredBy(PlacementBands, 1, Vertex(4, 1), Vertex(5, 2));
  }

  lemma AntiDiagonalSide()
    ensures Covered(PlacementBands, Vertex(5, 2), Vertex(4, 2))
  {
    AntiDiagonalPath();
    CoversEach(AntiDiagonal, Vertex(4, 2), Vertex(5, 2), Vertex(6, 2), Vertex(7, 2));
    CoveredBy(PlacementBands, 2, Vertex(5, 2), Vertex(4, 2));
  }

  /** Cell (4,3), with corners (4,2), (4,1), (5,2), has one side on each band. */
  lemma TargetSurrounded()
    ensures Surrounded(PlacementBands, Position(4, 3))
  {
    CornersOfCell(Position(4, 3));
    HorizontalSide();
    DiagonalSide();
    AntiDiagonalSide();
  }

  /** No other cell has all three sides among the nine covered edges. */
  lemma OnlyTargetSurrounded(p: Position)
    requires p.index >= 0 && Surrounded(PlacementBands, p)
    ensures p == Position(4, 3)
  {
    var vs := GetTriangleVertices(p);
    CornersOfCell(p);
    ThreeBandsCover(vs[0], vs[1]);
    ThreeBandsCover(vs[1], vs[2]);
    ThreeBandsCover(vs[2], vs[0]);
  }

  /** The three bands surround cell (4,3) and no other cell. */
  lemma ThreeBandsSurround(p: Position)
    requires p.index >= 0
    ensures Surrounded(PlacementBands, p) <==> p == Position(4, 3)
  {
    TargetSurrounded();
    if Surrounded(PlacementBands, p) {
      OnlyTargetSurrounded(p);
    }
  }

  /** Of the cells of a nine-row grid, the three bands surround (4,3) alone. */
  lemma PlacementSurrounds()
    ensures SurroundedCells(9, PlacementBands) == {Position(4, 3)}
  {
    TrianglePositionsMembers(9);
    forall p | p in TrianglePositions(9) ensures Surrounded(PlacementBands, p) <==> p == Position(4, 3) {
      ThreeBandsSurround(p);
    }
    ThreeBandsSurround(Position(4, 3));
  }

  /** White pegs, one per cell, on exactly the cell (4,3): a single peg there. */
  lemma SinglePeg(pegs: seq<Piece>, cell: Position)
    requires OnePegPerCell(pegs) && AllDefaultColor(pegs) && PegCells(pegs) == {cell}
    ensures pegs == [Piece(cell)]
  {
    PegCount(pegs);
    assert pegs[0] in pegs;
  }

  /** A consistent board holding the three bands has a single white peg, on (4,3). */
  lemma PlacementPegs(pegs: seq<Piece>, bands: seq<Band>)
    requires OnePegPerCell(pegs) && AllDefaultColor(pegs) && PegCells(pegs) == SurroundedCells(9, bands)
    requires bands == PlacementBands
    ensures pegs == [Piece(Position(4, 3))]
  {
    PlacementSurrounds();
    SinglePeg(pegs, Position(4, 3));
  }

  /**
   * The three bands of the placement test, one after the other: all are
   * stored, and the only peg is a white one on cell (4,3).
   */
  method ThreeBands() returns (board: TriangleBoard)
    ensures board.Valid() && board.size == 9
    ensures board.bands == PlacementBands
    ensures board.pegs == [Piece(Position(4, 3))]
  {
    board := new TriangleBoard(9);
    var o1 := board.AddBand(Vertex(4, 0), Vertex(4, 3));
    assert board.bands == [Horizontal];
    var o2 := board.AddBand(Vertex(4, 1), Vertex(7, 4));
    assert board.bands == [Horizontal, Diagonal];
    var o3 := board.AddBand(Vertex(4, 2), Vertex(7, 2));
    assert board.bands == PlacementBands;
    PlacementPegs(board.pegs, board.bands);
  }

  // ------------------------------------------------------------- reach

  /** Going one row down the column keeps to an edge of cell `(r, 2)`. */
  lemma StepDown(r: int)
    requires 1 <= r < 9
    ensures Vertex(r + 1, 1) in Graph(9)(Vertex(r, 1))
  {
    var c := Position(r, 2);
    CornersOfCell(c);
    TrianglePositionsMembers(9);
    assert c in TrianglePositions(9);
    AdjacentSpec(9, Vertex(r, 1), Vertex(r + 1, 1));
  }

  /** (5,1) is three hops from (2,1) on a nine-row grid, straight down the column. */
  lemma FiveOneIsThreeHops()
    ensures Vertex(5, 1) in AtDistance(Graph(9), Vertex(2, 1), 3)
  {
    var g := Graph(9);
    var from := Vertex(2, 1);
    StepDown(2);
    StepDown(3);
    StepDown(4);
    var w := [Vertex(2, 1), Vertex(3, 1), Vertex(4, 1), Vertex(5, 1)];
    assert WalkFromTo(g, w, from, Vertex(5, 1));
    WalkInWithin(g, w, from, Vertex(5, 1));
    GraphSteps(9);
    if Vertex(5, 1) in Within(g, from, 2) {
      WithinIsClose(g, from, 2, Vertex(5, 1));
    }
  }

  /**
   * The reach test: from (2,1) on a nine-row grid the list is not empty,
   * and every listed vertex is a valid vertex with a walk of exactly three hops.
   */
  method ReachableFromTwoOne() returns (r: seq<Vertex>)
    ensures r != [] && Vertex(5, 1) in r
    ensures forall v :: v in r ==> IsValidVertex(9, v) && exists w :: WalkFromTo(Graph(9), w, Vertex(2, 1), v) && |w| == 4
  {
    r := GetReachableVertices(9, Vertex(2, 1));
    FiveOneIsThreeHops();
    assert Vertex(5, 1) in Elements(r);
    forall v | v in r ensures IsValidVertex(9, v) && exists w :: WalkFromTo(Graph(9), w, Vertex(2, 1), v) && |w| == 4 {
      assert v in Elements(r);
      AtDistanceValid(9, Vertex(2, 1), 3, v);
      AtDistanceHasWalk(Graph(9), Vertex(2, 1), 3, v);
    }
  }
}
