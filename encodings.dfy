/**
 * How the older encodings line up with the lattice the board uses. A peg
 * `(Row, Col)` names the same cell as `Position(Row, Index)`; the expanded
 * coordinate files a down cell under the row above, and the geometry's
 * corner studs are shifted one row down to match, so every cell ends up with
 * the same three corners under either convention.
 */
module Encodings {
  import opened Records
  import opened Cells
  import opened Grid
  import opened TriangleGeometry
  import opened TriangularBoard

  /** The peg naming the same cell as a compact position. */
  function PegOf(p: Position): Peg
  {
    Peg(p.row, p.index)
  }

  function PegsOf(ps: seq<Position>): (r: seq<Peg>)
    ensures |r| == |ps|
  {
    seq(|ps|, i requires 0 <= i < |ps| => PegOf(ps[i]))
  }

  /** The stud standing on the same lattice point as a vertex. */
  function StudOf(v: Vertex): Stud
  {
    Stud(v.row, v.col)
  }

  function StudsOf(vs: seq<Vertex>): (r: seq<Stud>)
    ensures |r| == |vs|
  {
    seq(|vs|, i requires 0 <= i < |vs| => StudOf(vs[i]))
  }

  lemma PegsOfAppend(a: seq<Position>, b: seq<Position>)
    ensures PegsOf(a + b) == PegsOf(a) + PegsOf(b)
  {
  }

  lemma {:induction false} PegRowsArePositions(n: int)
    ensures PegRows(n) == PegsOf(TrianglePositions(n))
    decreases n
  {
    if n > 0 {
      PegRowsArePositions(n - 1);
      PegsOfAppend(TrianglePositions(n - 1), RowPositions(n - 1));
      assert PegRow(n - 1) == PegsOf(RowPositions(n - 1));
    }
  }

  /** `GetPegs()` lists, in the same order, the cells `TrianglePositions` lists. */
  lemma GetPegsArePositions(size: int)
    ensures GetPegs(size) == PegsOf(TrianglePositions(size))
  {
    PegRowsArePositions(size);
  }

  /** Under both conventions a cell has the same corners, in the same order. */
  lemma CornersAgree(p: Position)
    ensures CornerStuds(PegToTriangleCoord(PegOf(p))) == StudsOf(GetTriangleVertices(p))
  {
  }

  /** The pegs of a board and its expanded coordinates name the same cells. */
  lemma PegsCoverCoords(size: int, t: TriangleCoord)
    ensures t in TriangleCoords(size) <==> exists peg :: peg in GetPegs(size) && PegToTriangleCoord(peg) == t
  {
    TriangleCoordsMembers(size);
    if t in TriangleCoords(size) {
      var peg := TriangleCoordToPeg(t);
      GetPegsMembers(size, 0, peg);
      CoordRoundTrip(t);
    }
    forall peg | peg in GetPegs(size) && PegToTriangleCoord(peg) == t ensures OnBoard(size, t) {
      GetPegsMembers(size, 0, peg);
      PegToTriangleCoordMeaning(peg);
    }
  }

  /** A stud of the older geometry is exactly a valid vertex of the grid. */
  lemma StudsAreValidVertices(size: int, v: Vertex)
    ensures StudOf(v) in Studs(size) <==> IsValidVertex(size, v)
  {
    StudsMembers(size);
  }
}
