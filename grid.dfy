/**
 * The logical triangular grid of a given size (Models/TriangleGrid.cs): the
 * enumeration of its cells, the corners of a cell, the edge test, vertex
 * validity and vertex adjacency. `src/ctc/TriangleBoard.cs` repeats these
 * members word for word over its own geometry; the model has them once.
 */
module Grid {
  import opened CsInt
  import opened Records
  import opened Cells
  import opened Collections

  // ---------------------------------------------------------------- cells

  /** The cells of one row in compact form: indices `0..2*row`. */
  function RowPositions(row: nat): seq<Position>
  {
    seq(2 * row + 1, i => Position(row, i))
  }

  /** `TrianglePositions`: every cell of a grid of `size` rows, row by row. */
  function TrianglePositions(size: int): seq<Position>
    decreases size
  {
    if size <= 0 then [] else TrianglePositions(size - 1) + RowPositions(size - 1)
  }

  /** The cells a grid of `size` rows holds. */
  predicate InGrid(size: int, p: Position)
  {
    0 <= p.row < size && 0 <= p.index <= 2 * p.row
  }

  /** Row-major order on cells. */
  predicate PositionLess(a: Position, b: Position)
  {
    a.row < b.row || (a.row == b.row && a.index < b.index)
  }

  lemma {:induction false} TrianglePositionsMembers(size: int)
    ensures forall p :: p in TrianglePositions(size) <==> InGrid(size, p)
    decreases size
  {
    if size > 0 {
      TrianglePositionsMembers(size - 1);
      forall p ensures p in RowPositions(size - 1) <==> p.row == size - 1 && 0 <= p.index <= 2 * p.row {
        if p.row == size - 1 && 0 <= p.index <= 2 * p.row {
          assert RowPositions(size - 1)[p.index] == p;
        }
      }
    }
  }

  lemma {:induction false} TrianglePositionsCount(size: int)
    requires size >= 0
    ensures |TrianglePositions(size)| == size * size
  {
    if size > 0 {
      TrianglePositionsCount(size - 1);
      assert (size - 1) * (size - 1) + 2 * (size - 1) + 1 == size * size;
    }
  }

  /** Row-major without repetitions: each cell comes strictly after the ones before it. */
  lemma {:induction false} TrianglePositionsSorted(size: int)
    ensures forall i, j :: 0 <= i < j < |TrianglePositions(size)| ==>
      PositionLess(TrianglePositions(size)[i], TrianglePositions(size)[j])
    decreases size
  {
    if size > 0 {
      TrianglePositionsSorted(size - 1);
      TrianglePositionsMembers(size - 1);
      var a, r := TrianglePositions(size - 1), RowPositions(size - 1);
      assert forall i :: 0 <= i < |a| ==> a[i] in a && a[i].row < size - 1;
    }
  }

  lemma TrianglePositionsDistinct(size: int)
    ensures Distinct(TrianglePositions(size))
  {
    TrianglePositionsSorted(size);
  }

  // ------------------------------------------------------------- vertices

  /** `IsValidVertex`: the lower-triangular bound `0 <= col <= row <= size`. */
  predicate IsValidVertex(size: int, v: Vertex)
  {
    v.row >= 0 && v.row <= size && v.col >= 0 && v.col <= v.row
  }

  /**
   * `GetTriangleVertices`: the corners of a cell, with `col = Index / 2` (C#
   * division). Consecutive corners, wrapping around, are the cell's edges.
   */
  function GetTriangleVertices(p: Position): (vs: seq<Vertex>)
    ensures |vs| == 3
  {
    var col := Div(p.index, 2);
    if p.PointUp() then
      [Vertex(p.row, col), Vertex(p.row + 1, col), Vertex(p.row + 1, col + 1)]
    else
      [Vertex(p.row, col + 1), Vertex(p.row, col), Vertex(p.row + 1, col + 1)]
  }

  /** The corners of an enumerated cell, with `c` the column of the cell. */
  lemma CornersOfCell(p: Position)
    requires p.index >= 0
    ensures p.index % 2 == 0 ==> (GetTriangleVertices(p) ==
      [Vertex(p.row, p.index / 2), Vertex(p.row + 1, p.index / 2), Vertex(p.row + 1, p.index / 2 + 1)])
    ensures p.index % 2 == 1 ==> (GetTriangleVertices(p) ==
      [Vertex(p.row, p.index / 2 + 1), Vertex(p.row, p.index / 2), Vertex(p.row + 1, p.index / 2 + 1)])
  {
    DivRemTwo(p.index);
  }

  /** Every enumerated cell has three distinct corners, all valid vertices of the grid. */
  lemma CellVerticesValid(size: int, p: Position)
    requires p in TrianglePositions(size)
    ensures var vs := GetTriangleVertices(p);
      vs[0] != vs[1] && vs[1] != vs[2] && vs[0] != vs[2] &&
      IsValidVertex(size, vs[0]) && IsValidVertex(size, vs[1]) && IsValidVertex(size, vs[2])
  {
    TrianglePositionsMembers(size);
    CornersOfCell(p);
  }

  // ---------------------------------------------------------------- edges

  /** `(a, b)` is the edge `{v1, v2}`, in either direction. */
  predicate SameEdge(a: Vertex, b: Vertex, v1: Vertex, v2: Vertex)
  {
    (a == v1 && b == v2) || (a == v2 && b == v1)
  }

  /** The `i`-th edge of a cell: corner `i` and the next corner, wrapping around. */
  function Side(vs: seq<Vertex>, i: int): (Vertex, Vertex)
    requires |vs| == 3 && 0 <= i < 3
  {
    (vs[i], vs[(i + 1) % 3])
  }

  /** `{v1, v2}` is one of the wrap-around consecutive pairs of `vs`. */
  predicate EdgeOf(vs: seq<Vertex>, v1: Vertex, v2: Vertex)
    requires |vs| == 3
  {
    SameEdge(vs[0], vs[1], v1, v2) || SameEdge(vs[1], vs[2], v1, v2) || SameEdge(vs[2], vs[0], v1, v2)
  }

  /** `HasEdge`: the loop over the three wrap-around corner pairs, with early return. */
  method HasEdge(vs: seq<Vertex>, v1: Vertex, v2: Vertex) returns (r: bool)
    requires |vs| == 3
    ensures r == EdgeOf(vs, v1, v2)
  {
    var i := 0;
    while i < 3
      invariant 0 <= i <= 3
      invariant forall k :: 0 <= k < i ==> !SameEdge(Side(vs, k).0, Side(vs, k).1, v1, v2)
    {
      var a := vs[i];
      var b := vs[(i + 1) % 3];
      if (a == v1 && b == v2) || (a == v2 && b == v1) {
        assert SameEdge(Side(vs, i).0, Side(vs, i).1, v1, v2);
        return true;
      }
      i := i + 1;
    }
    assert Side(vs, 0) == (vs[0], vs[1]) && Side(vs, 1) == (vs[1], vs[2]) && Side(vs, 2) == (vs[2], vs[0]);
    assert !SameEdge(Side(vs, 0).0, Side(vs, 0).1, v1, v2);
    assert !SameEdge(Side(vs, 1).0, Side(vs, 1).1, v1, v2);
    assert !SameEdge(Side(vs, 2).0, Side(vs, 2).1, v1, v2);
    return false;
  }

  /** The edge test as sets, and its symmetry. */
  lemma EdgeOfAsSets(vs: seq<Vertex>, v1: Vertex, v2: Vertex)
    requires |vs| == 3
    ensures EdgeOf(vs, v1, v2) <==> exists i :: 0 <= i < 3 && {v1, v2} == {Side(vs, i).0, Side(vs, i).1}
    ensures EdgeOf(vs, v1, v2) <==> EdgeOf(vs, v2, v1)
  {
    forall a, b ensures SameEdge(a, b, v1, v2) <==> {v1, v2} == {a, b} {
      if {v1, v2} == {a, b} {
        assert a in {v1, v2} && b in {v1, v2} && v1 in {a, b} && v2 in {a, b};
      }
    }
    assert Side(vs, 0) == (vs[0], vs[1]) && Side(vs, 1) == (vs[1], vs[2]) && Side(vs, 2) == (vs[2], vs[0]);
  }

  // ------------------------------------------------------------ adjacency

  /** What one cell contributes to the neighbours of `v`: its other corners, if `v` is one. */
  function CellNeighbours(vs: seq<Vertex>, v: Vertex): set<Vertex>
  {
    if v in vs then set u | u in vs && u != v else {}
  }

  /** The neighbours of `v` collected over a run of cells, in scanning order. */
  function AdjacentIn(cells: seq<Position>, v: Vertex): set<Vertex>
    decreases |cells|
  {
    if cells == [] then {}
    else AdjacentIn(cells[..|cells| - 1], v) + CellNeighbours(GetTriangleVertices(cells[|cells| - 1]), v)
  }

  /** The vertices that `GetAdjacentVertices(v)` returns on a grid of `size` rows. */
  function Adjacent(size: int, v: Vertex): set<Vertex>
  {
    AdjacentIn(TrianglePositions(size), v)
  }

  /** `u` and `v` are corners of one cell of `cells`. */
  predicate ShareCell(cells: seq<Position>, u: Vertex, v: Vertex)
  {
    exists c :: c in cells && u in GetTriangleVertices(c) && v in GetTriangleVertices(c)
  }

  /** `GetAdjacentVertices`: scans every cell and adds its other corners when `v` is one of them. */
  method GetAdjacentVertices(size: int, v: Vertex) returns (adjacent: set<Vertex>)
    ensures adjacent == Adjacent(size, v)
  {
    var cells := TrianglePositions(size);
    adjacent := {};
    var k := 0;
    while k < |cells|
      invariant 0 <= k <= |cells|
      invariant adjacent == AdjacentIn(cells[..k], v)
    {
      var vertices := GetTriangleVertices(cells[k]);
      if v in vertices {
        adjacent := AddOtherCorners(adjacent, vertices, v);
      }
      AdjacentInStep(cells, k, v);
      k := k + 1;
    }
    assert cells[..|cells|] == cells;
  }

  /** The inner loop of `GetAdjacentVertices`: adds every corner that is not `v`. */
  method AddOtherCorners(adjacent: set<Vertex>, vertices: seq<Vertex>, v: Vertex) returns (adjacent': set<Vertex>)
    requires v in vertices
    ensures adjacent' == adjacent + CellNeighbours(vertices, v)
  {
    adjacent' := adjacent;
    var j := 0;
    while j < |vertices|
      invariant 0 <= j <= |vertices|
      invariant adjacent' == adjacent + set u | u in vertices[..j] && u != v
    {
      assert vertices[..j + 1] == vertices[..j] + [vertices[j]];
      if vertices[j] != v {
        adjacent' := adjacent' + {vertices[j]};
      }
      j := j + 1;
    }
    assert vertices[..|vertices|] == vertices;
  }

  lemma AdjacentInStep(cells: seq<Position>, k: int, v: Vertex)
    requires 0 <= k < |cells|
    ensures AdjacentIn(cells[..k + 1], v) == AdjacentIn(cells[..k], v) + CellNeighbours(GetTriangleVertices(cells[k]), v)
  {
    assert cells[..k + 1][..k] == cells[..k];
  }

  lemma {:induction false} AdjacentInIff(cells: seq<Position>, v: Vertex, u: Vertex)
    ensures u in AdjacentIn(cells, v) <==> u != v && ShareCell(cells, u, v)
    decreases |cells|
  {
    if cells != [] {
      var init, last := cells[..|cells| - 1], cells[|cells| - 1];
      AdjacentInIff(init, v, u);
      ShareCellSplit(cells, u, v);
      CellNeighboursIff(GetTriangleVertices(last), v, u);
    }
  }

  lemma CellNeighboursIff(vs: seq<Vertex>, v: Vertex, u: Vertex)
    ensures u in CellNeighbours(vs, v) <==> u != v && u in vs && v in vs
  {
  }

  /** Sharing a cell of a run means sharing one of its earlier cells or its last one. */
  lemma ShareCellSplit(cells: seq<Position>, u: Vertex, v: Vertex)
    requires cells != []
    ensures var last := GetTriangleVertices(cells[|cells| - 1]);
      ShareCell(cells, u, v) <==> ShareCell(cells[..|cells| - 1], u, v) || (u in last && v in last)
  {
    var init, last := cells[..|cells| - 1], cells[|cells| - 1];
    assert cells == init + [last];
    if ShareCell(cells, u, v) && !ShareCell(init, u, v) {
      var c :| c in cells && u in GetTriangleVertices(c) && v in GetTriangleVertices(c);
      assert c == last;
    }
    if ShareCell(init, u, v) {
      var c :| c in init && u in GetTriangleVertices(c) && v in GetTriangleVertices(c);
      assert c in cells;
    }
    if u in GetTriangleVertices(last) && v in GetTriangleVertices(last) {
      assert last in cells;
    }
  }

  /** The neighbours of `v` are exactly the other corners of the cells `v` is a corner of. */
  lemma AdjacentSpec(size: int, v: Vertex, u: Vertex)
    ensures u in Adjacent(size, v) <==> u != v && ShareCell(TrianglePositions(size), u, v)
  {
    AdjacentInIff(TrianglePositions(size), v, u);
  }

  /** `GetAdjacentVertices(v)` never contains `v` itself. */
  lemma AdjacentIrreflexive(size: int, v: Vertex)
    ensures v !in Adjacent(size, v)
  {
    AdjacentSpec(size, v, v);
  }

  /** Neighbours are valid vertices, and only a valid vertex has neighbours. */
  lemma AdjacentValid(size: int, v: Vertex, u: Vertex)
    requires u in Adjacent(size, v)
    ensures IsValidVertex(size, u) && IsValidVertex(size, v)
  {
    AdjacentSpec(size, v, u);
    var c :| c in TrianglePositions(size) && u in GetTriangleVertices(c) && v in GetTriangleVertices(c);
    CellVerticesValid(size, c);
  }

  /** A vertex no cell has as a corner has no neighbours. */
  lemma AdjacentOfIsolated(size: int, v: Vertex)
    requires forall c :: c in TrianglePositions(size) ==> v !in GetTriangleVertices(c)
    ensures Adjacent(size, v) == {}
  {
    forall u | u in Adjacent(size, v) ensures false {
      AdjacentSpec(size, v, u);
    }
  }

  /** Adjacency is symmetric. */
  lemma AdjacentSymmetric(size: int, u: Vertex, v: Vertex)
    ensures u in Adjacent(size, v) <==> v in Adjacent(size, u)
  {
    AdjacentSpec(size, v, u);
    AdjacentSpec(size, u, v);
  }

  /** Neighbours differ by at most one row and at most one column. */
  lemma AdjacentIsClose(size: int, v: Vertex, u: Vertex)
    requires u in Adjacent(size, v)
    ensures v.row - 1 <= u.row <= v.row + 1
    ensures v.col - 1 <= u.col <= v.col + 1
  {
    AdjacentSpec(size, v, u);
    var c :| c in TrianglePositions(size) && u in GetTriangleVertices(c) && v in GetTriangleVertices(c);
    CornersClose(c, u, v);
  }

  lemma CornersClose(c: Position, u: Vertex, v: Vertex)
    requires u in GetTriangleVertices(c) && v in GetTriangleVertices(c)
    ensures v.row - 1 <= u.row <= v.row + 1
    ensures v.col - 1 <= u.col <= v.col + 1
  {
  }

  /** Two corners of one enumerated cell are neighbours. */
  lemma CornersAreAdjacent(size: int, c: Position, i: int, j: int)
    requires c in TrianglePositions(size)
    requires 0 <= i < 3 && 0 <= j < 3 && i != j
    ensures GetTriangleVertices(c)[i] in Adjacent(size, GetTriangleVertices(c)[j])
  {
    var vs := GetTriangleVertices(c);
    var u, v := vs[i], vs[j];
    DistinctCorners(c, i, j);
    assert u in vs && v in vs;
    assert ShareCell(TrianglePositions(size), u, v);
    AdjacentSpec(size, v, u);
  }

  /** The three corners of any cell are pairwise different. */
  lemma DistinctCorners(c: Position, i: int, j: int)
    requires 0 <= i < 3 && 0 <= j < 3 && i != j
    ensures GetTriangleVertices(c)[i] != GetTriangleVertices(c)[j]
  {
  }

  // ------------------------------------------------- cells along an edge

  /** The cells of `cells` that have `{v1, v2}` as an edge, in scanning order. */
  function CellsWithEdge(cells: seq<Position>, v1: Vertex, v2: Vertex): seq<Position>
    decreases |cells|
  {
    if cells == [] then []
    else
      var last := cells[|cells| - 1];
      CellsWithEdge(cells[..|cells| - 1], v1, v2) + (if EdgeOf(GetTriangleVertices(last), v1, v2) then [last] else [])
  }

  /**
   * The (at most two) cells that can have the edge from `a` to `b` when `b`
   * lies one step right of, below, or diagonally below-right of `a`.
   */
  function EdgeCandidates(a: Vertex, b: Vertex): set<Position>
  {
    if b == Vertex(a.row, a.col + 1) then {Position(a.row - 1, 2 * a.col), Position(a.row, 2 * a.col + 1)}
    else if b == Vertex(a.row + 1, a.col) then {Position(a.row, 2 * a.col), Position(a.row, 2 * a.col - 1)}
    else if b == Vertex(a.row + 1, a.col + 1) then {Position(a.row, 2 * a.col), Position(a.row, 2 * a.col + 1)}
    else {}
  }

  /** The cells of the whole lattice that have `{v1, v2}` as an edge. */
  function EdgeCells(v1: Vertex, v2: Vertex): set<Position>
  {
    EdgeCandidates(v1, v2) + EdgeCandidates(v2, v1)
  }

  /** A cell with a non-negative index has the edge `{v1, v2}` exactly when it is one of `EdgeCells(v1, v2)`. */
  lemma EdgeCellsSpec(p: Position, v1: Vertex, v2: Vertex)
    requires p.index >= 0
    ensures EdgeOf(GetTriangleVertices(p), v1, v2) <==> p in EdgeCells(v1, v2)
  {
    CornersOfCell(p);
  }

  /** No edge has more than two cells. */
  lemma EdgeCellsAtMostTwo(v1: Vertex, v2: Vertex)
    ensures |EdgeCells(v1, v2)| <= 2
  {
    assert EdgeCandidates(v1, v2) == {} || EdgeCandidates(v2, v1) == {};
  }

  lemma {:induction false} CellsWithEdgeMembers(cells: seq<Position>, v1: Vertex, v2: Vertex)
    ensures forall p :: p in CellsWithEdge(cells, v1, v2) <==> p in cells && EdgeOf(GetTriangleVertices(p), v1, v2)
    decreases |cells|
  {
    if cells != [] {
      var init := cells[..|cells| - 1];
      CellsWithEdgeMembers(init, v1, v2);
      assert cells == init + [cells[|cells| - 1]];
    }
  }

  lemma {:induction false} CellsWithEdgeSorted(cells: seq<Position>, v1: Vertex, v2: Vertex)
    requires forall i, j :: 0 <= i < j < |cells| ==> PositionLess(cells[i], cells[j])
    ensures forall i, j :: 0 <= i < j < |CellsWithEdge(cells, v1, v2)| ==>
      PositionLess(CellsWithEdge(cells, v1, v2)[i], CellsWithEdge(cells, v1, v2)[j])
    decreases |cells|
  {
    if cells != [] {
      var init, last := cells[..|cells| - 1], cells[|cells| - 1];
      CellsWithEdgeSorted(init, v1, v2);
      CellsWithEdgeMembers(init, v1, v2);
      var f := CellsWithEdge(init, v1, v2);
      forall i | 0 <= i < |f| ensures PositionLess(f[i], last) {
        assert f[i] in init;
        var k :| 0 <= k < |init| && init[k] == f[i];
        assert cells[k] == f[i];
      }
    }
  }

  /** The cells of a grid along an edge are the edge's cells that lie inside the grid. */
  lemma TouchingMembers(size: int, v1: Vertex, v2: Vertex)
    ensures forall p :: p in CellsWithEdge(TrianglePositions(size), v1, v2) <==> p in EdgeCells(v1, v2) && InGrid(size, p)
  {
    var cells := TrianglePositions(size);
    TrianglePositionsMembers(size);
    CellsWithEdgeMembers(cells, v1, v2);
    forall p | p in cells ensures EdgeOf(GetTriangleVertices(p), v1, v2) <==> p in EdgeCells(v1, v2) {
      EdgeCellsSpec(p, v1, v2);
    }
  }

  /** The set of cells inside a grid along an edge. */
  function GridEdgeCells(size: int, v1: Vertex, v2: Vertex): set<Position>
  {
    set p | p in EdgeCells(v1, v2) && InGrid(size, p)
  }

  /**
   * `GetTrianglesTouching` lists each cell of the grid along an edge once:
   * two cells for an interior edge, one for a boundary edge, never more.
   */
  lemma TouchingCount(size: int, v1: Vertex, v2: Vertex)
    ensures |CellsWithEdge(TrianglePositions(size), v1, v2)| == |GridEdgeCells(size, v1, v2)|
    ensures |CellsWithEdge(TrianglePositions(size), v1, v2)| <= 2
  {
    var f := CellsWithEdge(TrianglePositions(size), v1, v2);
    TouchingMembers(size, v1, v2);
    TrianglePositionsSorted(size);
    CellsWithEdgeSorted(TrianglePositions(size), v1, v2);
    assert Distinct(f);
    DistinctCard(f);
    assert Elements(f) == GridEdgeCells(size, v1, v2);
    EdgeCellsAtMostTwo(v1, v2);
    SubsetNoLarger(GridEdgeCells(size, v1, v2), EdgeCells(v1, v2));
  }

  lemma SubsetNoLarger(a: set<Position>, b: set<Position>)
    requires a <= b
    ensures |a| <= |b|
  {
    assert b == a + (b - a);
  }

  lemma TwoCornersFormEdge(vs: seq<Vertex>, u: Vertex, v: Vertex)
    requires |vs| == 3 && u in vs && v in vs && u != v
    ensures EdgeOf(vs, u, v)
  {
  }

  /** Neighbouring vertices always share at least one cell of the grid in which they form an edge. */
  lemma NeighboursTouchSomeCell(size: int, u: Vertex, v: Vertex)
    requires u in Adjacent(size, v)
    ensures |CellsWithEdge(TrianglePositions(size), u, v)| >= 1
  {
    AdjacentSpec(size, v, u);
    var c :| c in TrianglePositions(size) && u in GetTriangleVertices(c) && v in GetTriangleVertices(c);
    TwoCornersFormEdge(GetTriangleVertices(c), u, v);
    CellsWithEdgeMembers(TrianglePositions(size), u, v);
    assert c in CellsWithEdge(TrianglePositions(size), u, v);
  }
}
