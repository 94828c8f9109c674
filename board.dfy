/**
 * The game board of src/ctc/TriangleBoard.cs: the bands placed so far and
 * the pegs (scoring pieces) that mark every cell whose three sides are all
 * covered by bands. The board's geometry is a triangular grid of `size`
 * rows (Grid); the grid members the board repeats are modelled there once.
 */
module Board {
  import opened Wrappers
  import opened Records
  import opened Cells
  import opened Collections
  import opened Grid
  import opened Bands

  // ------------------------------------------------------- specification

  /** Each of the cell's three sides is covered by some band. */
  predicate Surrounded(bands: seq<Band>, p: Position)
  {
    var vs := GetTriangleVertices(p);
    Covered(bands, vs[0], vs[1]) && Covered(bands, vs[1], vs[2]) && Covered(bands, vs[2], vs[0])
  }

  /** The cells of a grid of `size` rows that the bands surround. */
  function SurroundedCells(size: int, bands: seq<Band>): set<Position>
  {
    set p | p in TrianglePositions(size) && Surrounded(bands, p)
  }

  /** The cells that carry a peg. */
  function PegCells(pegs: seq<Piece>): set<Position>
  {
    set q | q in pegs :: q.position
  }

  /** `_pegs.Any(p => p.Position == triangle)`. */
  predicate HasPegAt(pegs: seq<Piece>, p: Position)
  {
    exists k :: 0 <= k < |pegs| && pegs[k].position == p
  }

  /** No two pegs share a cell. */
  predicate OnePegPerCell(pegs: seq<Piece>)
  {
    forall i, j :: 0 <= i < j < |pegs| ==> pegs[i].position != pegs[j].position
  }

  /** Every peg has the default colour: the board never passes another one. */
  predicate AllDefaultColor(pegs: seq<Piece>)
  {
    forall k :: 0 <= k < |pegs| ==> pegs[k].color == DefaultColor
  }

  /** Adding a band never uncovers an edge, so never frees a surrounded cell. */
  lemma SurroundedMonotone(size: int, bands: seq<Band>, more: seq<Band>)
    ensures SurroundedCells(size, bands) <= SurroundedCells(size, bands + more)
  {
    forall p | p in SurroundedCells(size, bands) ensures Surrounded(bands + more, p) {
      var vs := GetTriangleVertices(p);
      CoveredMonotone(bands, more, vs[0], vs[1]);
      CoveredMonotone(bands, more, vs[1], vs[2]);
      CoveredMonotone(bands, more, vs[2], vs[0]);
    }
  }

  /** Placing a band that is already on the board surrounds nothing new. */
  lemma RepeatedBandSurroundsNothing(size: int, bands: seq<Band>, k: int)
    requires 0 <= k < |bands|
    ensures SurroundedCells(size, bands + [bands[k]]) == SurroundedCells(size, bands)
  {
    forall v1, v2 ensures Covered(bands + [bands[k]], v1, v2) == Covered(bands, v1, v2) {
      CoveredAppend(bands, bands[k], v1, v2);
    }
    SurroundedMonotone(size, bands, [bands[k]]);
  }

  /**
   * One band never surrounds a cell: its edges are all parallel, while two
   * sides of any cell run in different directions.
   */
  lemma OneBandSurroundsNothing(size: int, band: Band)
    ensures SurroundedCells(size, [band]) == {}
  {
    forall p ensures !Surrounded([band], p) {
      OneBandMissesCell(band, p);
    }
  }

  /** The first two sides of a cell are not both along one band's direction. */
  lemma OneBandMissesCell(band: Band, p: Position)
    ensures !Surrounded([band], p)
  {
    var vs := GetTriangleVertices(p);
    if Covered([band], vs[0], vs[1]) && Covered([band], vs[1], vs[2]) {
      assert BandCovers(band, vs[0], vs[1]) && BandCovers(band, vs[1], vs[2]);
      BandCoversAlongDelta(band, vs[0], vs[1]);
      BandCoversAlongDelta(band, vs[1], vs[2]);
    }
  }

  /** The first `i` sides of the corners `vs` are covered. */
  ghost predicate SidesCovered(bands: seq<Band>, vs: seq<Vertex>, i: int)
    requires |vs| == 3 && 0 <= i <= 3
  {
    forall j :: 0 <= j < i ==> Covered(bands, Side(vs, j).0, Side(vs, j).1)
  }

  lemma SidesCoveredStep(bands: seq<Band>, vs: seq<Vertex>, i: int)
    requires |vs| == 3 && 0 <= i < 3
    requires SidesCovered(bands, vs, i) && Covered(bands, vs[i], vs[(i + 1) % 3])
    ensures SidesCovered(bands, vs, i + 1)
  {
  }

  /** A cell with one side uncovered is not surrounded. */
  lemma SideUncovered(bands: seq<Band>, p: Position, i: int)
    requires 0 <= i < 3
    requires !Covered(bands, Side(GetTriangleVertices(p), i).0, Side(GetTriangleVertices(p), i).1)
    ensures !Surrounded(bands, p)
  {
    var vs := GetTriangleVertices(p);
    if i == 0 {
      assert Side(vs, 0) == (vs[0], vs[1]);
    } else if i == 1 {
      assert Side(vs, 1) == (vs[1], vs[2]);
    } else {
      assert Side(vs, 2) == (vs[2], vs[0]);
    }
  }

  lemma SidesAllCovered(bands: seq<Band>, p: Position)
    requires SidesCovered(bands, GetTriangleVertices(p), 3)
    ensures Surrounded(bands, p)
  {
    var vs := GetTriangleVertices(p);
    assert Side(vs, 0) == (vs[0], vs[1]) && Side(vs, 1) == (vs[1], vs[2]) && Side(vs, 2) == (vs[2], vs[0]);
  }

  /** The empty board surrounds nothing. */
  lemma NothingSurroundedWithoutBands(size: int)
    ensures SurroundedCells(size, []) == {}
  {
  }

  /** `HasPegAt` is membership in the set of peg cells. */
  lemma HasPegAtIff(pegs: seq<Piece>, p: Position)
    ensures HasPegAt(pegs, p) <==> p in PegCells(pegs)
  {
    if p in PegCells(pegs) {
      var q :| q in pegs && q.position == p;
      var k :| 0 <= k < |pegs| && pegs[k] == q;
    }
  }

  lemma PegCellsAppend(pegs: seq<Piece>, peg: Piece)
    ensures PegCells(pegs + [peg]) == PegCells(pegs) + {peg.position}
  {
    assert forall q :: q in pegs + [peg] <==> q in pegs || q == peg;
  }

  /** With one peg per cell there are exactly as many pegs as peg cells. */
  lemma {:induction false} PegCount(pegs: seq<Piece>)
    requires OnePegPerCell(pegs)
    ensures |PegCells(pegs)| == |pegs|
    decreases |pegs|
  {
    if pegs != [] {
      var init, last := pegs[..|pegs| - 1], pegs[|pegs| - 1];
      assert pegs == init + [last];
      PegCount(init);
      PegCellsAppend(init, last);
      HasPegAtIff(init, last.position);
      assert !HasPegAt(init, last.position);
    }
  }

  // -------------------------------------------------------- the peg scan

  /**
   * Partway through the scan for the cells of `goal`: the pegs so far extend
   * the pegs `before` it, and the new ones mark exactly the cells of `goal`
   * among those `checked` that had no peg.
   */
  ghost predicate Scanned(goal: set<Position>, before: seq<Piece>, pegs: seq<Piece>, checked: set<Position>)
  {
    before <= pegs && OnePegPerCell(pegs) && AllDefaultColor(pegs) &&
    PegCells(pegs) == PegCells(before) + checked * goal &&
    forall k :: |before| <= k < |pegs| ==> pegs[k].position in checked * goal
  }

  lemma ScanStart(goal: set<Position>, before: seq<Piece>)
    requires OnePegPerCell(before) && AllDefaultColor(before)
    ensures Scanned(goal, before, before, {})
  {
  }

  /** A cell outside the goal, or one that already has a peg, adds nothing. */
  lemma ScanSkip(goal: set<Position>, before: seq<Piece>, pegs: seq<Piece>, checked: set<Position>, t: Position)
    requires Scanned(goal, before, pegs, checked)
    requires t !in goal || HasPegAt(pegs, t)
    ensures Scanned(goal, before, pegs, checked + {t})
  {
    HasPegAtIff(pegs, t);
  }

  /** A goal cell without a peg gets a new white one. */
  lemma ScanAdd(goal: set<Position>, before: seq<Piece>, pegs: seq<Piece>, checked: set<Position>, t: Position)
    requires Scanned(goal, before, pegs, checked)
    requires t in goal && !HasPegAt(pegs, t)
    ensures Scanned(goal, before, pegs + [Piece(t)], checked + {t})
  {
    HasPegAtIff(pegs, t);
    PegCellsAppend(pegs, Piece(t));
    var s := pegs + [Piece(t)];
    forall i, j | 0 <= i < j < |s| ensures s[i].position != s[j].position {
      if j == |pegs| {
        assert s[i] in pegs;
      }
    }
  }

  /**
   * Once every cell is checked the pegs mark exactly the goal cells (when
   * the old pegs lay inside the goal), and each new peg marks a goal cell
   * that had no peg before.
   */
  lemma ScanDone(goal: set<Position>, before: seq<Piece>, pegs: seq<Piece>, checked: set<Position>)
    requires Scanned(goal, before, pegs, checked)
    requires goal <= checked && PegCells(before) <= goal
    ensures PegCells(pegs) == goal
    ensures forall k :: |before| <= k < |pegs| ==> pegs[k].position in goal - PegCells(before)
  {
  }

  /** Moving one cell from the cells to check to the checked ones keeps their union. */
  lemma MoveOne(todo: set<Position>, checked: set<Position>, t: Position)
    requires t in todo && todo !! checked
    ensures (todo - {t}) + (checked + {t}) == todo + checked
    ensures (todo - {t}) !! (checked + {t})
    ensures |todo - {t}| < |todo|
  {
  }

  // --------------------------------------------------------------- board

  class TriangleBoard {
    /** The number of cell rows of the board's grid. */
    const size: int
    /** `_bands`: each band as it was placed, in placing order. */
    var bands: seq<Band>
    /** `_pegs`: the pegs in the order they were created. */
    var pegs: seq<Piece>

    /**
     * Every stored band has a path, pegs are white, at most one per cell,
     * and exactly the surrounded cells carry one.
     */
    ghost predicate Valid()
      reads this
    {
      ValidBands(bands) && OnePegPerCell(pegs) && AllDefaultColor(pegs) &&
      PegCells(pegs) == SurroundedCells(size, bands)
    }

    /** An empty board over a grid of `size` rows. */
    constructor (size: int)
      ensures this.size == size && bands == [] && pegs == []
      ensures Valid()
    {
      this.size := size;
      bands := [];
      pegs := [];
      new;
      NothingSurroundedWithoutBands(size);
    }

    /** `HasBandBetween`: some stored band's path has `v1`, `v2` as neighbours, either way round. */
    method HasBandBetween(v1: Vertex, v2: Vertex) returns (b: bool)
      requires ValidBands(bands)
      ensures b == Covered(bands, v1, v2)
    {
      var k := 0;
      while k < |bands|
        invariant 0 <= k <= |bands|
        invariant forall j :: 0 <= j < k ==> !BandCovers(bands[j], v1, v2)
      {
        var (from, to) := bands[k];
        var found := GetBandPath(from, to);
        var path := found.value;
        var i := 0;
        while i < |path| - 1
          invariant 0 <= i <= |path| - 1
          invariant forall j :: 0 <= j < i ==> !SameEdge(path[j], path[j + 1], v1, v2)
        {
          var pathV1, pathV2 := path[i], path[i + 1];
          if (pathV1 == v1 && pathV2 == v2) || (pathV1 == v2 && pathV2 == v1) {
            assert SameEdge(path[i], path[i + 1], v1, v2);
            assert BandCovers(bands[k], v1, v2);
            return true;
          }
          i := i + 1;
        }
        k := k + 1;
      }
      return false;
    }

    /** `IsTriangleSurrounded`: all three sides covered, checked in order with early exit. */
    method IsTriangleSurrounded(triangle: Position) returns (b: bool)
      requires ValidBands(bands)
      ensures b == Surrounded(bands, triangle)
    {
      var vertices := GetTriangleVertices(triangle);
      var i := 0;
      while i < 3
        invariant 0 <= i <= 3
        invariant SidesCovered(bands, vertices, i)
      {
        var v1, v2 := vertices[i], vertices[(i + 1) % 3];
        var has := HasBandBetween(v1, v2);
        if !has {
          SideUncovered(bands, triangle, i);
          return false;
        }
        SidesCoveredStep(bands, vertices, i);
        i := i + 1;
      }
      SidesAllCovered(bands, triangle);
      return true;
    }

    /**
     * `GetTrianglesTouching`: the cells of the board's grid that have
     * `{v1, v2}` as an edge, in enumeration order; there are at most two.
     */
    method GetTrianglesTouching(v1: Vertex, v2: Vertex) returns (r: seq<Position>)
      ensures r == CellsWithEdge(TrianglePositions(size), v1, v2)
      ensures forall p :: p in r <==> p in EdgeCells(v1, v2) && InGrid(size, p)
      ensures Distinct(r) && |r| <= 2
    {
      var cells := TrianglePositions(size);
      r := [];
      var i := 0;
      while i < |cells|
        invariant 0 <= i <= |cells|
        invariant r == CellsWithEdge(cells[..i], v1, v2)
      {
        assert cells[..i + 1][..i] == cells[..i];
        var vertices := GetTriangleVertices(cells[i]);
        var edge := HasEdge(vertices, v1, v2);
        if edge {
          r := r + [cells[i]];
        }
        i := i + 1;
      }
      assert cells[..i] == cells;
      TouchingMembers(size, v1, v2);
      TouchingCount(size, v1, v2);
      TrianglePositionsSorted(size);
      CellsWithEdgeSorted(cells, v1, v2);
    }

    /**
     * `AddBand`: refuses a band `GetBandPath` refuses, leaving the board as
     * it was; otherwise stores it and scans every cell of the grid, adding a
     * white peg to each surrounded cell that has none yet. The scan goes
     * over a hash set, so the order of the new pegs is left open.
     */
    method AddBand(from: Vertex, to: Vertex) returns (o: Outcome<BandError>)
      requires Valid()
      modifies this
      ensures Valid()
      ensures o.Fail? <==> !Collinear(from, to)
      ensures o.Fail? ==> o.error == InvalidBandPath(from, to) && bands == old(bands) && pegs == old(pegs)
      ensures o.Pass? ==> bands == old(bands) + [(from, to)]
      ensures old(pegs) <= pegs
      ensures forall k :: |old(pegs)| <= k < |pegs| ==>
        pegs[k].position in SurroundedCells(size, bands) - SurroundedCells(size, old(bands))
    {
      var path := GetBandPath(from, to);
      if path.Failure? {
        return Fail(path.error);
      }
      ghost var before := pegs;
      bands := bands + [(from, to)];
      SurroundedMonotone(size, old(bands), [(from, to)]);
      ghost var goal := SurroundedCells(size, bands);
      ScanStart(goal, before);
      var trianglesToCheck := set p | p in TrianglePositions(size);
      ghost var all := trianglesToCheck;
      ghost var checked: set<Position> := {};
      while trianglesToCheck != {}
        invariant ValidBands(bands) && bands == old(bands) + [(from, to)]
        invariant trianglesToCheck + checked == all && trianglesToCheck !! checked
        invariant Scanned(goal, before, pegs, checked)
        decreases |trianglesToCheck|
      {
        var triangle :| triangle in trianglesToCheck;
        var surrounded := IsTriangleSurrounded(triangle);
        assert surrounded <==> triangle in goal;
        if surrounded && !HasPegAt(pegs, triangle) {
          ScanAdd(goal, before, pegs, checked, triangle);
          var piece := Piece(triangle);
          pegs := pegs + [piece];
        } else {
          ScanSkip(goal, before, pegs, checked, triangle);
        }
        MoveOne(trianglesToCheck, checked, triangle);
        trianglesToCheck := trianglesToCheck - {triangle};
        checked := checked + {triangle};
      }
      assert goal <= all == checked;
      ScanDone(goal, before, pegs, checked);
      return Pass;
    }
  }
}
