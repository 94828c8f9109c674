/**
 * Bands (src/ctc/TriangleBoard.cs): a band is a pair of endpoint vertices.
 * `GetBandPath` rasterises it into the straight lattice path between them,
 * one unit step at a time. The three permitted directions are a constant
 * row, a constant column, or a constant `row - col`. A stored band covers
 * every unit edge between consecutive vertices of its path.
 */
module Bands {
  import opened Wrappers
  import opened Records
  import opened Grid

  /** A stored band: the `(from, to)` pair exactly as it was placed. */
  type Band = (Vertex, Vertex)

  /** `ArgumentException("Invalid band path from … to …")`. */
  datatype BandError = InvalidBandPath(from: Vertex, to: Vertex)

  // ---------------------------------------------------------------- path

  /** `from < to ? 1 : -1`. */
  function Toward(a: int, b: int): int
  {
    if a < b then 1 else -1
  }

  /** The endpoints share a row, a column, or a `row - col` diagonal. */
  predicate Collinear(from: Vertex, to: Vertex)
  {
    from.row == to.row || from.col == to.col || from.row - from.col == to.row - to.col
  }

  /** `GetBandPath`'s choice of `(deltaRow, deltaCol)`, or `None` where it throws. */
  function Delta(from: Vertex, to: Vertex): (d: Option<(int, int)>)
    ensures d.Some? <==> Collinear(from, to)
    ensures d.Some? ==> UnitStep(d.value)
  {
    if from.row == to.row then Some((0, Toward(from.col, to.col)))
    else if from.col == to.col then Some((Toward(from.row, to.row), 0))
    else if from.row - from.col == to.row - to.col then Some((Toward(from.row, to.row), Toward(from.col, to.col)))
    else None
  }

  function Abs(x: int): nat
  {
    if x < 0 then -x else x
  }

  /** The number of unit steps from `from` to `to`: `max(|Δrow|, |Δcol|)`. */
  function Span(from: Vertex, to: Vertex): nat
  {
    var dr, dc := Abs(to.row - from.row), Abs(to.col - from.col);
    if dr < dc then dc else dr
  }

  /** `k` times a unit delta `s` in `{-1, 0, 1}`, kept linear. */
  function Scale(k: int, s: int): int
  {
    if s == 0 then 0 else if s > 0 then k else -k
  }

  /** The vertex `k` steps of `d` away from `from`. */
  function Point(from: Vertex, d: (int, int), k: int): Vertex
  {
    Vertex(from.row + Scale(k, d.0), from.col + Scale(k, d.1))
  }

  /** The straight walk of `n` steps of `d` from `from`, both ends included. */
  function Walk(from: Vertex, d: (int, int), n: nat): (w: seq<Vertex>)
    ensures |w| == n + 1
  {
    seq(n + 1, k => Point(from, d, k))
  }

  /** The path `GetBandPath(from, to)` returns, or the error it throws. */
  function BandPath(from: Vertex, to: Vertex): (r: Result<seq<Vertex>, BandError>)
    ensures r.Failure? <==> !Collinear(from, to)
    ensures r.Failure? ==> r.error == InvalidBandPath(from, to)
    ensures r.Success? ==> |r.value| == Span(from, to) + 1 && r.value[0] == from && r.value[|r.value| - 1] == to
  {
    match Delta(from, to)
    case None => Failure(InvalidBandPath(from, to))
    case Some(d) =>
      ReachesEnd(from, to, Span(from, to));
      Success(Walk(from, d, Span(from, to)))
  }

  /** The delta is one of the six unit steps, with equal signs on the diagonal. */
  predicate UnitStep(d: (int, int))
  {
    d in {(0, 1), (0, -1), (1, 0), (-1, 0), (1, 1), (-1, -1)}
  }

  function StepBetween(a: Vertex, b: Vertex): (int, int)
  {
    (b.row - a.row, b.col - a.col)
  }

  /** Walking the delta reaches `to` after exactly `Span` steps and not before. */
  lemma ReachesEnd(from: Vertex, to: Vertex, k: nat)
    requires Delta(from, to).Some?
    ensures UnitStep(Delta(from, to).value)
    ensures Point(from, Delta(from, to).value, k) == to <==> k == Span(from, to)
  {
  }

  lemma PointStep(from: Vertex, d: (int, int), k: nat)
    requires UnitStep(d)
    ensures Point(from, d, k + 1) == Vertex(Point(from, d, k).row + d.0, Point(from, d, k).col + d.1)
  {
  }

  lemma WalkStep(from: Vertex, d: (int, int), n: nat)
    ensures Walk(from, d, n + 1) == Walk(from, d, n) + [Point(from, d, n + 1)]
  {
  }

  /**
   * `GetBandPath`: chooses the delta, then steps from `from` until it stands
   * on `to`. The walk ends after `Span` steps, so the loop terminates.
   */
  method GetBandPath(from: Vertex, to: Vertex) returns (r: Result<seq<Vertex>, BandError>)
    ensures r == BandPath(from, to)
  {
    var deltaRow, deltaCol;
    if from.row == to.row {
      deltaRow := 0;
      deltaCol := if from.col < to.col then 1 else -1;
    } else if from.col == to.col {
      deltaRow := if from.row < to.row then 1 else -1;
      deltaCol := 0;
    } else if from.row - from.col == to.row - to.col {
      deltaRow := if from.row < to.row then 1 else -1;
      deltaCol := if from.col < to.col then 1 else -1;
    } else {
      return Failure(InvalidBandPath(from, to));
    }
    assert Delta(from, to) == Some((deltaRow, deltaCol));
    var path := StepTo(from, to, deltaRow, deltaCol);
    return Success(path);
  }

  /** The `while (current != to)` loop of `GetBandPath`, once the delta is chosen. */
  method StepTo(from: Vertex, to: Vertex, deltaRow: int, deltaCol: int) returns (path: seq<Vertex>)
    requires Delta(from, to) == Some((deltaRow, deltaCol))
    ensures path == Walk(from, (deltaRow, deltaCol), Span(from, to))
  {
    ghost var d := (deltaRow, deltaCol);
    ghost var span := Span(from, to);
    ReachesEnd(from, to, span);
    path := [from];
    var current := from;
    while current != to
      invariant 1 <= |path| <= span + 1
      invariant path == Walk(from, d, |path| - 1)
      invariant current == Point(from, d, |path| - 1)
      decreases span - |path|
    {
      ReachesEnd(from, to, |path| - 1);
      PointStep(from, d, |path| - 1);
      WalkStep(from, d, |path| - 1);
      current := Vertex(current.row + deltaRow, current.col + deltaCol);
      path := path + [current];
    }
    ReachesEnd(from, to, |path| - 1);
  }

  // ------------------------------------------------- facts about paths

  /** Every step of a band path is the same unit step. */
  lemma BandPathSteps(from: Vertex, to: Vertex)
    requires Collinear(from, to)
    ensures var p := BandPath(from, to).value;
      forall i :: 0 <= i < |p| - 1 ==> StepBetween(p[i], p[i + 1]) == Delta(from, to).value
    ensures UnitStep(Delta(from, to).value)
  {
    var d := Delta(from, to).value;
    ReachesEnd(from, to, 0);
    forall i | 0 <= i < Span(from, to) {
      PointStep(from, d, i);
    }
  }

  function Reverse<T>(s: seq<T>): (r: seq<T>)
    ensures |r| == |s|
  {
    seq(|s|, i requires 0 <= i < |s| => s[|s| - 1 - i])
  }

  /** The band placed the other way round has the same path, reversed. */
  lemma BandPathReverse(from: Vertex, to: Vertex)
    requires Collinear(from, to)
    ensures BandPath(to, from).Success?
    ensures BandPath(to, from).value == Reverse(BandPath(from, to).value)
  {
    var p, q := BandPath(from, to).value, BandPath(to, from).value;
    var n := Span(from, to);
    assert Span(to, from) == n;
    ReachesEnd(from, to, n);
    ReachesEnd(to, from, n);
    var d, e := Delta(from, to).value, Delta(to, from).value;
    forall k | 0 <= k <= n ensures q[k] == p[n - k] {
      if from != to {
        assert e == (-d.0, -d.1);
      }
    }
  }

  /** Endpoints on none of the three directions are refused, and only those. */
  lemma BandPathFails(from: Vertex, to: Vertex)
    ensures BandPath(from, to) == Failure(InvalidBandPath(from, to)) <==>
      from.row != to.row && from.col != to.col && from.row - from.col != to.row - to.col
  {
  }

  // ----------------------------------------------------- example paths

  lemma PathOf(from: Vertex, to: Vertex, d: (int, int), w: seq<Vertex>)
    requires Delta(from, to) == Some(d) && |w| == Span(from, to) + 1
    requires forall k :: 0 <= k < |w| ==> w[k] == Point(from, d, k)
    ensures BandPath(from, to) == Success(w)
  {
    assert Walk(from, d, Span(from, to)) == w;
  }

  /** Three steps along a row, as the band `(4,0)-(4,3)` takes them. */
  lemma RowPath(v: Vertex)
    ensures BandPath(v, Vertex(v.row, v.col + 3)) ==
      Success([v, Vertex(v.row, v.col + 1), Vertex(v.row, v.col + 2), Vertex(v.row, v.col + 3)])
  {
    PathOf(v, Vertex(v.row, v.col + 3), (0, 1),
      [v, Vertex(v.row, v.col + 1), Vertex(v.row, v.col + 2), Vertex(v.row, v.col + 3)]);
  }

  /** Three steps along a diagonal of constant `row - col`, as the band `(4,1)-(7,4)` takes them. */
  lemma DiagonalPathFrom(v: Vertex)
    ensures BandPath(v, Vertex(v.row + 3, v.col + 3)) ==
      Success([v, Vertex(v.row + 1, v.col + 1), Vertex(v.row + 2, v.col + 2), Vertex(v.row + 3, v.col + 3)])
  {
    PathOf(v, Vertex(v.row + 3, v.col + 3), (1, 1),
      [v, Vertex(v.row + 1, v.col + 1), Vertex(v.row + 2, v.col + 2), Vertex(v.row + 3, v.col + 3)]);
  }

  /** Three steps down a column, as the band `(4,2)-(7,2)` takes them. */
  lemma ColumnPath(v: Vertex)
    ensures BandPath(v, Vertex(v.row + 3, v.col)) ==
      Success([v, Vertex(v.row + 1, v.col), Vertex(v.row + 2, v.col), Vertex(v.row + 3, v.col)])
  {
    PathOf(v, Vertex(v.row + 3, v.col), (1, 0),
      [v, Vertex(v.row + 1, v.col), Vertex(v.row + 2, v.col), Vertex(v.row + 3, v.col)]);
  }

  /** A band one step long is just its two endpoints, as `(0,0)-(1,0)` is. */
  lemma UnitPath(v: Vertex)
    ensures BandPath(v, Vertex(v.row + 1, v.col)) == Success([v, Vertex(v.row + 1, v.col)])
  {
    PathOf(v, Vertex(v.row + 1, v.col), (1, 0), [v, Vertex(v.row + 1, v.col)]);
  }

  lemma HorizontalPath()
    ensures BandPath(Vertex(4, 0), Vertex(4, 3)) == Success([Vertex(4, 0), Vertex(4, 1), Vertex(4, 2), Vertex(4, 3)])
  {
    RowPath(Vertex(4, 0));
  }

  lemma DiagonalPath()
    ensures BandPath(Vertex(4, 1), Vertex(7, 4)) == Success([Vertex(4, 1), Vertex(5, 2), Vertex(6, 3), Vertex(7, 4)])
  {
    DiagonalPathFrom(Vertex(4, 1));
  }

  lemma AntiDiagonalPath()
    ensures BandPath(Vertex(4, 2), Vertex(7, 2)) == Success([Vertex(4, 2), Vertex(5, 2), Vertex(6, 2), Vertex(7, 2)])
  {
    ColumnPath(Vertex(4, 2));
  }

  // ------------------------------------------------------------ coverage

  /** `v1` and `v2` are consecutive in `path`, in either order. */
  predicate Consecutive(path: seq<Vertex>, v1: Vertex, v2: Vertex)
  {
    exists i :: 0 <= i < |path| - 1 && SameEdge(path[i], path[i + 1], v1, v2)
  }

  /** The band's path has `v1` and `v2` as consecutive vertices. */
  predicate BandCovers(band: Band, v1: Vertex, v2: Vertex)
  {
    var p := BandPath(band.0, band.1);
    p.Success? && Consecutive(p.value, v1, v2)
  }

  /** Some stored band covers the unit edge `{v1, v2}`: what `HasBandBetween` reports. */
  predicate Covered(bands: seq<Band>, v1: Vertex, v2: Vertex)
  {
    exists k :: 0 <= k < |bands| && BandCovers(bands[k], v1, v2)
  }

  /** Every stored band has a path: `AddBand` only stores bands `GetBandPath` accepts. */
  predicate ValidBands(bands: seq<Band>)
  {
    forall k :: 0 <= k < |bands| ==> Collinear(bands[k].0, bands[k].1)
  }

  lemma CoveredSymmetric(bands: seq<Band>, v1: Vertex, v2: Vertex)
    ensures Covered(bands, v1, v2) <==> Covered(bands, v2, v1)
  {
    forall k | 0 <= k < |bands| ensures BandCovers(bands[k], v1, v2) <==> BandCovers(bands[k], v2, v1) {
      var p := BandPath(bands[k].0, bands[k].1);
      if p.Success? {
        assert Consecutive(p.value, v1, v2) <==> Consecutive(p.value, v2, v1) by {
          forall i | 0 <= i < |p.value| - 1
            ensures SameEdge(p.value[i], p.value[i + 1], v1, v2) <==> SameEdge(p.value[i], p.value[i + 1], v2, v1)
          {
          }
        }
      }
    }
  }

  /** Appending a band covers what was covered before plus what the new band covers. */
  lemma CoveredAppend(bands: seq<Band>, band: Band, v1: Vertex, v2: Vertex)
    ensures Covered(bands + [band], v1, v2) <==> Covered(bands, v1, v2) || BandCovers(band, v1, v2)
  {
    var all := bands + [band];
    if Covered(bands, v1, v2) {
      var k :| 0 <= k < |bands| && BandCovers(bands[k], v1, v2);
      assert all[k] == bands[k];
    }
    if BandCovers(band, v1, v2) {
      assert all[|bands|] == band;
    }
    if Covered(all, v1, v2) {
      var k :| 0 <= k < |all| && BandCovers(all[k], v1, v2);
      if k < |bands| {
        assert all[k] == bands[k];
      }
    }
  }

  /** Coverage only grows as bands are added. */
  lemma CoveredMonotone(bands: seq<Band>, more: seq<Band>, v1: Vertex, v2: Vertex)
    requires Covered(bands, v1, v2)
    ensures Covered(bands + more, v1, v2)
  {
    var k :| 0 <= k < |bands| && BandCovers(bands[k], v1, v2);
    assert (bands + more)[k] == bands[k];
  }

  /** Every edge a band covers lies along the band's direction, one way or the other. */
  lemma BandCoversAlongDelta(band: Band, v1: Vertex, v2: Vertex)
    requires BandCovers(band, v1, v2)
    ensures StepBetween(v1, v2) == Delta(band.0, band.1).value || StepBetween(v2, v1) == Delta(band.0, band.1).value
  {
    var p := BandPath(band.0, band.1).value;
    BandPathSteps(band.0, band.1);
    var i :| 0 <= i < |p| - 1 && SameEdge(p[i], p[i + 1], v1, v2);
  }

  /** A covered edge joins two vertices one unit step apart. */
  lemma CoveredIsUnitStep(bands: seq<Band>, v1: Vertex, v2: Vertex)
    requires Covered(bands, v1, v2)
    ensures UnitStep(StepBetween(v1, v2)) || UnitStep(StepBetween(v2, v1))
  {
    var k :| 0 <= k < |bands| && BandCovers(bands[k], v1, v2);
    var (from, to) := bands[k];
    BandPathSteps(from, to);
  }
}
