/**
 * The integer side of the older geometry (src/ctc/Models/TriangleGeometry.cs):
 * the studs of a board of `size` rows, its triangle coordinates, and the
 * studs `GetTriangleCorners` picks as a triangle's corners. The expanded
 * coordinate keeps a down triangle in the row of its upper edge's left
 * neighbour, so its corners sit one row lower than an up triangle's.
 */
module TriangleGeometry {
  import opened Records

  // ---------------------------------------------------------------- studs

  /** The studs of one row: `(row, 0) .. (row, row)`. */
  function StudRow(row: nat): seq<Stud>
  {
    seq(row + 1, c => Stud(row, c))
  }

  /** The studs of the first `n` rows, row by row. */
  function StudRows(n: int): seq<Stud>
    decreases n
  {
    if n <= 0 then [] else StudRows(n - 1) + StudRow(n - 1)
  }

  /** `Studs`: rows `0..size` inclusive, because studs sit on the corners. */
  function Studs(size: int): seq<Stud>
  {
    StudRows(size + 1)
  }

  /** Row-major order on studs. */
  predicate StudLess(a: Stud, b: Stud)
  {
    a.row < b.row || (a.row == b.row && a.col < b.col)
  }

  lemma StudRowMember(row: nat, s: Stud)
    ensures s in StudRow(row) <==> s.row == row && 0 <= s.col <= row
  {
    if s.row == row && 0 <= s.col <= row {
      assert StudRow(row)[s.col] == s;
    }
  }

  lemma {:induction false} StudRowsMember(n: int, s: Stud)
    ensures s in StudRows(n) <==> 0 <= s.row < n && 0 <= s.col <= s.row
    decreases n
  {
    if n > 0 {
      StudRowsMember(n - 1, s);
      StudRowMember(n - 1, s);
      assert s in StudRows(n) <==> s in StudRows(n - 1) || s in StudRow(n - 1);
    }
  }

  /** The studs of a board are exactly the points with `0 <= col <= row <= size`. */
  lemma StudsMembers(size: int)
    ensures forall s :: s in Studs(size) <==> 0 <= s.row <= size && 0 <= s.col <= s.row
  {
    forall s: Stud ensures s in Studs(size) <==> 0 <= s.row <= size && 0 <= s.col <= s.row {
      StudRowsMember(size + 1, s);
    }
  }

  lemma {:induction false} StudRowsCount(n: nat)
    ensures 2 * |StudRows(n)| == n * (n + 1)
    decreases n
  {
    if n > 0 {
      StudRowsCount(n - 1);
    }
  }

  /** Row `r` holds `r + 1` studs, so a board of `size` rows has `(size+1)(size+2)/2`. */
  lemma StudsCount(size: int)
    requires size >= -1
    ensures 2 * |Studs(size)| == (size + 1) * (size + 2)
  {
    StudRowsCount(size + 1);
  }

  /** Studs listed in `StudLess` order. */
  ghost predicate StudsInOrder(s: seq<Stud>)
  {
    forall i, j :: 0 <= i < j < |s| ==> StudLess(s[i], s[j])
  }

  lemma {:induction false} StudRowsSorted(n: int)
    ensures StudsInOrder(StudRows(n))
    decreases n
  {
    if n > 0 {
      StudRowsSorted(n - 1);
      var a, b := StudRows(n - 1), StudRow(n - 1);
      forall i, j | 0 <= i < j < |a + b| ensures StudLess((a + b)[i], (a + b)[j]) {
        if i < |a| <= j {
          StudRowsMember(n - 1, a[i]);
        }
      }
    }
  }

  /** Studs come row by row, left to right, so none is listed twice. */
  lemma StudsSorted(size: int)
    ensures StudsInOrder(Studs(size))
  {
    StudRowsSorted(size + 1);
  }

  // ---------------------------------------------------- triangle coords

  /**
   * The coordinates yielded for one row, column by column: the up triangle,
   * then the down one except in the last row. Entry `i` of a full row is
   * column `i / 2`, up when `i` is even.
   */
  function CoordRow(size: int, row: int): seq<TriangleCoord>
  {
    if row < 0 then []
    else if row != size - 1 then seq(2 * (row + 1), i => TriangleCoord(row, i / 2, i % 2 == 0))
    else seq(row + 1, i => TriangleCoord(row, i, true))
  }

  /** The coordinates of the first `n` rows. */
  function CoordRows(size: int, n: int): seq<TriangleCoord>
    decreases n
  {
    if n <= 0 then [] else CoordRows(size, n - 1) + CoordRow(size, n - 1)
  }

  /** `TriangleCoords`: every triangle of a board of `size` rows. */
  function TriangleCoords(size: int): seq<TriangleCoord>
  {
    CoordRows(size, size)
  }

  /** The triangles a board of `size` rows has: no down triangle in its last row. */
  predicate OnBoard(size: int, t: TriangleCoord)
  {
    0 <= t.col <= t.row < size && (t.pointUp || t.row != size - 1)
  }

  /** Rows ascending, then columns, then the up triangle before the down one. */
  predicate CoordLess(a: TriangleCoord, b: TriangleCoord)
  {
    a.row < b.row || (a.row == b.row && (a.col < b.col || (a.col == b.col && a.pointUp && !b.pointUp)))
  }

  lemma CoordRowMember(size: int, row: int, t: TriangleCoord)
    ensures t in CoordRow(size, row) <==> t.row == row && 0 <= t.col <= row && (t.pointUp || row != size - 1)
  {
    if t.row == row && 0 <= t.col <= row && (t.pointUp || row != size - 1) {
      if row != size - 1 {
        var i := 2 * t.col + (if t.pointUp then 0 else 1);
        assert CoordRow(size, row)[i] == t;
      } else {
        assert CoordRow(size, row)[t.col] == t;
      }
    }
  }

  lemma {:induction false} CoordRowsMember(size: int, n: int, t: TriangleCoord)
    ensures t in CoordRows(size, n) <==> 0 <= t.col <= t.row < n && (t.pointUp || t.row != size - 1)
    decreases n
  {
    if n > 0 {
      CoordRowsMember(size, n - 1, t);
      CoordRowMember(size, n - 1, t);
      assert t in CoordRows(size, n) <==> t in CoordRows(size, n - 1) || t in CoordRow(size, n - 1);
    }
  }

  /** `TriangleCoords` yields exactly the triangles of the board. */
  lemma TriangleCoordsMembers(size: int)
    ensures forall t :: t in TriangleCoords(size) <==> OnBoard(size, t)
  {
    forall t: TriangleCoord ensures t in TriangleCoords(size) <==> OnBoard(size, t) {
      CoordRowsMember(size, size, t);
    }
  }

  lemma {:induction false} CoordRowsCount(size: int, n: nat)
    requires n < size
    ensures |CoordRows(size, n)| == n * (n + 1)
    decreases n
  {
    if n > 0 {
      CoordRowsCount(size, n - 1);
    }
  }

  /** A board of `size` rows has `size²` triangles. */
  lemma TriangleCoordsCount(size: nat)
    ensures |TriangleCoords(size)| == size * size
  {
    if size > 0 {
      CoordRowsCount(size, size - 1);
    }
  }

  lemma CoordRowSorted(size: int, row: int)
    ensures CoordsSorted(CoordRow(size, row))
  {
  }

  /** Coordinates listed in `CoordLess` order. */
  ghost predicate CoordsSorted(s: seq<TriangleCoord>)
  {
    forall i, j :: 0 <= i < j < |s| ==> CoordLess(s[i], s[j])
  }

  lemma SortedConcat(a: seq<TriangleCoord>, b: seq<TriangleCoord>)
    requires CoordsSorted(a) && CoordsSorted(b)
    requires forall i, j :: 0 <= i < |a| && 0 <= j < |b| ==> CoordLess(a[i], b[j])
    ensures CoordsSorted(a + b)
  {
    forall i, j | 0 <= i < j < |a + b| ensures CoordLess((a + b)[i], (a + b)[j]) {
      if j < |a| {
      } else if i >= |a| {
        assert CoordLess(b[i - |a|], b[j - |a|]);
      } else {
        assert CoordLess(a[i], b[j - |a|]);
      }
    }
  }

  /** Every earlier row comes before row `row`. */
  lemma RowsBeforeRow(size: int, row: int)
    ensures forall i, j :: 0 <= i < |CoordRows(size, row)| && 0 <= j < |CoordRow(size, row)| ==>
      CoordLess(CoordRows(size, row)[i], CoordRow(size, row)[j])
  {
    var a, b := CoordRows(size, row), CoordRow(size, row);
    forall i, j | 0 <= i < |a| && 0 <= j < |b| ensures CoordLess(a[i], b[j]) {
      CoordRowsMember(size, row, a[i]);
      CoordRowMember(size, row, b[j]);
    }
  }

  lemma {:induction false} CoordRowsSorted(size: int, n: int)
    ensures CoordsSorted(CoordRows(size, n))
    decreases n
  {
    if n > 0 {
      CoordRowsSorted(size, n - 1);
      CoordRowSorted(size, n - 1);
      RowsBeforeRow(size, n - 1);
      SortedConcat(CoordRows(size, n - 1), CoordRow(size, n - 1));
    }
  }

  /** Triangles come row by row, the up one of each column first, so none is listed twice. */
  lemma TriangleCoordsSorted(size: int)
    ensures CoordsSorted(TriangleCoords(size))
  {
    CoordRowsSorted(size, size);
  }

  // ------------------------------------------------------------- corners

  /** The studs `GetTriangleCorners` converts to pixels, in its order. */
  function CornerStuds(t: TriangleCoord): seq<Stud>
  {
    if t.pointUp then [Stud(t.row, t.col), Stud(t.row + 1, t.col), Stud(t.row + 1, t.col + 1)]
    else [Stud(t.row + 1, t.col + 1), Stud(t.row + 1, t.col), Stud(t.row + 2, t.col + 1)]
  }

  /** Every corner of every triangle of the board is one of its studs, and the three are distinct. */
  lemma CornersAreStuds(size: int, t: TriangleCoord)
    requires t in TriangleCoords(size)
    ensures forall s :: s in CornerStuds(t) ==> s in Studs(size)
    ensures var cs := CornerStuds(t); cs[0] != cs[1] && cs[1] != cs[2] && cs[0] != cs[2]
  {
    TriangleCoordsMembers(size);
    StudsMembers(size);
  }
}
