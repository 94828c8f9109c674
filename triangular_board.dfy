/**
 * The integer side of the older board (src/ctc/Models/TriangularBoard.cs):
 * the peg enumeration and the two conversions between a peg, the compact
 * `(Row, Col)` name of a cell, and the expanded triangle coordinate. Its
 * `Studs` enumeration is the same loop as the geometry's and is modelled once,
 * as `TriangleGeometry.Studs`.
 */
module TriangularBoard {
  import opened CsInt
  import opened Records

  // ----------------------------------------------------------------- pegs

  /** The pegs of one row: columns `0 .. 2*row`, with the default empty tag. */
  function PegRow(row: int): seq<Peg>
  {
    if row < 0 then [] else seq(2 * row + 1, c => Peg(row, c))
  }

  /** The pegs of the first `n` rows, row by row. */
  function PegRows(n: int): seq<Peg>
    decreases n
  {
    if n <= 0 then [] else PegRows(n - 1) + PegRow(n - 1)
  }

  /** The number of rows `GetPegs` enumerates: an argument of 0 stands for the board's size. */
  function PegRowLimit(size: int, maxRow: int): int
  {
    if maxRow == 0 then size else maxRow
  }

  /** `GetPegs(maxRow)` of a board of `size` rows. */
  function GetPegs(size: int, maxRow: int := 0): seq<Peg>
  {
    PegRows(PegRowLimit(size, maxRow))
  }

  /** Row-major order on pegs. */
  predicate PegLess(a: Peg, b: Peg)
  {
    a.row < b.row || (a.row == b.row && a.col < b.col)
  }

  lemma PegRowMember(row: int, p: Peg)
    ensures p in PegRow(row) <==> p.row == row && 0 <= p.col <= 2 * row && p.tag == ""
  {
    if p.row == row && 0 <= p.col <= 2 * row && p.tag == "" {
      assert PegRow(row)[p.col] == p;
    }
  }

  lemma {:induction false} PegRowsMember(n: int, p: Peg)
    ensures p in PegRows(n) <==> 0 <= p.row < n && 0 <= p.col <= 2 * p.row && p.tag == ""
    decreases n
  {
    if n > 0 {
      PegRowsMember(n - 1, p);
      PegRowMember(n - 1, p);
      assert p in PegRows(n) <==> p in PegRows(n - 1) || p in PegRow(n - 1);
    }
  }

  /** `GetPegs(maxRow)` yields exactly the untagged pegs `(row, col)` with `row < maxRow` and `col <= 2*row`. */
  lemma GetPegsMembers(size: int, maxRow: int, p: Peg)
    ensures p in GetPegs(size, maxRow) <==>
      0 <= p.row < PegRowLimit(size, maxRow) && 0 <= p.col <= 2 * p.row && p.tag == ""
  {
    PegRowsMember(PegRowLimit(size, maxRow), p);
  }

  lemma {:induction false} PegRowsCount(n: int)
    requires n >= 0
    ensures |PegRows(n)| == n * n
    decreases n
  {
    if n > 0 {
      PegRowsCount(n - 1);
      assert (n - 1) * (n - 1) + 2 * (n - 1) + 1 == n * n;
    }
  }

  /** Row `r` holds `2r + 1` pegs, so `m` rows hold `m²`; a negative limit yields none. */
  lemma GetPegsCount(size: int, maxRow: int)
    ensures var m := PegRowLimit(size, maxRow);
      |GetPegs(size, maxRow)| == if m >= 0 then m * m else 0
  {
    var m := PegRowLimit(size, maxRow);
    if m >= 0 {
      PegRowsCount(m);
    }
  }

  /** Pegs listed in `PegLess` order. */
  ghost predicate PegsSorted(s: seq<Peg>)
  {
    forall i, j :: 0 <= i < j < |s| ==> PegLess(s[i], s[j])
  }

  lemma {:induction false} PegRowsSorted(n: int)
    ensures PegsSorted(PegRows(n))
    decreases n
  {
    if n > 0 {
      PegRowsSorted(n - 1);
      var a, b := PegRows(n - 1), PegRow(n - 1);
      forall i, j | 0 <= i < j < |a + b| ensures PegLess((a + b)[i], (a + b)[j]) {
        if j >= |a| && i < |a| {
          PegRowsMember(n - 1, a[i]);
        }
      }
    }
  }

  /** Pegs come row by row, left to right, so none is listed twice. */
  lemma GetPegsSorted(size: int, maxRow: int)
    ensures PegsSorted(GetPegs(size, maxRow))
  {
    PegRowsSorted(PegRowLimit(size, maxRow));
  }

  // ---------------------------------------------------------- conversions

  /** `PegToTriangleCoord`: an even column is an up triangle, an odd one the down triangle a row higher. */
  function PegToTriangleCoord(peg: Peg): TriangleCoord
  {
    var triangleCol := Div(peg.col, 2);
    if Rem(peg.col, 2) == 0 then TriangleCoord(peg.row, triangleCol, true)
    else TriangleCoord(peg.row - 1, triangleCol, false)
  }

  /** `TriangleCoordToPeg`: the new peg carries the default empty tag. */
  function TriangleCoordToPeg(triangle: TriangleCoord): Peg
  {
    if triangle.pointUp then Peg(triangle.row, triangle.col * 2)
    else Peg(triangle.row + 1, triangle.col * 2 + 1)
  }

  /**
   * The parity of the peg column decides the orientation; the coordinate's
   * column is the halved peg column, truncated toward zero as C# does.
   */
  lemma PegToTriangleCoordMeaning(peg: Peg)
    ensures var t := PegToTriangleCoord(peg);
      (t.pointUp <==> peg.col % 2 == 0) &&
      t.row == (if t.pointUp then peg.row else peg.row - 1) &&
      peg.col == 2 * t.col + (if t.pointUp then 0 else if peg.col > 0 then 1 else -1)
  {
    DivRemTwo(peg.col);
  }

  /** An up coordinate becomes an even column in the same row, a down one an odd column one row lower. */
  lemma TriangleCoordToPegMeaning(t: TriangleCoord)
    ensures var p := TriangleCoordToPeg(t);
      p.tag == "" &&
      (p.col % 2 == 0 <==> t.pointUp) &&
      p.row == (if t.pointUp then t.row else t.row + 1)
  {
  }

  /** A coordinate survives the trip through a peg exactly when it is up or its column is not negative. */
  lemma CoordRoundTrip(t: TriangleCoord)
    ensures PegToTriangleCoord(TriangleCoordToPeg(t)) == t <==> t.pointUp || t.col >= 0
  {
    if t.pointUp {
      DivTwoOfEven(t.col);
    } else {
      DivTwoOfOdd(t.col);
    }
  }

  /**
   * A peg survives the trip through a coordinate, except for its tag, exactly
   * when its column is even or not negative.
   */
  lemma PegRoundTrip(peg: Peg)
    ensures TriangleCoordToPeg(PegToTriangleCoord(peg)) == Peg(peg.row, peg.col) <==>
      peg.col >= 0 || peg.col % 2 == 0
  {
    DivRemTwo(peg.col);
    if Rem(peg.col, 2) != 0 && peg.col < 0 {
      assert TriangleCoordToPeg(PegToTriangleCoord(peg)).col == peg.col + 2;
    }
  }

  /** The tag is the one part of a peg the conversions forget. */
  lemma PegRoundTripDropsTag(peg: Peg)
    requires peg.col >= 0
    ensures TriangleCoordToPeg(PegToTriangleCoord(peg)) == peg <==> peg.tag == ""
  {
    PegRoundTrip(peg);
  }
}
