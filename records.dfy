/**
 * The plain value records of the lattice: a vertex (a band attachment point),
 * the older stud and peg identifiers, and the expanded triangle coordinate.
 * Each is an immutable value with component-wise equality, as a C# record is.
 */
module Records {

  /** A lattice point `(Row, Col)`, a corner of one or more triangular cells. */
  datatype Vertex = Vertex(row: int, col: int)

  /** The older name of a lattice point, used by the earlier board and geometry. */
  datatype Stud = Stud(row: int, col: int)

  /** The older compact cell identifier `(Row, Col)` with a free-form tag, empty by default. */
  datatype Peg = Peg(row: int, col: int, tag: string := "")

  /** The expanded cell identifier: the row and column of the cell and its orientation. */
  datatype TriangleCoord = TriangleCoord(row: int, col: int, pointUp: bool)

  /** The order `OrderBy(v => v.Row).ThenBy(v => v.Col)` sorts vertices by. */
  predicate VertexLess(a: Vertex, b: Vertex)
  {
    a.row < b.row || (a.row == b.row && a.col < b.col)
  }

  /** Strictly ascending by `(Row, Col)`; in particular free of duplicates. */
  predicate SortedByRowCol(s: seq<Vertex>)
  {
    forall i, j :: 0 <= i < j < |s| ==> VertexLess(s[i], s[j])
  }

  /** VertexLess is a strict total order. */
  lemma VertexLessStrictTotal(a: Vertex, b: Vertex, c: Vertex)
    ensures !VertexLess(a, a)
    ensures VertexLess(a, b) && VertexLess(b, c) ==> VertexLess(a, c)
    ensures a != b ==> VertexLess(a, b) || VertexLess(b, a)
  {
  }

  /** A strictly ascending sequence holds no value twice. */
  lemma SortedDistinct(s: seq<Vertex>, i: int, j: int)
    requires SortedByRowCol(s)
    requires 0 <= i < |s| && 0 <= j < |s| && i != j
    ensures s[i] != s[j]
  {
    if i < j { assert VertexLess(s[i], s[j]); } else { assert VertexLess(s[j], s[i]); }
  }
}
