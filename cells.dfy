/**
 * The compact cell identifier `Position(Row, Index)` (Models/Position.cs) and
 * the scoring piece placed in a cell (Models/Piece.cs).
 */
module Cells {
  import opened CsInt

  /**
   * A triangular cell in compact form: `Index` runs over `0..2*Row`; an even
   * index is an up-pointing cell and an odd one a down-pointing cell.
   */
  datatype Position = Position(row: int, index: int) {

    /** `Index % 2 == 0`, with the C# remainder. */
    predicate PointUp()
    {
      Rem(index, 2) == 0
    }

    /** `"(Row,Index)"` followed by a triangle glyph pointing the cell's way. */
    function ToString(): string
    {
      "(" + IntToString(row) + "," + IntToString(index) + ")" + [if PointUp() then '△' else '▽']
    }
  }

  /** The colour a piece gets when none is given. */
  const DefaultColor: string := "white"

  /** A piece on a cell; records compare component-wise. */
  datatype Piece = Piece(position: Position, color: string := DefaultColor) {

    /** Compatibility accessor for the cell's row. */
    function Row(): int
    {
      position.row
    }

    /** Compatibility accessor for the cell's index. */
    function Index(): int
    {
      position.index
    }

    /** The implicit conversion from a `(Row, Index)` tuple. */
    static function FromPair(row: int, index: int): Piece
    {
      Piece(Position(row, index))
    }

    /** The implicit conversion from a `(Row, Index, Color)` tuple. */
    static function FromTriple(row: int, index: int, color: string): Piece
    {
      Piece(Position(row, index), color)
    }
  }

  /** A cell points up exactly when its index is even, also for negative indices. */
  lemma PointUpIffEven(p: Position)
    ensures p.PointUp() <==> p.index % 2 == 0
    ensures !p.PointUp() <==> p.index % 2 == 1
  {
    DivRemTwo(p.index);
  }

  /** The shape of a cell's text: bracketed coordinates, then the orientation glyph. */
  lemma ToStringShape(p: Position)
    ensures p.ToString() == "(" + IntToString(p.row) + "," + IntToString(p.index) + ")" + [p.ToString()[|p.ToString()| - 1]]
    ensures p.ToString()[0] == '('
    ensures p.ToString()[|p.ToString()| - 1] == '△' <==> p.index % 2 == 0
    ensures p.ToString()[|p.ToString()| - 1] == '▽' <==> p.index % 2 != 0
  {
    PointUpIffEven(p);
  }

  /** Two cells with the same text are the same cell. */
  lemma ToStringInjective(p: Position, q: Position)
    requires p.ToString() == q.ToString()
    ensures p == q
  {
    var a1, b1 := IntToString(p.row), IntToString(p.index);
    var a2, b2 := IntToString(q.row), IntToString(q.index);
    var g := [p.ToString()[|p.ToString()| - 1]];
    ToStringParts(p);
    ToStringParts(q);
    Unwrap(a1 + "," + b1, a2 + "," + b2, g);
    IntToStringShape(p.row);
    IntToStringShape(q.row);
    SplitAtComma(a1, b1, a2, b2);
    IntToStringInjective(p.row, q.row);
    IntToStringInjective(p.index, q.index);
  }

  lemma ToStringParts(p: Position)
    ensures p.ToString() ==
      "(" + (IntToString(p.row) + "," + IntToString(p.index)) + ")" + [p.ToString()[|p.ToString()| - 1]]
  {
  }

  lemma Unwrap(x: string, y: string, g: string)
    requires "(" + x + ")" + g == "(" + y + ")" + g
    ensures x == y
  {
    assert x == ("(" + x + ")" + g)[1..|x| + 1];
    assert y == ("(" + y + ")" + g)[1..|y| + 1];
  }

  /** A comma-free prefix is determined by where the first comma stands. */
  lemma SplitAtComma(a1: string, b1: string, a2: string, b2: string)
    requires forall i :: 0 <= i < |a1| ==> a1[i] != ','
    requires forall i :: 0 <= i < |a2| ==> a2[i] != ','
    requires a1 + "," + b1 == a2 + "," + b2
    ensures a1 == a2 && b1 == b2
  {
    var s := a1 + "," + b1;
    assert s[|a1|] == ',' && forall i :: 0 <= i < |a1| ==> s[i] == a1[i];
    assert s[|a2|] == ',' && forall i :: 0 <= i < |a2| ==> s[i] == a2[i];
    assert |a1| == |a2|;
    assert a1 == s[..|a1|] == a2;
    assert b1 == s[|a1| + 1..] == b2;
  }

  /**
   * A piece built without a colour is white and its accessors read its
   * position; the pair conversion gets the default colour, the triple keeps
   * its own.
   */
  lemma PieceContract(p: Position, row: int, index: int, color: string)
    ensures Piece(p).color == "white"
    ensures Piece(p).Row() == p.row && Piece(p).Index() == p.index
    ensures Piece.FromPair(row, index) == Piece(Position(row, index), "white")
    ensures Piece.FromTriple(row, index, color).color == color
    ensures Piece.FromTriple(row, index, color).position == Position(row, index)
    ensures Piece.FromPair(row, index).Row() == row && Piece.FromPair(row, index).Index() == index
  {
  }
}
