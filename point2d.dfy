/** The coordinate pair of the library (point2d) and its lexicographic order. */
module Point2D {

  /** A window or image coordinate. The header that fixes its width is not part
      of this model, so the integer is unbounded. */
  type Coord = int

  /** A point: dimension 0 is the row, dimension 1 is the column. */
  datatype Point2d = Point2d(row: Coord, col: Coord) {

    /** The read-only `operator[]`: dimension 0 reads the row, dimension 1 the column. */
    function At(d: nat): (v: Coord)
      requires d < 2
      ensures d == 0 ==> v == row
      ensures d == 1 ==> v == col
    {
      if d == 0 then row else col
    }

    /** A write through the mutable `operator[]` reference: only coordinate d changes. */
    function SetAt(d: nat, v: Coord): (p: Point2d)
      requires d < 2
      ensures p.At(d) == v
      ensures p.At(1 - d) == At(1 - d)
    {
      if d == 0 then Point2d(v, col) else Point2d(row, v)
    }

    /** A write through the mutable `row()` reference. */
    function SetRow(v: Coord): (p: Point2d)
      ensures p.row == v && p.col == col
    {
      SetAt(0, v)
    }

    /** A write through the mutable `col()` reference. */
    function SetCol(v: Coord): (p: Point2d)
      ensures p.col == v && p.row == row
    {
      SetAt(1, v)
    }
  }

  /** The default constructor: the origin. */
  function Origin(): (p: Point2d)
    ensures p.At(0) == 0 && p.At(1) == 0
  {
    Point2d(0, 0)
  }

  /** `less<point2d>`: rows first, columns to break a tie. */
  predicate Less(l: Point2d, r: Point2d)
  {
    if l.row != r.row then l.row < r.row else l.col < r.col
  }

  /** `Less` is the lexicographic order on (row, col). */
  lemma LessIsLexicographic(l: Point2d, r: Point2d)
    ensures Less(l, r) <==> l.row < r.row || (l.row == r.row && l.col < r.col)
  {
  }

  /** `Less` is a strict total order: irreflexive, transitive, and any two
      distinct points are comparable one way and not the other. */
  lemma LessIsStrictTotalOrder(a: Point2d, b: Point2d, c: Point2d)
    ensures !Less(a, a)
    ensures Less(a, b) && Less(b, c) ==> Less(a, c)
    ensures a != b ==> Less(a, b) || Less(b, a)
    ensures Less(a, b) ==> !Less(b, a)
  {
  }
}
