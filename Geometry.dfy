/** Lattice points and the discrete rectangle area of the puzzle. */
module Geometry {

  /** An integer lattice point; equality is component-wise, as Point.__eq__ defines it. */
  datatype Point = Point(x: int, y: int)

  function Abs(n: int): (r: nat)
    ensures r == n || r == -n
  {
    if n < 0 then -n else n
  }

  /**
   * The number of unit cells in the axis-aligned rectangle whose opposite
   * corners are (x1, y1) and (x2, y2), both boundary rows and columns included.
   */
  function Area(x1: int, y1: int, x2: int, y2: int): (r: int)
    ensures r >= Abs(x1 - x2) + 1 && r >= Abs(y1 - y2) + 1
  {
    var a := Abs(x1 - x2) + 1;
    var b := Abs(y1 - y2) + 1;
    assert a * b >= a && a * b >= b by { MulMonotone(a, b); }
    a * b
  }

  lemma MulMonotone(a: nat, b: nat)
    requires a >= 1 && b >= 1
    ensures a * b >= a && a * b >= b
  {
  }

  /**
   * The area does not depend on which corner is named first, nor on which of
   * the rectangle's two diagonals names it.
   */
  lemma AreaSymmetric(x1: int, y1: int, x2: int, y2: int)
    ensures Area(x1, y1, x2, y2) == Area(x2, y2, x1, y1)
    ensures Area(x1, y1, x2, y2) == Area(x1, y2, x2, y1)
    ensures Area(x1, y1, x2, y2) >= 1
  {
  }
}
