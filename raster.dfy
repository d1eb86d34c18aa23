/** Rasters as numpy holds them: a sequence of rows, shape (height, width).
    Pixel (x, y) in PIL's coordinates is g[y][x]. */
module Raster {

  type Grid = seq<seq<int>>

  /** g has exactly `height` rows of exactly `width` cells each. */
  predicate IsRect(g: Grid, height: nat, width: nat) {
    |g| == height && forall y :: 0 <= y < |g| ==> |g[y]| == width
  }

  /** Every cell holds a value an 8-bit unsigned pixel can store. */
  predicate FitsUint8(g: Grid) {
    forall y, x :: 0 <= y < |g| && 0 <= x < |g[y]| ==> 0 <= g[y][x] < 256
  }

  /** Number of cells of a row equal to v. */
  function CountInRow(row: seq<int>, v: int): (n: nat)
    ensures n <= |row|
    ensures n == 0 <==> v !in row
    ensures n == |row| <==> forall i :: 0 <= i < |row| ==> row[i] == v
  {
    if row == [] then 0
    else (if row[0] == v then 1 else 0) + CountInRow(row[1..], v)
  }

  /** Number of cells of g in all, row by row. */
  function CellCount(g: Grid): nat {
    if g == [] then 0 else |g[0]| + CellCount(g[1..])
  }

  /** Number of cells of g equal to v. */
  function Count(g: Grid, v: int): (n: nat)
    ensures n <= CellCount(g)
  {
    if g == [] then 0 else CountInRow(g[0], v) + Count(g[1..], v)
  }

  /** The cells of g in row-major order, as numpy's `flatten()` gives them. */
  function Flatten(g: Grid): seq<int> {
    if g == [] then [] else g[0] + Flatten(g[1..])
  }

  lemma {:induction false} CountInRowIsMultiplicity(row: seq<int>, v: int)
    ensures CountInRow(row, v) == multiset(row)[v]
  {
    if row != [] {
      CountInRowIsMultiplicity(row[1..], v);
      assert row == [row[0]] + row[1..];
    }
  }

  /** Count agrees with the multiplicity of v among the flattened cells. */
  lemma {:induction false} CountIsMultiplicity(g: Grid, v: int)
    ensures Count(g, v) == multiset(Flatten(g))[v]
  {
    if g != [] {
      CountInRowIsMultiplicity(g[0], v);
      CountIsMultiplicity(g[1..], v);
      assert multiset(g[0] + Flatten(g[1..])) == multiset(g[0]) + multiset(Flatten(g[1..]));
    }
  }

  /** A raster of `height` rows of `width` cells has height * width cells. */
  lemma {:induction false} CellCountOfRect(g: Grid, height: nat, width: nat)
    requires IsRect(g, height, width)
    ensures CellCount(g) == height * width
  {
    if g != [] {
      assert IsRect(g[1..], height - 1, width);
      CellCountOfRect(g[1..], height - 1, width);
    }
  }

  /** Two rows that correspond cell by cell (a cell of m is a exactly where
      the cell of r is b) hold as many a's as r holds b's. */
  lemma {:induction false} CountInRowCorresponds(m: seq<int>, r: seq<int>, a: int, b: int)
    requires |m| == |r|
    requires forall i :: 0 <= i < |m| ==> (m[i] == a <==> r[i] == b)
    ensures CountInRow(m, a) == CountInRow(r, b)
  {
    if m != [] {
      CountInRowCorresponds(m[1..], r[1..], a, b);
    }
  }

  /** The same correspondence for whole rasters of the same shape. */
  lemma {:induction false} CountCorresponds(m: Grid, g: Grid, a: int, b: int)
    requires |m| == |g|
    requires forall y :: 0 <= y < |m| ==> |m[y]| == |g[y]|
    requires forall y, x :: 0 <= y < |m| && 0 <= x < |m[y]| ==> (m[y][x] == a <==> g[y][x] == b)
    ensures Count(m, a) == Count(g, b)
  {
    if m != [] {
      CountInRowCorresponds(m[0], g[0], a, b);
      CountCorresponds(m[1..], g[1..], a, b);
    }
  }

  /** In a row whose cells are all a or c (a != c), the a's and the c's make up the row. */
  lemma {:induction false} TwoValuedRowCount(row: seq<int>, a: int, c: int)
    requires a != c
    requires forall i :: 0 <= i < |row| ==> row[i] == a || row[i] == c
    ensures CountInRow(row, a) + CountInRow(row, c) == |row|
  {
    if row != [] {
      TwoValuedRowCount(row[1..], a, c);
    }
  }

  /** The same for whole rasters. */
  lemma {:induction false} TwoValuedCount(g: Grid, a: int, c: int)
    requires a != c
    requires forall y, x :: 0 <= y < |g| && 0 <= x < |g[y]| ==> g[y][x] == a || g[y][x] == c
    ensures Count(g, a) + Count(g, c) == CellCount(g)
  {
    if g != [] {
      TwoValuedRowCount(g[0], a, c);
      TwoValuedCount(g[1..], a, c);
    }
  }
}
