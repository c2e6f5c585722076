/** Pixel grids as the recogniser sees them: a sequence of rows, each a
    sequence of RGB triples. */
module Pixels {

  /** An RGB triple, as delivered by the image decoder. */
  datatype Pixel = Pixel(r: int, g: int, b: int)

  type Row = seq<Pixel>
  type Grid = seq<Row>

  const Black := Pixel(0, 0, 0)
  const White := Pixel(255, 255, 255)

  /** A glyph on a line: either a cropped image or the space marker
      (the value -1 in the original lists). */
  datatype Glyph = Space | Image(px: Grid)

  /** Every row is as long as the first one. */
  ghost predicate IsRect(g: Grid) {
    forall r :: 0 <= r < |g| ==> |g[r]| == |g[0]|
  }

  /** Every pixel is pure black or pure white. */
  ghost predicate IsBinary(g: Grid) {
    forall r, c :: 0 <= r < |g| && 0 <= c < |g[r]| ==> g[r][c] == Black || g[r][c] == White
  }

  /** The row holds a pixel that is not pure white (the test `!= (255,255,255)`). */
  predicate RowHasInk(row: Row) {
    exists c :: 0 <= c < |row| && row[c] != White
  }

  /** Column `c` holds a pixel that is not pure white. */
  predicate ColHasInk(g: Grid, c: nat)
    requires forall r :: 0 <= r < |g| ==> c < |g[r]|
  {
    exists r :: 0 <= r < |g| && g[r][c] != White
  }

  /** Some pixel is pure black (the test `== (0,0,0)`). */
  ghost predicate HasBlack(g: Grid) {
    exists r, c :: 0 <= r < |g| && 0 <= c < |g[r]| && g[r][c] == Black
  }

  /** On a binary grid the two pixel tests of the original agree: a pixel is
      "not white" exactly when it is black. */
  lemma BinaryInkIsBlack(g: Grid, r: nat, c: nat)
    requires IsBinary(g) && r < |g| && c < |g[r]|
    ensures (g[r][c] != White) == (g[r][c] == Black)
  {
  }
}
