/** `rem_double_chars`: cutting the glyphs of a line that are much wider than
    the line's mean glyph width at a column near their middle that no black
    stroke crosses. */
module DoubleChars {
  import opened Pixels
  import opened Ratios

  /** A glyph image as the cropping produces it: at least one row, all rows as
      long as the first. */
  ghost predicate Shaped(px: Grid) {
    |px| > 0 && forall r :: 0 <= r < |px| ==> |px[r]| == |px[0]|
  }

  /** Every image on the line is shaped. */
  ghost predicate AllShaped(chars: seq<Glyph>) {
    forall i :: 0 <= i < |chars| && chars[i].Image? ==> Shaped(chars[i].px)
  }

  /** The width `len(px[0])` of a glyph image. */
  function Width(px: Grid): nat {
    if |px| == 0 then 0 else |px[0]|
  }

  /** The widths of the images among the first `n` glyphs, added up. */
  function WidthSum(chars: seq<Glyph>, n: nat): nat
    requires n <= |chars|
  {
    if n == 0 then 0
    else WidthSum(chars, n - 1) + (if chars[n - 1].Image? then Width(chars[n - 1].px) else 0)
  }

  /** The number of images among the first `n` glyphs. */
  function ImageCount(chars: seq<Glyph>, n: nat): nat
    requires n <= |chars|
  {
    if n == 0 then 0 else ImageCount(chars, n - 1) + (if chars[n - 1].Image? then 1 else 0)
  }

  /** The mean image width `sum_widths / counter`. */
  function MeanWidth(chars: seq<Glyph>): real
    requires ImageCount(chars, |chars|) > 0
  {
    WidthSum(chars, |chars|) as real / ImageCount(chars, |chars|) as real
  }

  /** Glyph `i` is an image more than 1.5 times as wide as the mean, with the
      divisions cleared. */
  predicate Oversized(chars: seq<Glyph>, i: nat)
    requires i < |chars|
  {
    chars[i].Image? && 2 * Width(chars[i].px) * ImageCount(chars, |chars|) > 3 * WidthSum(chars, |chars|)
  }

  /** A positive total width means at least one image. */
  lemma {:induction false} CountOfWidth(chars: seq<Glyph>, n: nat)
    requires n <= |chars|
    ensures WidthSum(chars, n) > 0 ==> ImageCount(chars, n) > 0
  {
    if n > 0 {
      CountOfWidth(chars, n - 1);
    }
  }

  /** The integer test is the original's `len(px[0]) / avg > 1.5` on the exact
      mean, whenever the mean is positive. */
  lemma OversizedIff(chars: seq<Glyph>, i: nat)
    requires i < |chars| && WidthSum(chars, |chars|) > 0 && chars[i].Image?
    ensures ImageCount(chars, |chars|) > 0
    ensures Oversized(chars, i) <==> (Width(chars[i].px) as real) / MeanWidth(chars) > 1.5
  {
    CountOfWidth(chars, |chars|);
    RatioAbove(Width(chars[i].px), ImageCount(chars, |chars|), WidthSum(chars, |chars|));
  }

  lemma RatioAbove(x: int, m: int, total: int)
    requires m > 0 && total > 0
    ensures 2 * x * m > 3 * total <==> (x as real) / ((total as real) / (m as real)) > 1.5
  {
    MeanRatio(x, m, total, 1.5);
    CastProduct(2, x, m);
  }

  /** The black pixel at (`row`, `col`) continues to the right: the pixel to
      its right, below right or above right is black. */
  predicate Connected(px: Grid, row: nat, col: nat)
    requires 0 < row < |px| - 1 && forall r :: 0 <= r < |px| ==> col + 1 < |px[r]|
  {
    px[row][col] == Black &&
    (px[row][col + 1] == Black || px[row + 1][col + 1] == Black || px[row - 1][col + 1] == Black)
  }

  /** No black pixel of column `col`, first and last rows aside, continues
      to the right: the image may be cut after this column. */
  predicate Cuttable(px: Grid, col: nat)
    requires forall r :: 0 <= r < |px| ==> col + 1 < |px[r]|
  {
    forall row :: 0 < row < |px| - 1 ==> !Connected(px, row, col)
  }

  /** The columns `mid - 5 .. mid + 5` searched for a cut. */
  function SearchLo(px: Grid): int {
    Width(px) / 2 - 5
  }

  function SearchHi(px: Grid): int {
    Width(px) / 2 + 5
  }

  /** The last cuttable column in `[lo, hi)`, or -1 when there is none. */
  function LastCut(px: Grid, lo: nat, hi: nat): (split: int)
    requires forall r :: 0 <= r < |px| ==> hi <= |px[r]| - 1
    ensures split == -1 || (lo <= split < hi && Cuttable(px, split))
    ensures forall col :: lo <= col < hi && col > split ==> !Cuttable(px, col)
    decreases hi
  {
    if hi <= lo then -1
    else if Cuttable(px, hi - 1) then hi - 1
    else LastCut(px, lo, hi - 1)
  }

  /** The column after which an oversized image is cut, or -1. */
  function Seam(px: Grid): (split: int)
    requires Shaped(px) && Width(px) >= 11
    ensures split == -1 || (SearchLo(px) <= split < SearchHi(px) && Cuttable(px, split))
    ensures forall col: nat :: SearchLo(px) <= col < SearchHi(px) && col > split ==> !Cuttable(px, col)
  {
    LastCut(px, SearchLo(px), SearchHi(px))
  }

  /** The columns `[0, split]` of every row. */
  function LeftHalf(px: Grid, split: nat): (left: Grid)
    requires forall r :: 0 <= r < |px| ==> split < |px[r]|
    ensures |left| == |px|
  {
    seq(|px|, r requires 0 <= r < |px| => px[r][..split + 1])
  }

  /** The columns `[split + 1, w)` of every row. */
  function RightHalf(px: Grid, split: nat): (right: Grid)
    requires forall r :: 0 <= r < |px| ==> split < |px[r]|
    ensures |right| == |px|
  {
    seq(|px|, r requires 0 <= r < |px| => px[r][split + 1..])
  }

  /** What glyph `i` becomes: the two halves when it is oversized and a cut
      is found, otherwise the glyph itself. */
  function Pieces(chars: seq<Glyph>, i: nat): seq<Glyph>
    requires i < |chars| && AllShaped(chars)
    requires Oversized(chars, i) ==> Width(chars[i].px) >= 11
  {
    if Oversized(chars, i) && Seam(chars[i].px) != -1 then
      var px, split := chars[i].px, Seam(chars[i].px);
      [Image(LeftHalf(px, split)), Image(RightHalf(px, split))]
    else [chars[i]]
  }

  /** The input `rem_double_chars` accepts: shaped images, a positive total
      width, and every oversized image wide enough for the search. */
  ghost predicate Acceptable(chars: seq<Glyph>) {
    AllShaped(chars) && WidthSum(chars, |chars|) > 0 &&
    forall i :: 0 <= i < |chars| && Oversized(chars, i) ==> Width(chars[i].px) >= 11
  }

  /** The result of `rem_double_chars` for the first `n` glyphs. */
  function Unglued(chars: seq<Glyph>, n: nat): seq<Glyph>
    requires n <= |chars| && Acceptable(chars)
  {
    if n == 0 then [] else Unglued(chars, n - 1) + Pieces(chars, n - 1)
  }

  /** How many of the first `n` glyphs are cut. */
  function CutCount(chars: seq<Glyph>, n: nat): nat
    requires n <= |chars| && Acceptable(chars)
  {
    if n == 0 then 0
    else CutCount(chars, n - 1) + (if Oversized(chars, n - 1) && Seam(chars[n - 1].px) != -1 then 1 else 0)
  }

  /** Spaces, and images at most 1.5 times the mean width, pass through. */
  lemma PassThrough(chars: seq<Glyph>, i: nat)
    requires i < |chars| && Acceptable(chars)
    requires chars[i].Space? || !Oversized(chars, i)
    ensures Pieces(chars, i) == [chars[i]]
  {
  }

  /** The halves of a cut: each has every row of the image, the left one
      `split + 1` columns and the right one the rest; put side by side they
      give back the image. */
  lemma HalvesJoin(px: Grid, split: nat)
    requires Shaped(px) && split < Width(px)
    ensures forall r :: 0 <= r < |px| ==> LeftHalf(px, split)[r] + RightHalf(px, split)[r] == px[r]
    ensures forall r :: 0 <= r < |px| ==> |LeftHalf(px, split)[r]| == split + 1
    ensures forall r :: 0 <= r < |px| ==> |RightHalf(px, split)[r]| == Width(px) - split - 1
  {
    forall r | 0 <= r < |px|
      ensures LeftHalf(px, split)[r] + RightHalf(px, split)[r] == px[r]
    {
      assert px[r] == px[r][..split + 1] + px[r][split + 1..];
    }
  }

  /** A cut found by the search leaves at least one column on each side. */
  lemma SeamInside(px: Grid)
    requires Shaped(px) && Width(px) >= 11 && Seam(px) != -1
    ensures 0 <= Seam(px) && Width(px) - Seam(px) - 1 >= 1
  {
  }

  /** Side by side, the glyphs of a list of pieces; the inverse of `Pieces`. */
  function Rejoined(ps: seq<Glyph>): Glyph
    requires |ps| > 0
  {
    if |ps| == 2 && ps[0].Image? && ps[1].Image? && |ps[0].px| == |ps[1].px| then
      Image(seq(|ps[0].px|, r requires 0 <= r < |ps[0].px| => ps[0].px[r] + ps[1].px[r]))
    else ps[0]
  }

  /** Putting the pieces of a glyph side by side gives back the glyph. */
  lemma PiecesRejoin(chars: seq<Glyph>, i: nat)
    requires i < |chars| && Acceptable(chars)
    ensures Rejoined(Pieces(chars, i)) == chars[i]
  {
    if Oversized(chars, i) && Seam(chars[i].px) != -1 {
      var px, split := chars[i].px, Seam(chars[i].px);
      HalvesJoin(px, split);
    }
  }

  /** The output has one glyph per input glyph plus one per cut, and the
      pieces of glyph `i` follow those of the glyphs before it. */
  lemma {:induction false} UngluedLength(chars: seq<Glyph>, n: nat)
    requires n <= |chars| && Acceptable(chars)
    ensures |Unglued(chars, n)| == n + CutCount(chars, n)
  {
    if n > 0 {
      UngluedLength(chars, n - 1);
    }
  }

  /** Nothing is cut when no image is oversized. */
  lemma {:induction false} UngluedUnchanged(chars: seq<Glyph>, n: nat)
    requires n <= |chars| && Acceptable(chars)
    requires forall i :: 0 <= i < |chars| ==> !Oversized(chars, i)
    ensures Unglued(chars, n) == chars[..n]
  {
    if n > 0 {
      UngluedUnchanged(chars, n - 1);
      assert chars[..n] == chars[..n - 1] + [chars[n - 1]];
    }
  }

  /** The width loop: the total width and the number of images. */
  method Widths(chars: seq<Glyph>) returns (sumWidths: nat, counter: nat)
    requires AllShaped(chars)
    ensures sumWidths == WidthSum(chars, |chars|) && counter == ImageCount(chars, |chars|)
  {
    sumWidths, counter := 0, 0;
    var i := 0;
    while i < |chars|
      invariant 0 <= i <= |chars|
      invariant sumWidths == WidthSum(chars, i) && counter == ImageCount(chars, i)
    {
      if chars[i].Image? {
        sumWidths := sumWidths + |chars[i].px[0]|;
        counter := counter + 1;
      }
      i := i + 1;
    }
  }

  /** The inner loop: whether some black pixel of column `col` in rows
      1 .. h - 2 continues to the right. */
  method HasPath(px: Grid, col: nat) returns (path: bool)
    requires forall r :: 0 <= r < |px| ==> col + 1 < |px[r]|
    ensures path <==> !Cuttable(px, col)
  {
    path := false;
    var row := 1;
    while row < |px| - 1
      invariant 1 <= row && (row <= |px| - 1 || row == 1)
      invariant path <==> exists r :: 0 < r < row && r < |px| - 1 && Connected(px, r, col)
    {
      if px[row][col] == Black {
        if px[row][col + 1] == Black || px[row + 1][col + 1] == Black || px[row - 1][col + 1] == Black {
          path := true;
        }
      }
      assert path <==> (exists r :: 0 < r < row && r < |px| - 1 && Connected(px, r, col)) || Connected(px, row, col);
      row := row + 1;
    }
  }

  /** The column loop: the last cuttable column among `mid - 5 .. mid + 5`. */
  method FindSeam(px: Grid) returns (split: int)
    requires Shaped(px) && Width(px) >= 11
    ensures split == Seam(px)
  {
    split := -1;
    var mid := |px[0]| / 2;
    var col := mid - 5;
    while col < mid + 5
      invariant mid - 5 <= col <= mid + 5
      invariant split == LastCut(px, mid - 5, col)
    {
      var path := HasPath(px, col);
      if !path {
        split := col;
      }
      col := col + 1;
    }
  }

  /** The row loop building the two halves. */
  method Cut(px: Grid, split: nat) returns (char1: Grid, char2: Grid)
    requires forall r :: 0 <= r < |px| ==> split < |px[r]|
    ensures char1 == LeftHalf(px, split) && char2 == RightHalf(px, split)
  {
    char1, char2 := [], [];
    var row := 0;
    while row < |px|
      invariant 0 <= row <= |px|
      invariant char1 == LeftHalf(px, split)[..row] && char2 == RightHalf(px, split)[..row]
    {
      char1 := char1 + [px[row][..split + 1]];
      char2 := char2 + [px[row][split + 1..]];
      row := row + 1;
    }
  }

  /** One glyph of the main loop. */
  method Separate(chars: seq<Glyph>, i: nat, avg: real) returns (pieces: seq<Glyph>)
    requires i < |chars| && Acceptable(chars)
    requires ImageCount(chars, |chars|) > 0 && avg == MeanWidth(chars)
    ensures pieces == Pieces(chars, i)
  {
    if chars[i].Image? {
      OversizedIff(chars, i);
    }
    if chars[i].Image? && (|chars[i].px[0]| as real) / avg > 1.5 {
      var split := FindSeam(chars[i].px);
      if split != -1 {
        var char1, char2 := Cut(chars[i].px, split);
        pieces := [Image(char1), Image(char2)];
      } else {
        pieces := [chars[i]];
      }
    } else {
      pieces := [chars[i]];
    }
  }

  /** `rem_double_chars`: the mean image width, then every glyph replaced by
      its pieces. */
  method RemDoubleChars(chars: seq<Glyph>) returns (newChars: seq<Glyph>)
    requires Acceptable(chars)
    ensures newChars == Unglued(chars, |chars|)
  {
    var sumWidths, counter := Widths(chars);
    CountOfWidth(chars, |chars|);
    var avg := sumWidths as real / counter as real;
    newChars := [];
    var i := 0;
    while i < |chars|
      invariant 0 <= i <= |chars|
      invariant newChars == Unglued(chars, i)
    {
      var pieces := Separate(chars, i, avg);
      newChars := newChars + pieces;
      i := i + 1;
    }
  }
}
