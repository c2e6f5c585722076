/** `get_squares`: the 25 black-pixel densities used by the "squares"
    recognition method. */
module Squares {
  import opened Pixels
  import opened Apportionment
  import opened Raster

  /** The share of black pixels in the rectangle rows r0..r1, columns c0..c1:
      `bp / counter`, where `counter` counts every pixel visited. */
  function Density(g: Grid, r0: nat, r1: nat, c0: nat, c1: nat): real
    requires r0 <= r1 <= |g| && c0 <= c1
    requires forall r :: r0 <= r < r1 ==> c1 <= |g[r]|
  {
    var bp := BlockCount(g, r0, r1, c0, c1, true);
    var counter := bp + BlockCount(g, r0, r1, c0, c1, false);
    if counter == 0 then 0.0 else bp as real / counter as real
  }

  /** The grid rescaled to five times its height and width. */
  function Magnified(g: Grid): (s: Grid)
    requires |g| > 0 && |g[0]| > 0 && IsRect(g)
    ensures |s| == 5 * |g| && forall r :: 0 <= r < |s| ==> |s[r]| == 5 * |g[0]|
  {
    Scaled(g, 5 * |g|, 5 * |g[0]|)
  }

  /** A grid at least five pixels high and wide whose rows all have the
      length of the first, as the magnified grid is. */
  ghost predicate Banded(s: Grid) {
    |s| >= 5 && |s[0]| >= 5 && forall r :: 0 <= r < |s| ==> |s[r]| == |s[0]|
  }

  /** Entry `k` of the squares of `s`: the density of the rectangle of row
      band `k / 5` and column band `k / 5` (the column band is indexed by the
      row band's index). */
  function Entry(s: Grid, k: nat): real
    requires Banded(s) && k < 25
  {
    var hs := Apportioned(|s|, 5);
    var ws := Apportioned(|s[0]|, 5);
    Density(s, hs[k / 5], hs[k / 5 + 1], ws[k / 5], ws[k / 5 + 1])
  }

  /** The squares of an already magnified grid: five row bands, for each of
      them five entries. */
  function SquaresOf(s: Grid): seq<real>
    requires Banded(s)
  {
    seq(25, k requires 0 <= k < 25 => Entry(s, k))
  }

  lemma MagnifiedBanded(g: Grid)
    requires |g| > 0 && |g[0]| > 0 && IsRect(g)
    ensures Banded(Magnified(g))
  {
  }

  /** `get_squares`. */
  function Squares(g: Grid): seq<real>
    requires |g| > 0 && |g[0]| > 0 && IsRect(g)
  {
    MagnifiedBanded(g);
    SquaresOf(Magnified(g))
  }

  lemma {:induction false} RowTotal(row: Row, c0: nat, c1: nat)
    requires c0 <= c1 <= |row|
    ensures RowCount(row, c0, c1, true) + RowCount(row, c0, c1, false) == c1 - c0
    decreases c1 - c0
  {
    if c1 > c0 {
      RowTotal(row, c0, c1 - 1);
    }
  }

  /** Every pixel of a rectangle is counted once, as black or as not black. */
  lemma {:induction false} BlockTotal(g: Grid, r0: nat, r1: nat, c0: nat, c1: nat)
    requires r0 <= r1 <= |g| && c0 <= c1
    requires forall r :: r0 <= r < r1 ==> c1 <= |g[r]|
    ensures BlockCount(g, r0, r1, c0, c1, true) + BlockCount(g, r0, r1, c0, c1, false) == (r1 - r0) * (c1 - c0)
    decreases r1 - r0
  {
    if r1 > r0 {
      BlockTotal(g, r0, r1 - 1, c0, c1);
      RowTotal(g[r1 - 1], c0, c1);
      assert (r1 - r0) * (c1 - c0) == (r1 - 1 - r0) * (c1 - c0) + (c1 - c0);
    }
  }

  lemma RatioUnit(bp: nat, counter: nat)
    requires bp <= counter && counter > 0
    ensures 0.0 <= bp as real / counter as real <= 1.0
    ensures bp as real / counter as real == 0.0 <==> bp == 0
    ensures bp as real / counter as real == 1.0 <==> bp == counter
  {
    var x := bp as real / counter as real;
    assert x * counter as real == bp as real;
  }

  /** A density is the share of black pixels of a non-empty rectangle: a
      value in [0, 1], 0 exactly when no pixel is black and 1 exactly when
      every pixel is. */
  lemma DensityBounds(g: Grid, r0: nat, r1: nat, c0: nat, c1: nat)
    requires r0 < r1 <= |g| && c0 < c1
    requires forall r :: r0 <= r < r1 ==> c1 <= |g[r]|
    ensures 0.0 <= Density(g, r0, r1, c0, c1) <= 1.0
    ensures Density(g, r0, r1, c0, c1) == 0.0 <==> BlockCount(g, r0, r1, c0, c1, true) == 0
    ensures Density(g, r0, r1, c0, c1) == 1.0 <==> BlockCount(g, r0, r1, c0, c1, false) == 0
  {
    BlockTotal(g, r0, r1, c0, c1);
    MulAtLeast(r1 - r0, c1 - c0);
    var bp := BlockCount(g, r0, r1, c0, c1, true);
    RatioUnit(bp, bp + BlockCount(g, r0, r1, c0, c1, false));
  }

  /** On a grid `5 * h` high and `5 * w` wide, row band `i` holds rows
      `i * h .. (i + 1) * h` and column band `i` columns `i * w .. (i + 1) * w`. */
  lemma Bands(h: nat, w: nat, i: nat)
    requires h > 0 && w > 0 && i < 5
    ensures |Apportioned(5 * h, 5)| == 6 && |Apportioned(5 * w, 5)| == 6
    ensures Apportioned(5 * h, 5)[i] == i * h && Apportioned(5 * h, 5)[i + 1] == (i + 1) * h
    ensures Apportioned(5 * w, 5)[i] == i * w && Apportioned(5 * w, 5)[i + 1] == (i + 1) * w
  {
    ApportionedExact(h, 5);
    ApportionedExact(w, 5);
  }

  lemma BandFits(h: nat, i: nat)
    requires i < 5
    ensures i * h <= (i + 1) * h <= 5 * h
  {
  }

  /** The density of the diagonal rectangle `i` of a `5 * h` by `5 * w`
      grid: rows `i * h .. (i + 1) * h`, columns `i * w .. (i + 1) * w`. */
  function Diagonal(s: Grid, h: nat, w: nat, i: nat): real
    requires Banded(s) && |s| == 5 * h && |s[0]| == 5 * w && i < 5
  {
    BandFits(h, i);
    BandFits(w, i);
    Density(s, i * h, (i + 1) * h, i * w, (i + 1) * w)
  }

  /** Entry `k` of the squares of a `5 * |g|` by `5 * |g[0]|` grid is the
      density of its diagonal rectangle `k / 5`: rows `i * H .. (i + 1) * H`
      and columns `i * W .. (i + 1) * W`, with `i == k / 5`. */
  lemma EntryDiagonal(s: Grid, h: nat, w: nat, k: nat)
    requires Banded(s) && |s| == 5 * h && |s[0]| == 5 * w && k < 25
    ensures (k / 5 + 1) * h <= |s| && (k / 5 + 1) * w <= |s[0]|
    ensures Entry(s, k) == Density(s, k / 5 * h, (k / 5 + 1) * h, k / 5 * w, (k / 5 + 1) * w)
  {
    Bands(h, w, k / 5);
    BandFits(h, k / 5);
    BandFits(w, k / 5);
  }

  /** The 25 entries each lie in [0, 1], and each group of five consecutive
      entries repeats one value. */
  lemma SquaresOfShape(s: Grid)
    requires Banded(s)
    ensures |SquaresOf(s)| == 25
    ensures forall k :: 0 <= k < 25 ==> 0.0 <= SquaresOf(s)[k] <= 1.0
    ensures forall k :: 0 <= k < 25 ==> SquaresOf(s)[k] == SquaresOf(s)[5 * (k / 5)]
  {
    forall k | 0 <= k < 25
      ensures 0.0 <= SquaresOf(s)[k] <= 1.0
    {
      EntryBounds(s, k);
    }
  }

  lemma EntryBounds(s: Grid, k: nat)
    requires Banded(s) && k < 25
    ensures 0.0 <= Entry(s, k) <= 1.0
  {
    ApportionedStrict(|s|, 5);
    ApportionedStrict(|s[0]|, 5);
    var hs := Apportioned(|s|, 5);
    var ws := Apportioned(|s[0]|, 5);
    DensityBounds(s, hs[k / 5], hs[k / 5 + 1], ws[k / 5], ws[k / 5 + 1]);
  }

  /** `get_squares` gives 25 values in [0, 1] in groups of five equal ones;
      entry `k` is the black share of the diagonal rectangle `k / 5` of the
      grid magnified five times. */
  lemma SquaresShape(g: Grid, k: nat)
    requires |g| > 0 && |g[0]| > 0 && IsRect(g) && k < 25
    ensures |Squares(g)| == 25
    ensures 0.0 <= Squares(g)[k] <= 1.0 && Squares(g)[k] == Squares(g)[5 * (k / 5)]
    ensures Squares(g)[k] == Diagonal(Magnified(g), |g|, |g[0]|, k / 5)
  {
    var s := Magnified(g);
    MagnifiedBanded(g);
    SquaresOfShape(s);
    EntryDiagonal(s, |g|, |g[0]|, k);
  }

  /** One square: the loops over the rectangle. */
  method Square(s: Grid, r0: nat, r1: nat, c0: nat, c1: nat) returns (ratio: real)
    requires r0 <= r1 <= |s| && c0 <= c1
    requires forall r :: r0 <= r < r1 ==> c1 <= |s[r]|
    requires r0 < r1 && c0 < c1
    ensures ratio == Density(s, r0, r1, c0, c1)
  {
    var bp, other := CountBlock(s, r0, r1, c0, c1);
    var counter := bp + other;
    BlockTotal(s, r0, r1, c0, c1);
    MulAtLeast(r1 - r0, c1 - c0);
    ratio := bp as real / counter as real;
  }

  /** The first `m` squares are collected. */
  ghost predicate SquaresUpTo(s: Grid, squares: seq<real>, m: nat)
    requires Banded(s)
  {
    |squares| == m && m <= 25 && forall k :: 0 <= k < m ==> squares[k] == Entry(s, k)
  }

  /** The density the loops compute for band `i` at step `ii` is entry
      `5 * i + ii`. */
  lemma EntryAt(s: Grid, heights: seq<nat>, widths: seq<nat>, i: nat, ii: nat)
    requires Banded(s) && heights == Apportioned(|s|, 5) && widths == Apportioned(|s[0]|, 5)
    requires i < 5 && ii < 5
    ensures |heights| == 6 && |widths| == 6
    ensures heights[i] < heights[i + 1] <= |s| && widths[i] < widths[i + 1] <= |s[0]|
    ensures Entry(s, 5 * i + ii) == Density(s, heights[i], heights[i + 1], widths[i], widths[i + 1])
  {
    ApportionedStrict(|s|, 5);
    ApportionedStrict(|s[0]|, 5);
    assert (5 * i + ii) / 5 == i;
  }

  lemma SquaresNext(s: Grid, squares: seq<real>, m: nat, ratio: real)
    requires Banded(s) && SquaresUpTo(s, squares, m) && m < 25 && ratio == Entry(s, m)
    ensures SquaresUpTo(s, squares + [ratio], m + 1)
  {
  }

  /** The band loops of `get_squares` over the magnified grid. */
  method SquaresLoop(s: Grid) returns (squares: seq<real>)
    requires Banded(s)
    ensures squares == SquaresOf(s)
  {
    var heights := Apportion(|s|, 5);
    var widths := Apportion(|s[0]|, 5);
    ApportionedStrict(|s|, 5);
    ApportionedStrict(|s[0]|, 5);
    squares := [];
    var i := 0;
    while i < |heights| - 1
      invariant 0 <= i <= 5
      invariant SquaresUpTo(s, squares, 5 * i)
    {
      var ii := 0;
      while ii < |widths| - 1
        invariant 0 <= ii <= 5
        invariant SquaresUpTo(s, squares, 5 * i + ii)
      {
        EntryAt(s, heights, widths, i, ii);
        var ratio := Square(s, heights[i], heights[i + 1], widths[i], widths[i + 1]);
        SquaresNext(s, squares, 5 * i + ii, ratio);
        squares := squares + [ratio];
        ii := ii + 1;
      }
      i := i + 1;
    }
  }

  /** `get_squares`: rescale to five times the size, cut both sides into five
      bands with `apportion`, and collect the densities row band by row band. */
  method GetSquares(pixels: Grid) returns (squares: seq<real>)
    requires |pixels| > 0 && |pixels[0]| > 0 && IsRect(pixels)
    ensures squares == Squares(pixels)
  {
    var s := Scale(pixels, 5 * |pixels|, 5 * |pixels[0]|);
    MagnifiedBanded(pixels);
    squares := SquaresLoop(s);
  }
}
