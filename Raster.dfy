/** Whole-grid transforms: `black_and_white`, `increase_size`,
    `increase_size_row`, `strip` and `scale`. */
module Raster {
  import opened Pixels
  import opened Apportionment

  // ---------------------------------------------------------------------
  // black_and_white

  /** A pixel becomes pure black when its channel sum is below 465, pure
      white otherwise. */
  function Binarize(p: Pixel): Pixel {
    if p.r + p.g + p.b < 465 then Black else White
  }

  function BinarizedRow(row: Row): Row {
    seq(|row|, c requires 0 <= c < |row| => Binarize(row[c]))
  }

  function Binarized(g: Grid): Grid {
    seq(|g|, r requires 0 <= r < |g| => BinarizedRow(g[r]))
  }

  /** `black_and_white`: overwrites every pixel, row by row, with pure black
      or pure white. */
  method BlackAndWhite(pixels: Grid) returns (out: Grid)
    ensures out == Binarized(pixels)
    ensures |out| == |pixels|
    ensures forall r :: 0 <= r < |out| ==> |out[r]| == |pixels[r]|
    ensures forall r, c :: 0 <= r < |out| && 0 <= c < |out[r]| ==>
              (out[r][c] == Black <==> pixels[r][c].r + pixels[r][c].g + pixels[r][c].b < 465)
    ensures IsBinary(out)
  {
    out := pixels;
    var row := 0;
    while row < |out|
      invariant 0 <= row <= |out| == |pixels|
      invariant forall r :: 0 <= r < row ==> out[r] == BinarizedRow(pixels[r])
      invariant forall r :: row <= r < |out| ==> out[r] == pixels[r]
    {
      var col := 0;
      while col < |out[row]|
        invariant |out| == |pixels| && |out[row]| == |pixels[row]|
        invariant 0 <= col <= |out[row]|
        invariant forall c :: 0 <= c < col ==> out[row][c] == Binarize(pixels[row][c])
        invariant forall c :: col <= c < |out[row]| ==> out[row][c] == pixels[row][c]
        invariant forall r :: 0 <= r < row ==> out[r] == BinarizedRow(pixels[r])
        invariant forall r :: row < r < |out| ==> out[r] == pixels[r]
      {
        var p := out[row][col];
        if p.r + p.g + p.b < 465 {
          out := out[row := out[row][col := Black]];
        } else {
          out := out[row := out[row][col := White]];
        }
        col := col + 1;
      }
      assert out[row] == BinarizedRow(pixels[row]);
      row := row + 1;
    }
  }

  /** Binarising a grid that is already black and white changes nothing. */
  lemma BinarizedFixesBinary(g: Grid)
    requires IsBinary(g)
    ensures Binarized(g) == g
  {
    forall r | 0 <= r < |g|
      ensures BinarizedRow(g[r]) == g[r]
    {
      assert forall c :: 0 <= c < |g[r]| ==> Binarize(g[r][c]) == g[r][c];
    }
  }

  /** `black_and_white` is idempotent. */
  lemma BinarizedIdempotent(g: Grid)
    ensures Binarized(Binarized(g)) == Binarized(g)
  {
    var b := Binarized(g);
    assert IsBinary(b);
    BinarizedFixesBinary(b);
  }

  // ---------------------------------------------------------------------
  // increase_size and increase_size_row

  /** A row with every pixel repeated three times. */
  function Tripled(row: Row): Row {
    seq(3 * |row|, c requires 0 <= c < 3 * |row| => row[c / 3])
  }

  /** A grid with every pixel replaced by a 3x3 block of itself. */
  function Upscaled(g: Grid): Grid {
    seq(3 * |g|, r requires 0 <= r < 3 * |g| => Tripled(g[r / 3]))
  }

  /** `increase_size_row`: the tripled row, three times. The original
      returns three references to one list; here they are three equal
      values. */
  method IncreaseSizeRow(row: Row) returns (rows: Grid)
    ensures rows == [Tripled(row), Tripled(row), Tripled(row)]
  {
    var newRow: Row := [];
    var i := 0;
    while i < |row|
      invariant 0 <= i <= |row|
      invariant |newRow| == 3 * i
      invariant forall c :: 0 <= c < 3 * i ==> newRow[c] == row[c / 3]
    {
      newRow := newRow + [row[i], row[i], row[i]];
      i := i + 1;
    }
    assert newRow == Tripled(row);
    rows := [newRow, newRow, newRow];
  }

  /** `increase_size`: the rows of `increase_size_row` for every row, in order. */
  method IncreaseSize(pixels: Grid) returns (out: Grid)
    ensures out == Upscaled(pixels)
  {
    out := [];
    var row := 0;
    while row < |pixels|
      invariant 0 <= row <= |pixels|
      invariant |out| == 3 * row
      invariant forall r :: 0 <= r < 3 * row ==> out[r] == Tripled(pixels[r / 3])
    {
      var newRows := IncreaseSizeRow(pixels[row]);
      out := out + newRows;
      row := row + 1;
    }
  }

  /** Upscaling a rectangular grid gives a 3H x 3W grid whose pixel (r, c) is
      the original pixel (r / 3, c / 3). */
  lemma UpscaledShape(g: Grid)
    requires IsRect(g)
    ensures |Upscaled(g)| == 3 * |g| && IsRect(Upscaled(g))
    ensures |g| > 0 ==> |Upscaled(g)[0]| == 3 * |g[0]|
    ensures forall r, c :: 0 <= r < 3 * |g| && 0 <= c < |Upscaled(g)[r]| ==>
              c / 3 < |g[r / 3]| && Upscaled(g)[r][c] == g[r / 3][c / 3]
    ensures IsBinary(g) ==> IsBinary(Upscaled(g))
  {
  }

  // ---------------------------------------------------------------------
  // strip

  /** The first row at or after `i` holding a non-white pixel, or `|g|`. */
  function FirstInk(g: Grid, i: nat): (s: nat)
    requires i <= |g|
    ensures i <= s <= |g|
    ensures forall r :: i <= r < s ==> !RowHasInk(g[r])
    ensures s < |g| ==> RowHasInk(g[s])
    decreases |g| - i
  {
    if i == |g| then |g| else if RowHasInk(g[i]) then i else FirstInk(g, i + 1)
  }

  /** The last row before `j` holding a non-white pixel, or -1. */
  function LastInk(g: Grid, j: nat): (e: int)
    requires j <= |g|
    ensures -1 <= e < j
    ensures forall r :: e < r < j ==> !RowHasInk(g[r])
    ensures e >= 0 ==> RowHasInk(g[e])
  {
    if j == 0 then -1 else if RowHasInk(g[j - 1]) then j - 1 else LastInk(g, j - 1)
  }

  /** The rows from the first to the last one with ink; none if no row has ink. */
  function Stripped(g: Grid): Grid {
    var first := FirstInk(g, 0);
    if first == |g| then [] else g[first .. LastInk(g, |g|) + 1]
  }

  /** The inner loop of both scans of `strip`: the count of pixels of a row
      that are not pure white, positive exactly when the row has ink. */
  method NotWhite(row: Row) returns (notWhite: nat)
    ensures notWhite > 0 <==> RowHasInk(row)
  {
    notWhite := 0;
    var col := 0;
    while col < |row|
      invariant 0 <= col <= |row|
      invariant notWhite > 0 <==> exists c :: 0 <= c < col && row[c] != White
    {
      if row[col] != White {
        notWhite := notWhite + 1;
      }
      col := col + 1;
    }
  }

  /** The forward scan of `strip`: the first row with ink, or -1. */
  method StartRow(pixels: Grid) returns (start: int)
    ensures start == if FirstInk(pixels, 0) == |pixels| then -1 else FirstInk(pixels, 0)
  {
    start := -1;
    var found := false;
    var row := 0;
    while row < |pixels|
      invariant 0 <= row <= |pixels|
      invariant found <==> FirstInk(pixels, 0) < row
      invariant start == if found then FirstInk(pixels, 0) else -1
    {
      var notWhite := NotWhite(pixels[row]);
      if !found && notWhite > 0 {
        start := row;
        found := true;
      }
      row := row + 1;
    }
  }

  /** The backward scan of `strip`: one past the last row with ink, or -1. */
  method EndRow(pixels: Grid) returns (end: int)
    ensures end == if LastInk(pixels, |pixels|) == -1 then -1 else LastInk(pixels, |pixels|) + 1
  {
    end := -1;
    var found := false;
    var row := |pixels| - 1;
    while row >= 0
      invariant -1 <= row < |pixels|
      invariant found <==> LastInk(pixels, |pixels|) > row
      invariant end == if found then LastInk(pixels, |pixels|) + 1 else -1
    {
      var notWhite := NotWhite(pixels[row]);
      if !found && notWhite > 0 {
        end := row + 1;
        found := true;
      }
      row := row - 1;
    }
  }

  /** `strip`: a forward scan finds the first inked row, a backward scan
      the last, and the rows between are copied. */
  method Strip(pixels: Grid) returns (out: Grid)
    ensures out == Stripped(pixels)
  {
    var start := StartRow(pixels);
    var end := EndRow(pixels);
    StripBounds(pixels);
    out := [];
    var row := start;
    while row < end
      invariant start <= row <= end || (start == end == row == -1)
      invariant 0 <= start ==> out == pixels[start .. row]
      invariant start == -1 ==> out == []
    {
      out := out + [pixels[row]];
      row := row + 1;
    }
  }

  /** The two scans agree: either both find nothing or the first inked row
      comes no later than the last one. */
  lemma StripBounds(g: Grid)
    ensures FirstInk(g, 0) == |g| <==> LastInk(g, |g|) == -1
    ensures FirstInk(g, 0) < |g| ==> FirstInk(g, 0) <= LastInk(g, |g|)
  {
  }

  /** `strip` keeps the block of rows that starts at the first row with
      ink and ends with the last one; every row it drops is entirely white,
      and it keeps nothing only when no row has ink. */
  lemma StrippedRows(g: Grid)
    ensures Stripped(g) == [] <==> forall r :: 0 <= r < |g| ==> !RowHasInk(g[r])
    ensures Stripped(g) != [] ==>
              RowHasInk(Stripped(g)[0]) && RowHasInk(Stripped(g)[|Stripped(g)| - 1])
    ensures FirstInk(g, 0) + |Stripped(g)| <= |g|
    ensures Stripped(g) == g[FirstInk(g, 0) .. FirstInk(g, 0) + |Stripped(g)|]
    ensures forall r :: 0 <= r < FirstInk(g, 0) ==> !RowHasInk(g[r])
    ensures forall r :: FirstInk(g, 0) + |Stripped(g)| <= r < |g| ==> !RowHasInk(g[r])
  {
    StripBounds(g);
    var first := FirstInk(g, 0);
    if first < |g| {
      var last := LastInk(g, |g|);
      assert Stripped(g) == g[first .. last + 1];
      assert Stripped(g)[|Stripped(g)| - 1] == g[last];
    }
  }

  /** `strip` is idempotent. */
  lemma StrippedIdempotent(g: Grid)
    ensures Stripped(Stripped(g)) == Stripped(g)
  {
    StrippedRows(g);
    var s := Stripped(g);
    if s != [] {
      StrippedRows(s);
      assert FirstInk(s, 0) == 0;
      assert LastInk(s, |s|) == |s| - 1;
    }
  }

  // ---------------------------------------------------------------------
  // scale

  /** Number of pixels of row[c0..c1] that are black (or not black, for
      `black == false`); the test is `== (0,0,0)`. */
  function RowCount(row: Row, c0: nat, c1: nat, black: bool): nat
    requires c0 <= c1 <= |row|
    decreases c1 - c0
  {
    if c1 == c0 then 0
    else RowCount(row, c0, c1 - 1, black) + (if (row[c1 - 1] == Black) == black then 1 else 0)
  }

  /** The same count over the rectangle rows r0..r1, columns c0..c1. */
  function BlockCount(g: Grid, r0: nat, r1: nat, c0: nat, c1: nat, black: bool): nat
    requires r0 <= r1 <= |g| && c0 <= c1
    requires forall r :: r0 <= r < r1 ==> c1 <= |g[r]|
    decreases r1 - r0
  {
    if r1 == r0 then 0
    else BlockCount(g, r0, r1 - 1, c0, c1, black) + RowCount(g[r1 - 1], c0, c1, black)
  }

  /** The colour with more pixels in the rectangle; a tie goes to black. */
  function Majority(g: Grid, r0: nat, r1: nat, c0: nat, c1: nat): Pixel
    requires r0 <= r1 <= |g| && c0 <= c1
    requires forall r :: r0 <= r < r1 ==> c1 <= |g[r]|
  {
    if BlockCount(g, r0, r1, c0, c1, true) >= BlockCount(g, r0, r1, c0, c1, false) then Black else White
  }

  /** The tally of `bw_counter` over one rectangle. */
  method CountBlock(g: Grid, r0: nat, r1: nat, c0: nat, c1: nat) returns (black: nat, other: nat)
    requires r0 <= r1 <= |g| && c0 <= c1
    requires forall r :: r0 <= r < r1 ==> c1 <= |g[r]|
    ensures black == BlockCount(g, r0, r1, c0, c1, true)
    ensures other == BlockCount(g, r0, r1, c0, c1, false)
  {
    black, other := 0, 0;
    var row := r0;
    while row < r1
      invariant r0 <= row <= r1
      invariant black == BlockCount(g, r0, row, c0, c1, true)
      invariant other == BlockCount(g, r0, row, c0, c1, false)
    {
      var col := c0;
      while col < c1
        invariant c0 <= col <= c1
        invariant black == BlockCount(g, r0, row, c0, c1, true) + RowCount(g[row], c0, col, true)
        invariant other == BlockCount(g, r0, row, c0, c1, false) + RowCount(g[row], c0, col, false)
      {
        if g[row][col] == Black {
          black := black + 1;
        } else {
          other := other + 1;
        }
        col := col + 1;
      }
      row := row + 1;
    }
  }

  function Shortfall(target: nat, have: nat): nat {
    if have < target then target - have else 0
  }

  /** The grid `scale` works on: upscaled by 3 until both dimensions reach
      the target. */
  function Enlarged(g: Grid, height: nat, width: nat): (u: Grid)
    requires |g| > 0 && |g[0]| > 0 && IsRect(g)
    ensures |u| >= height && |u| > 0 && |u[0]| >= width && |u[0]| > 0 && IsRect(u)
    ensures IsBinary(g) ==> IsBinary(u)
    decreases Shortfall(height, |g|) + Shortfall(width, |g[0]|)
  {
    if |g| < height || |g[0]| < width then
      UpscaledShape(g);
      Enlarged(Upscaled(g), height, width)
    else g
  }

  /** `b` is a list of cut positions into `0 .. n`, never decreasing. */
  ghost predicate Cuts(b: seq<nat>, n: nat) {
    (forall k :: 0 <= k < |b| - 1 ==> b[k] <= b[k + 1]) &&
    (forall k :: 0 <= k < |b| ==> b[k] <= n)
  }

  /** Row `i` of the scaled grid: the majority colour of each rectangle of
      row band `i`. */
  function Cells(u: Grid, hs: seq<nat>, ws: seq<nat>, i: nat, width: nat): (row: Row)
    requires |u| > 0 && IsRect(u) && Cuts(hs, |u|) && Cuts(ws, |u[0]|)
    requires i + 1 < |hs| && width < |ws|
    ensures |row| == width
  {
    seq(width, j requires 0 <= j < width => Majority(u, hs[i], hs[i + 1], ws[j], ws[j + 1]))
  }

  /** The result of `scale(g, height, width)`: cell (i, j) is the majority
      colour of the apportioned rectangle (i, j) of the enlarged grid. */
  function Scaled(g: Grid, height: nat, width: nat): (s: Grid)
    requires |g| > 0 && |g[0]| > 0 && IsRect(g) && height > 0 && width > 0
    ensures |s| == height && forall i :: 0 <= i < height ==> |s[i]| == width
  {
    var u := Enlarged(g, height, width);
    var hs := Apportioned(|u|, height);
    var ws := Apportioned(|u[0]|, width);
    seq(height, i requires 0 <= i < height => Cells(u, hs, ws, i, width))
  }

  /** The `while` loop of `scale` that upscales until the target is reached. */
  method Enlarge(pixels: Grid, height: nat, width: nat) returns (p: Grid)
    requires |pixels| > 0 && |pixels[0]| > 0 && IsRect(pixels)
    ensures p == Enlarged(pixels, height, width)
  {
    p := pixels;
    while |p| < height || |p[0]| < width
      invariant |p| > 0 && |p[0]| > 0 && IsRect(p)
      invariant Enlarged(p, height, width) == Enlarged(pixels, height, width)
      decreases Shortfall(height, |p|) + Shortfall(width, |p[0]|)
    {
      UpscaledShape(p);
      p := IncreaseSize(p);
    }
  }

  /** The inner loop of `scale`: one row of majority colours. */
  method CellRow(u: Grid, hs: seq<nat>, ws: seq<nat>, i: nat, width: nat) returns (tempRow: Row)
    requires |u| > 0 && IsRect(u) && Cuts(hs, |u|) && Cuts(ws, |u[0]|)
    requires i + 1 < |hs| && width + 1 == |ws|
    ensures tempRow == Cells(u, hs, ws, i, width)
  {
    tempRow := [];
    var ii := 0;
    while ii < |ws| - 1
      invariant 0 <= ii <= width
      invariant |tempRow| == ii
      invariant forall k :: 0 <= k < ii ==> tempRow[k] == Majority(u, hs[i], hs[i + 1], ws[k], ws[k + 1])
    {
      var black, other := CountBlock(u, hs[i], hs[i + 1], ws[ii], ws[ii + 1]);
      tempRow := tempRow + [if black >= other then Black else White];
      ii := ii + 1;
    }
  }

  /** The rows `scale` collects make up the scaled grid. */
  lemma ScaledFromCells(g: Grid, height: nat, width: nat, out: Grid)
    requires |g| > 0 && |g[0]| > 0 && IsRect(g) && height > 0 && width > 0
    requires var u := Enlarged(g, height, width);
             var hs, ws := Apportioned(|u|, height), Apportioned(|u[0]|, width);
             |out| == height && |hs| == height + 1 && |ws| == width + 1 &&
             forall k :: 0 <= k < height ==> out[k] == Cells(u, hs, ws, k, width)
    ensures out == Scaled(g, height, width) && IsBinary(out)
  {
    ScaledIsBinary(g, height, width);
  }

  /** `scale`: enlarge, apportion both axes, and take the majority colour of
      every rectangle. */
  method Scale(pixels: Grid, height: nat, width: nat) returns (out: Grid)
    requires |pixels| > 0 && |pixels[0]| > 0 && IsRect(pixels) && height > 0 && width > 0
    ensures out == Scaled(pixels, height, width)
    ensures |out| == height && forall i :: 0 <= i < height ==> |out[i]| == width
    ensures IsBinary(out)
  {
    var p := Enlarge(pixels, height, width);
    var heights := Apportion(|p|, height);
    var widths := Apportion(|p[0]|, width);
    ScaleCuts(pixels, height, width);
    out := CellRows(p, heights, widths, height, width);
    ScaledFromCells(pixels, height, width, out);
  }

  /** The apportioned boundaries of both axes of the enlarged grid are cut
      lists with one entry more than the target size. */
  lemma ScaleCuts(g: Grid, height: nat, width: nat)
    requires |g| > 0 && |g[0]| > 0 && IsRect(g) && height > 0 && width > 0
    ensures var u := Enlarged(g, height, width);
            var hs, ws := Apportioned(|u|, height), Apportioned(|u[0]|, width);
            |hs| == height + 1 && |ws| == width + 1 && Cuts(hs, |u|) && Cuts(ws, |u[0]|)
  {
  }

  /** The outer loop of `scale`: one row of majority colours per row band. */
  method CellRows(u: Grid, hs: seq<nat>, ws: seq<nat>, height: nat, width: nat) returns (out: Grid)
    requires |u| > 0 && IsRect(u) && Cuts(hs, |u|) && Cuts(ws, |u[0]|)
    requires |hs| == height + 1 && |ws| == width + 1
    ensures |out| == height
    ensures forall k :: 0 <= k < height ==> out[k] == Cells(u, hs, ws, k, width)
  {
    out := [];
    var i := 0;
    while i < |hs| - 1
      invariant 0 <= i <= height
      invariant |out| == i
      invariant forall k :: 0 <= k < i ==> out[k] == Cells(u, hs, ws, k, width)
    {
      var tempRow := CellRow(u, hs, ws, i, width);
      out := out + [tempRow];
      i := i + 1;
    }
  }

  /** Every pixel of a scaled grid is pure black or pure white. */
  lemma ScaledIsBinary(g: Grid, height: nat, width: nat)
    requires |g| > 0 && |g[0]| > 0 && IsRect(g) && height > 0 && width > 0
    ensures IsBinary(Scaled(g, height, width))
  {
    var s := Scaled(g, height, width);
    var u := Enlarged(g, height, width);
    var hs := Apportioned(|u|, height);
    var ws := Apportioned(|u[0]|, width);
    forall i, j | 0 <= i < height && 0 <= j < width
      ensures s[i][j] == Black || s[i][j] == White
    {
      assert s[i][j] == Majority(u, hs[i], hs[i + 1], ws[j], ws[j + 1]);
    }
  }

  lemma {:induction false} RowUniformCount(row: Row, c0: nat, c1: nat, black: bool, isBlack: bool)
    requires c0 <= c1 <= |row|
    requires forall c :: c0 <= c < c1 ==> (row[c] == Black) == isBlack
    ensures black != isBlack ==> RowCount(row, c0, c1, black) == 0
    ensures black == isBlack ==> RowCount(row, c0, c1, black) == c1 - c0
    decreases c1 - c0
  {
    if c1 > c0 {
      RowUniformCount(row, c0, c1 - 1, black, isBlack);
    }
  }

  lemma {:induction false} BlockUniformCount(g: Grid, r0: nat, r1: nat, c0: nat, c1: nat, black: bool, isBlack: bool)
    requires r0 <= r1 <= |g| && c0 <= c1
    requires forall r :: r0 <= r < r1 ==> c1 <= |g[r]|
    requires forall r, c :: r0 <= r < r1 && c0 <= c < c1 ==> (g[r][c] == Black) == isBlack
    ensures black != isBlack ==> BlockCount(g, r0, r1, c0, c1, black) == 0
    ensures black == isBlack && r0 < r1 && c0 < c1 ==> BlockCount(g, r0, r1, c0, c1, black) > 0
    decreases r1 - r0
  {
    if r1 > r0 {
      BlockUniformCount(g, r0, r1 - 1, c0, c1, black, isBlack);
      RowUniformCount(g[r1 - 1], c0, c1, black, isBlack);
    }
  }

  /** A non-empty rectangle of one colour has that colour as its majority. */
  lemma UniformMajority(g: Grid, r0: nat, r1: nat, c0: nat, c1: nat, p: Pixel)
    requires r0 < r1 <= |g| && c0 < c1
    requires forall r :: r0 <= r < r1 ==> c1 <= |g[r]|
    requires p == Black || p == White
    requires forall r, c :: r0 <= r < r1 && c0 <= c < c1 ==> g[r][c] == p
    ensures Majority(g, r0, r1, c0, c1) == p
  {
    BlockUniformCount(g, r0, r1, c0, c1, true, p == Black);
    BlockUniformCount(g, r0, r1, c0, c1, false, p == Black);
  }

  /** Cell (i, j) of a scaled grid is the majority of rectangle (i, j). */
  lemma ScaledCell(g: Grid, height: nat, width: nat, i: nat, j: nat)
    requires |g| > 0 && |g[0]| > 0 && IsRect(g) && height > 0 && width > 0
    requires i < height && j < width
    ensures var u := Enlarged(g, height, width);
            var hs := Apportioned(|u|, height);
            var ws := Apportioned(|u[0]|, width);
            Scaled(g, height, width)[i][j] == Majority(u, hs[i], hs[i + 1], ws[j], ws[j + 1])
  {
    var u := Enlarged(g, height, width);
    var hs := Apportioned(|u|, height);
    var ws := Apportioned(|u[0]|, width);
    assert Scaled(g, height, width)[i] == Cells(u, hs, ws, i, width);
  }

  /** Scaling a black-and-white grid to its own size returns it unchanged. */
  lemma ScaledIdentity(g: Grid)
    requires |g| > 0 && |g[0]| > 0 && IsRect(g) && IsBinary(g)
    ensures Scaled(g, |g|, |g[0]|) == g
  {
    var s := Scaled(g, |g|, |g[0]|);
    forall i, j | 0 <= i < |g| && 0 <= j < |g[0]|
      ensures s[i][j] == g[i][j]
    {
      IdentityCell(g, i, j);
    }
    SameGrid(s, g);
  }

  lemma IdentityCell(g: Grid, i: nat, j: nat)
    requires |g| > 0 && |g[0]| > 0 && IsRect(g) && IsBinary(g)
    requires i < |g| && j < |g[0]|
    ensures Scaled(g, |g|, |g[0]|)[i][j] == g[i][j]
  {
    var h, w := |g|, |g[0]|;
    assert Enlarged(g, h, w) == g;
    UnitBoundaries(h, i);
    UnitBoundaries(w, j);
    ScaledCell(g, h, w, i, j);
    PixelMajority(g, i, j);
  }

  /** The majority of a single black or white pixel is that pixel. */
  lemma PixelMajority(g: Grid, i: nat, j: nat)
    requires IsBinary(g) && i < |g| && j < |g[i]|
    ensures Majority(g, i, i + 1, j, j + 1) == g[i][j]
  {
    UniformMajority(g, i, i + 1, j, j + 1, g[i][j]);
  }

  /** The apportioned boundaries of `n` into `n` parts are 0 .. n. */
  lemma UnitBoundaries(n: nat, k: nat)
    requires k < n
    ensures |Apportioned(n, n)| == n + 1
    ensures Apportioned(n, n)[k] == k && Apportioned(n, n)[k + 1] == k + 1
  {
    assert n * 1 == n;
    ApportionedExact(1, n);
  }

  lemma SameGrid(s: Grid, g: Grid)
    requires |s| == |g| && IsRect(g) && |g| > 0
    requires forall i :: 0 <= i < |s| ==> |s[i]| == |g[0]|
    requires forall i, j :: 0 <= i < |g| && 0 <= j < |g[0]| ==> s[i][j] == g[i][j]
    ensures s == g
  {
    forall i | 0 <= i < |g|
      ensures s[i] == g[i]
    {
      assert |s[i]| == |g[i]|;
    }
  }

  /** `scale` undoes `increase_size` on a black-and-white grid: scaling the
      3x upscaled grid back to the original size gives the original. */
  lemma ScaleUndoesIncrease(g: Grid)
    requires |g| > 0 && |g[0]| > 0 && IsRect(g) && IsBinary(g)
    ensures |Upscaled(g)| > 0 && |Upscaled(g)[0]| > 0 && IsRect(Upscaled(g))
    ensures Scaled(Upscaled(g), |g|, |g[0]|) == g
  {
    UpscaledShape(g);
    var s := Scaled(Upscaled(g), |g|, |g[0]|);
    forall i, j | 0 <= i < |g| && 0 <= j < |g[0]|
      ensures s[i][j] == g[i][j]
    {
      UndoCell(g, i, j);
    }
    SameGrid(s, g);
  }

  lemma UndoCell(g: Grid, i: nat, j: nat)
    requires |g| > 0 && |g[0]| > 0 && IsRect(g) && IsBinary(g)
    requires i < |g| && j < |g[0]|
    ensures |Upscaled(g)| > 0 && |Upscaled(g)[0]| > 0 && IsRect(Upscaled(g))
    ensures Scaled(Upscaled(g), |g|, |g[0]|)[i][j] == g[i][j]
  {
    var h, w := |g|, |g[0]|;
    var u := Upscaled(g);
    UpscaledShape(g);
    assert Enlarged(u, h, w) == u;
    var hs := Apportioned(|u|, h);
    var ws := Apportioned(|u[0]|, w);
    TripledBoundaries(h, i);
    TripledBoundaries(w, j);
    ScaledCell(u, h, w, i, j);
    UpscaledBlock(g, i, j);
    UniformMajority(u, 3 * i, 3 * i + 3, 3 * j, 3 * j + 3, g[i][j]);
  }

  /** The apportioned boundaries of `3 * n` into `n` parts are the multiples of 3. */
  lemma TripledBoundaries(n: nat, k: nat)
    requires k < n
    ensures |Apportioned(3 * n, n)| == n + 1
    ensures Apportioned(3 * n, n)[k] == 3 * k && Apportioned(3 * n, n)[k + 1] == 3 * k + 3
  {
    assert n * 3 == 3 * n;
    ApportionedExact(3, n);
  }

  /** Block (i, j) of the upscaled grid is a copy of pixel (i, j). */
  lemma UpscaledBlock(g: Grid, i: nat, j: nat)
    requires |g| > 0 && IsRect(g) && i < |g| && j < |g[0]|
    ensures 3 * i + 3 <= |Upscaled(g)|
    ensures forall r :: 3 * i <= r < 3 * i + 3 ==> 3 * j + 3 <= |Upscaled(g)[r]|
    ensures forall r, c :: 3 * i <= r < 3 * i + 3 && 3 * j <= c < 3 * j + 3 ==> Upscaled(g)[r][c] == g[i][j]
  {
    forall r, c | 3 * i <= r < 3 * i + 3 && 3 * j <= c < 3 * j + 3
      ensures Upscaled(g)[r][c] == g[i][j]
    {
      assert r / 3 == i && c / 3 == j;
    }
  }
}
