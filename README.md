# character_finder: a verified model of the OCR pipeline

`character_finder.py` reads text from an image. It works on a grid of RGB
pixels and goes through these stages:

1. It binarises the grid (`black_and_white`).
2. It cuts the page into lines and each line into glyphs. A glyph is cut at
   runs of inked rows and columns (`get_splits`, `split_lines`,
   `split_chars`).
3. It inserts space markers where a gap is well above the line's mean gap
   (`add_spaces`), and cuts apart glyphs that are too wide to be one
   character (`rem_double_chars`).
4. It trims blank rows (`strip`) and rescales each glyph to a fixed size
   (`scale`, which uses `increase_size` and `apportion`).
5. It describes each glyph and looks for its closest match in a library of
   known characters (`closest_match`). There are two descriptions:
   - the black density of 25 regions (`get_squares`);
   - traced outlines (`outline`, `path`), sampled at evenly spaced points
     (`sample`), together with a code for where the glyph's hole lies
     (`find_hole`).

The project models each function with loops as a Dafny method, whose
loops mirror the original's. Each method is proved equal to a specification
function, and the properties of the stages are proved as lemmas about those
functions. `path`, which has a single loop returning the first hit, is the
recursive function `Outline.Path`.

The modules follow the stages:

- `Pixels`: pixel, grid and glyph types.
- `Raster`: `black_and_white`, `increase_size`, `strip`, `scale`.
- `Apportionment`: `apportion`.
- `Splits`: `get_splits`, `split_lines`, `split_chars`.
- `Spaces`: `add_spaces`.
- `DoubleChars`: `rem_double_chars`.
- `Squares`: `get_squares`.
- `Outline`: `outline`, `path`.
- `Sampling`: `sample`.
- `Holes`: `find_hole`.
- `Match`: the prefilter and the first-best choice of `closest_match`.
- `Ratios`: small lemmas that turn a ratio against a mean into a product of
  integers.

The model represents the original's values as follows:

- A pixel is a triple of integers. Black is `(0, 0, 0)` and white is
  `(255, 255, 255)`.
- An image is a sequence of rows.
- The original's marker `-1` for a space is the `Space` case of the `Glyph`
  datatype.
- A coordinate `[col, row]` is `Point(x, y)`.
- The `vert`/`horz` flags of `get_splits` are the `Axis` datatype.
- The hole codes 0 to 3 are the `Hole` datatype. `Holes.Code` maps them back
  to the numbers.
- Every division or comparison against a mean is taken on exact rationals
  (`real`), and it is proved equivalent to an integer cross-multiplication.

The model keeps these behaviours of the code:

- `path` tries 46 offsets. The ring at distance 3 lacks `(-2, 3)` and
  `(-1, 3)`.
- The gap that `add_spaces` measures before glyph `i` is `start_i - end_{i-1}`,
  the distance from the previous glyph's end to this glyph's start.
- Merging of short line runs happens when `small` is *false*, and the merge
  marks a short run's end as `-1`. A short final run therefore leaves `-1` as
  the last end. `split_lines` then produces an empty line for it
  (`Splits.MergedLastExample`).
- `get_squares` takes the column band with the row band's index (`widths[i]`).
  Its 25 entries hold at most five distinct values: the densities of the
  diagonal blocks, each repeated five times (`Squares.SquaresShape`).
- In `find_hole`, a point that raises the running maximum never lowers the
  running minimum (the `elif`). For rows that only increase, the minimum stays
  unset at `-1` (`Holes.RisingRows`).

## Model

| member | source | states |
|---|---|---|
| Raster.BlackAndWhite | character_finder.py:41-62 | The result has the input's shape. Each pixel is black exactly when its channel sum is below 465, and white otherwise. The result is binary. |
| Raster.BinarizedIdempotent | character_finder.py:41-62 | Binarising a binarised image changes nothing. |
| Raster.BinarizedFixesBinary | character_finder.py:41-62 | A black-and-white image is its own binarisation. |
| Raster.IncreaseSizeRow | character_finder.py:84-95 | Three copies of the row, in which each pixel appears three times in a row. |
| Raster.IncreaseSize | character_finder.py:66-80 | The loop builds the 3x magnified image. |
| Raster.UpscaledShape | character_finder.py:66-95 | Magnifying triples both dimensions and keeps the image rectangular. Pixel (r, c) of the result is pixel (r/3, c/3) of the input. A binary image stays binary. |
| Raster.NotWhite | character_finder.py:299-303 | The count of non-white pixels is positive exactly when the row has ink. |
| Raster.StartRow | character_finder.py:299-308 | The first inked row, or -1 when no row has ink. |
| Raster.EndRow | character_finder.py:312-321 | One past the last inked row, or -1 when no row has ink. |
| Raster.Strip | character_finder.py:286-327 | The loops compute the stripped image. |
| Raster.StrippedRows | character_finder.py:286-327 | The result is empty exactly when no row has ink. Otherwise it is a contiguous slice of the input whose first and last rows have ink, and every row cut away before or after it is blank. |
| Raster.StrippedIdempotent | character_finder.py:286-327 | Stripping twice is stripping once. |
| Raster.CountBlock | character_finder.py:357-363 | The numbers of black and non-black pixels in a rectangle. |
| Raster.Enlarge | character_finder.py:343-344 | It magnifies until both dimensions reach the target. The result is rectangular and holds at least the target size. |
| Raster.CellRow | character_finder.py:353-366 | One output row: the majority colour of each cell, with ties going to black. |
| Raster.CellRows | character_finder.py:352-369 | The output has one row of cells per band of rows. |
| Raster.Scale | character_finder.py:331-371 | The result has exactly the requested height and width and is binary. It equals the specification of enlarging, apportioning the bands, and taking the majority of each cell. |
| Raster.ScaledCell | character_finder.py:352-369 | Output pixel (i, j) is the majority colour of cell (i, j) of the enlarged image. |
| Raster.UniformMajority | character_finder.py:357-366 | A cell of one colour gives that colour. |
| Raster.ScaledIdentity | character_finder.py:331-371 | A binary image scaled to its own size is unchanged. |
| Raster.ScaleUndoesIncrease | character_finder.py:331-371 | Scaling a 3x magnified binary image back to its original size gives the original. |
| Apportionment.Apportion | character_finder.py:439-457 | The loop's boundary list equals `Apportioned`. |
| Apportionment.Apportioned | character_finder.py:439-457 | There are `div + 1` boundaries from 0 to `num`, never decreasing and never above `num`. When `num` is 0 the list is `[0]`. |
| Apportionment.BoundaryClosed | character_finder.py:447-455 | Closed form of the k-th boundary: k small steps, plus one more for each of the last `num % div` steps taken. |
| Apportionment.LargeTest | character_finder.py:449 | The loop's test that the rest can be finished with large steps holds exactly from step `div - num % div` on. |
| Apportionment.ApportionedSteps | character_finder.py:441-455 | Each step is `num // div`, except that the last `num % div` steps are one larger. |
| Apportionment.ApportionedStrict | character_finder.py:439-457 | With at least as many items as parts, the boundaries strictly increase. |
| Apportionment.ApportionedFewItems | character_finder.py:439-457 | With fewer items than parts, the list stays at 0 and then rises by one per step up to `num`. |
| Apportionment.ApportionedExact | character_finder.py:439-457 | When `div` divides `num`, boundary k is `k * (num / div)`. |
| Apportionment.ApportionedExample | character_finder.py:439-457 | `apportion(10, 3)` is `[0, 3, 6, 10]`. |
| Splits.InkIndices | character_finder.py:174-202 | The listed rows or columns all have ink, in range. |
| Splits.InkIndicesComplete | character_finder.py:174-202 | No inked row or column is skipped: none before the first listed one, none after the last, and none inside a gap between consecutive ones. |
| Splits.InkPositions | character_finder.py:172-202 | The scan lists, in order, the rows (or columns) holding a non-white pixel. |
| Splits.RunBounds | character_finder.py:209-214 | The loop computes the start/end pairs of the runs. |
| Splits.RawSplitsRuns | character_finder.py:209-214 | The start/end pairs are exactly the maximal runs of inked rows or columns. Each run is all ink, each gap between runs is all blank, and nothing outside them has ink. |
| Splits.RunsIncrease | character_finder.py:209-214 | Run boundaries strictly increase. |
| Splits.MeanOfSpans | character_finder.py:216-224 | The loop computes the mean of `end - start - 1` over the runs. |
| Splits.SmallIff | character_finder.py:229 | A run is short exactly when its span is below half the mean. |
| Splits.MarkSmall | character_finder.py:228-230 | The marking loop sets the end of every short run to -1. |
| Splits.MarkedAt | character_finder.py:228-230 | Starts are kept. An end becomes -1 exactly when its run is short. |
| Splits.Compact | character_finder.py:232-239 | The compaction loop equals `Compacted`. |
| Splits.CompactedKeeps | character_finder.py:232-239 | An inner end, and the start that follows it, survive exactly when the end was not marked. |
| Splits.MergedShape | character_finder.py:216-239 | The merged list is still start/end pairs with the same first start, increasing inside, and within the original's extent. The last end is -1 exactly when the last run is short. |
| Splits.MergedKeeps | character_finder.py:216-239 | An end and the next start are kept exactly when that run is not short. Every entry before the last end is one of the raw splits, so merging adds nothing. |
| Splits.MergedUnchanged | character_finder.py:216-239 | Without short runs nothing is merged. |
| Splits.MergedExample | character_finder.py:216-239 | Merging `[0, 10, 12, 13, 15, 25]` gives `[0, 10, 12, 25]`. |
| Splits.MergedLastExample | character_finder.py:216-239 | Merging `[0, 10, 12, 13]` gives `[0, 10, 12, -1]`. |
| Splits.GetSplits | character_finder.py:163-241 | The whole of `get_splits` equals `Splits`. |
| Splits.SplitsAreRuns | character_finder.py:163-241 | Scanning columns, or rows with `small`, gives exactly the maximal inked runs. |
| Splits.LineSplitsMerged | character_finder.py:163-241 | Scanning rows without `small` gives the merge of the maximal inked runs. |
| Splits.SplitsWellPaired | character_finder.py:163-241 | The result is start/end pairs within the image, so the crops are in range. |
| Splits.CopyRows | character_finder.py:119-124 | It copies the rows from start up to end. |
| Splits.CopyColumns | character_finder.py:150-155 | It copies columns start up to end of every row. |
| Splits.CropLines | character_finder.py:113-126 | One image per pair: the rows of that pair. |
| Splits.CropChars | character_finder.py:144-157 | One image per pair: the columns of that pair. |
| Splits.SplitLines | character_finder.py:99-128 | The lines are the row blocks of the row splits, in order. |
| Splits.SplitChars | character_finder.py:132-159 | The glyphs are the column blocks of the column splits, in order. |
| Spaces.GapList | character_finder.py:256-261 | The list of distances: the first start, then each start minus the previous end. |
| Spaces.GapsOfRuns | character_finder.py:256-261 | On maximal runs, the first gap is at least 0 and every later gap at least 1. The sum is 0 only for a single run from column 0. |
| Spaces.SumGaps | character_finder.py:264-266 | The loop sums the gaps. |
| Spaces.WideIff | character_finder.py:272 | `gap / mean > 1.25` holds exactly when `4 * count * gap > 5 * sum`. |
| Spaces.WideGaps | character_finder.py:270-273 | An index is listed exactly when its gap is wide. |
| Spaces.InsertSpaces | character_finder.py:276-280 | The insertion loop equals `Spaced`. |
| Spaces.AddSpaces | character_finder.py:245-282 | The whole of `add_spaces` is the glyphs with a space inserted before each wide gap other than the first. |
| Spaces.SpacedImages | character_finder.py:276-280 | Removing the spaces gives back the glyphs, in order. |
| Spaces.SpacedLayout | character_finder.py:276-280 | The length is the glyph count plus the number of flagged gaps. Every glyph sits at its slot, with a space right before it exactly when its gap is flagged. |
| Spaces.SpacedExample | character_finder.py:276-280 | Gaps `[2, 2, 8]` put one space before the third glyph. |
| DoubleChars.Widths | character_finder.py:384-389 | The total width and the number of images, with spaces excluded. |
| DoubleChars.OversizedIff | character_finder.py:390-396 | An image counts as oversized exactly when its width over the mean width exceeds 1.5. |
| DoubleChars.HasPath | character_finder.py:402-408 | A column is connected exactly when some inner black pixel has a black right, upper-right or lower-right neighbour. |
| DoubleChars.LastCut | character_finder.py:399-413 | The last cuttable column in the range, or -1. No later column in the range is cuttable. |
| DoubleChars.FindSeam | character_finder.py:399-413 | The seam search equals `Seam`. |
| DoubleChars.Seam | character_finder.py:399-413 | The result is -1, or a cuttable column in `[mid - 5, mid + 5)` with no cuttable column after it in that range. |
| DoubleChars.Cut | character_finder.py:418-422 | The two halves: columns `[0, split]` and `[split + 1, w)`. |
| DoubleChars.HalvesJoin | character_finder.py:418-422 | The halves rejoin row by row to the image, with widths `split + 1` and `w - split - 1`. |
| DoubleChars.SeamInside | character_finder.py:415-422 | Both halves are non-empty. |
| DoubleChars.Separate | character_finder.py:395-429 | The body of the main loop equals `Pieces`. |
| DoubleChars.PassThrough | character_finder.py:428-429 | Spaces and images that are not oversized pass through unchanged. |
| DoubleChars.PiecesRejoin | character_finder.py:415-427 | Whatever becomes of a glyph rejoins to that glyph. |
| DoubleChars.UngluedLength | character_finder.py:392-431 | The output is as long as the input plus the number of cuts. |
| DoubleChars.UngluedUnchanged | character_finder.py:392-431 | Without oversized images the output is the input. |
| DoubleChars.RemDoubleChars | character_finder.py:375-431 | The whole of `rem_double_chars` equals `Unglued`. |
| Squares.Square | character_finder.py:753-761 | The loop computes the black fraction of one rectangle. |
| Squares.DensityBounds | character_finder.py:753-761 | A density lies in [0, 1]. It is 0 exactly without black pixels and 1 exactly when all pixels are black. |
| Squares.Bands | character_finder.py:744-746 | After 5x scaling, band i of height and width is exactly `[i * h, (i + 1) * h)`. |
| Squares.EntryAt | character_finder.py:750-761 | Entry `5 * i + ii` is the density over row band i and column band i. |
| Squares.SquaresLoop | character_finder.py:749-763 | The 25-iteration loop equals `SquaresOf`. |
| Squares.SquaresOfShape | character_finder.py:749-763 | There are 25 entries, each in [0, 1]. Each entry equals the first entry of its group of five. |
| Squares.SquaresShape | character_finder.py:735-763 | There are 25 entries in [0, 1]. Entry k is the density of diagonal block `k / 5` of the scaled glyph. |
| Squares.GetSquares | character_finder.py:735-763 | The whole of `get_squares` equals `Squares`. |
| Outline.Padded | character_finder.py:779-789 | Two rows and two columns larger. Padded pixel (r, c) is pixel (r - 1, c - 1), and white on the frame. |
| Outline.Pad | character_finder.py:779-789 | The padding loop builds `Padded`. |
| Outline.RowEdges | character_finder.py:797-800 | A point is collected exactly when it is a boundary pixel of that row. Points come in column order. |
| Outline.Edges | character_finder.py:796-800 | A point is collected exactly when it is an inner boundary pixel. Points come in row-major order. |
| Outline.CollectRow | character_finder.py:797-800 | The inner loop equals `RowEdges`. |
| Outline.CollectEdges | character_finder.py:796-800 | The nested loops equal `Boundary`. |
| Outline.SomeEdge | character_finder.py:796-800 | A glyph with a black pixel has at least one boundary point. |
| Outline.Path | character_finder.py:841-860 | On success, the first offset of the table that lands on a point of `coords`, with no earlier offset landing on one. Otherwise no offset lands. |
| Outline.PathMembers | character_finder.py:857-860 | `path` depends only on which points the list holds. |
| Outline.Remove | character_finder.py:812 | `list.remove` drops one copy of a present item and leaves the list unchanged otherwise. `out.remove(temp)` always finds `temp`, because `Path` only returns points of the pool. |
| Outline.RemoveFirst | character_finder.py:812 | The copy dropped is the first occurrence, and the items before and after it keep their order, so the next chain's seed `out[0]` is fixed. |
| Outline.TraceSpec | character_finder.py:806-815 | The traced chain extends its seed. Each step goes to the point `path` picks among those not yet taken, and the chain stops exactly when `path` finds none. Chain and rest together hold the pool. |
| Outline.TraceKeeps | character_finder.py:806-815 | Tracing neither loses nor invents points. |
| Outline.ChainsPartition | character_finder.py:803-815 | The chains together hold exactly the boundary points. |
| Outline.ChainsSteps | character_finder.py:803-815 | Every chain is greedy. Each step goes to `path`'s pick among all points not yet chained, and the chain ends where `path` finds none. |
| Outline.ChainsDisjoint | character_finder.py:796-815 | No boundary point is collected twice and no point is in two chains. |
| Outline.LongestFrom | character_finder.py:818-823 | The position of the first longest outline. |
| Outline.SelectedSpec | character_finder.py:817-834 | One or two outlines. The first is the first longest outline. A second is kept exactly when another remains whose length exceeds a tenth of the first, and then it is the longest of the rest. |
| Outline.TenthIff | character_finder.py:833 | `len2 > len1 / 10` holds exactly when `10 * len2 > len1`. |
| Outline.ChainAll | character_finder.py:803-815 | The chaining loops equal `Chains`. |
| Outline.FindLongest | character_finder.py:818-823 | The longest-search loop equals `Longest`. |
| Outline.SelectShapes | character_finder.py:817-834 | The selection equals `Selected`. |
| Outline.GetOutline | character_finder.py:770-837 | The whole of `outline` equals `Outlines`. |
| Sampling.PickedCovers | character_finder.py:875-880 | The kept points are distinct and include the point at every index used. |
| Sampling.SampledSpec | character_finder.py:864-882 | The sample starts at the first point, repeats nothing, holds the point at each apportioned index and no other point, and lists its points in the order they appear in the outline. |
| Sampling.SampledCount | character_finder.py:864-882 | On an outline without repeats and with more than n points, the sample is exactly the n + 1 points at the apportioned indices. |
| Sampling.Sample | character_finder.py:864-882 | The loop equals `Sampled`. |
| Holes.Code | character_finder.py:893-897 | Hole codes are 0 to 3. |
| Holes.Bounds | character_finder.py:904-910 | The loop equals `Extremes`. |
| Holes.ExtremesSpec | character_finder.py:904-910 | `maxy` is the largest row. `miny` is the smallest row among the points that do not raise the running maximum, or -1 when there is no such point. |
| Holes.RisingRows | character_finder.py:906-910 | When rows strictly increase, `miny` stays -1. |
| Holes.NoHoleIff | character_finder.py:900-903 | No hole exactly when there are fewer than two outlines. |
| Holes.HoleSpec | character_finder.py:903-923 | The conditions for "upper", "lower" and "middle", stated on the points of the second outline, each as an if-and-only-if. |
| Holes.FindHole | character_finder.py:886-925 | The whole of `find_hole` equals `HoleOf`. |
| Match.Prefilter | character_finder.py:654-660 | A space answers " ". An image answers "" exactly when its area is below a tenth of the average. Every other image goes on to matching. |
| Match.IgnoredIff | character_finder.py:659-660 | An image is dropped exactly when ten times its area is below the average. |
| Match.NothingIgnored | character_finder.py:659-660 | When the average is not positive, nothing is dropped. |
| Match.ScoreOf | character_finder.py:706-708 | The loop sums the squared differences. |
| Match.ScoreSymmetric | character_finder.py:706-708 | The score does not depend on which side is the library entry. |
| Match.ScoreNonNeg | character_finder.py:706-708 | The score is never negative. |
| Match.FirstMinSpec | character_finder.py:711 | The chosen position holds a minimum score, and every earlier score is strictly larger. |
| Match.IndexOfMin | character_finder.py:711 | `scores.index(min(scores))` equals `FirstMin`. |
| Match.ClosestSpec | character_finder.py:696-711 | The answer is the character of an entry with the least score, and every earlier entry scores strictly more. |
| Match.ClosestMatch | character_finder.py:702-711 | The scoring loop and the choice equal `Closest`. |

## Left out

- `get_pixels`, `show_image`, `show_outline`, `save_default_chars`, `library`,
  `get_text` and `user_interface` are not modelled. They do image-file I/O,
  display, persistence of the library, and the driver loop.
- `distance` and the `outline` branch of `closest_match` (lines 664-694) are
  not modelled. `distance` is floating-point geometry on sampled outlines.
  Only the prefilter and the "squares" branch are modelled.
- `Match.ClosestMatch` takes the glyph's 25 squares as a parameter. It does
  not call `get_squares` itself; `Squares.GetSquares` models that call
  separately.
- Floating point: each ratio (`avg / 2`, `/ 1.25`, `/ 1.5`, `/ 10`) and each
  mean is an exact rational. Rounding is not modelled.
- Raster.BlackAndWhite: the original overwrites the pixel lists in place.
  The model returns a new grid, so aliasing of the caller's rows is not
  captured.
- Raster.IncreaseSizeRow: the original returns the same row object three
  times (`[new_row]*3`). The model returns three equal values, so the
  aliasing is not captured.
- Splits.MarkSmall: the original writes `-1` into `line_splits` in place.
  The model updates a local sequence.
- The second loop of `find_hole` (`maxy2`, lines 912-915) computes a value
  that is never used. It is not modelled.
- Where the original would raise an exception, the model makes the input a
  precondition:
  - `get_splits` on an all-white image raises on `non_white[0]`, so the
    model requires ink;
  - `add_spaces` divides by a zero gap sum, so the model requires a
    non-zero sum;
  - `rem_double_chars` divides by a zero width sum, so the model requires a
    positive width sum;
  - `outline` on an image without black pixels raises `ValueError` at
    `outlines.remove(longest[0])` (line 824), where `longest[0]` is still
    `-1`, so the model requires a black pixel;
  - `sample` needs a non-empty outline and `n > 0`;
  - `closest_match` needs a non-empty library and, for the prefilter, a
    first row;
  - `scale` and `get_squares` need an image that is rectangular and not
    empty.
- Apportionment.Apportion: the model requires `div > 0`, because the
  original raises `ZeroDivisionError` at `num//div` (line 442) when `div` is 0.
- Raster.Scale: the model requires `height > 0` and `width > 0`. With either
  one 0, the original passes it to `apportion` (lines 348-349) and raises
  `ZeroDivisionError`. The model also requires a non-empty first row. With
  `len(pixels[0]) == 0` and `width > 0`, the original does not raise but
  loops forever in the `while` at line 343, because magnifying an empty row
  leaves it empty.
- Scanning columns, in `split_chars` and `add_spaces`, reads
  `len(pixels[0])`. It fails on an image with no rows, or with a row shorter
  than the first. The model requires at least one row and every row at least
  as long as the first (`ColumnsInRange`).
- DoubleChars.RemDoubleChars: the model requires every oversized image to
  be at least 11 columns wide. That is the width at which the seam search
  (lines 401-407) reads every column inside the row. The original also runs
  in some cases on narrower oversized images, and these are not modelled:
  - any width when the image has fewer than 3 rows, since then no row is
    examined;
  - width 10 when no inner pixel of column 9 is black, since the `and`
    short-circuits before column 10 is read;
  - width 9 when no inner pixel of column 8 is black, where column `-1`
    wraps to column 8.

  At widths of 8 and below, an image of 3 or more rows makes the search read
  a column past the row's end.
- Outline.Remove: Python's `list.remove` raises `ValueError` when the item
  is absent. The model's `Remove` returns the list unchanged in that case,
  which its uses (`out.remove(temp)` in `Trace` and the removal of the
  longest outline in `Selected`) never reach.
- Negative indices: the model never reaches Python's wrap-around indexing.
  The preconditions exclude the inputs that would need it.
- Outline.Path: the model fixes the order of the offset table. It does not
  prove facts about the table's geometry (its rings and distances).
- Match.Score: "zero exactly for equal squares" is not proved, because
  the solver does not close the step from a zero square to a zero
  difference. Non-negativity is proved (`Match.ScoreNonNeg`).
- Holes.HoleSpec: it is stated for points with non-negative rows, which every
  point of an outline of a padded image has.
