/** `add_spaces`: inserting the space marker before the characters of a line
    whose gap to the previous character is well above the line's mean gap. */
module Spaces {
  import opened Pixels
  import opened Splits
  import opened Ratios

  /** The list `dists` of a line's column splits: the first start, then for
      every later character the distance from the previous end to its start. */
  function Gaps(s: seq<int>): (d: seq<int>)
    requires Paired(s)
    ensures |d| == |s| / 2
  {
    seq(|s| / 2, t requires 0 <= t < |s| / 2 => if t == 0 then Start(s, 0) else Start(s, t) - End(s, t - 1))
  }

  /** The gaps of a line's column splits. */
  function LineGaps(line: Grid): seq<int>
    requires ColumnsInRange(line) && Inked(Profile(line, Columns))
  {
    SplitsWellPaired(line, Columns, false);
    Gaps(Splits.Splits(line, Columns, false))
  }

  function Sum(d: seq<int>, n: nat): int
    requires n <= |d|
  {
    if n == 0 then 0 else Sum(d, n - 1) + d[n - 1]
  }

  function GapSum(d: seq<int>): int {
    Sum(d, |d|)
  }

  /** The mean gap `sum_dists / len(dists)`. */
  function MeanGap(d: seq<int>): real
    requires |d| > 0
  {
    GapSum(d) as real / |d| as real
  }

  /** Gap `i` is more than 1.25 times the mean: `gap / mean > 1.25` with the
      divisions cleared. */
  predicate Wide(d: seq<int>, i: nat)
    requires i < |d|
  {
    4 * |d| * d[i] > 5 * GapSum(d)
  }

  /** The integer test is the original's `dists[i] / avg > 1.25` on the exact
      mean, whenever that mean is positive. */
  lemma WideIff(d: seq<int>, i: nat)
    requires i < |d| && GapSum(d) > 0
    ensures Wide(d, i) <==> (d[i] as real) / MeanGap(d) > 1.25
  {
    RatioTest(d[i], |d|, GapSum(d));
  }

  /** `a / (t / n) > 1.25` on exact reals, for positive `n` and `t`, is the
      integer test `4 * n * a > 5 * t`. */
  lemma RatioTest(a: int, n: int, t: int)
    requires n > 0 && t > 0
    ensures 4 * n * a > 5 * t <==> (a as real) / ((t as real) / (n as real)) > 1.25
  {
    MeanRatio(a, n, t, 1.25);
    CastProduct(4, a, n);
  }

  /** A space goes before character `i`: it is not the first one, and its gap
      is wide. */
  predicate SpaceBefore(d: seq<int>, i: nat) {
    0 < i < |d| && Wide(d, i)
  }

  /** The result of `add_spaces` for the first `n` characters. */
  function Spaced(chars: seq<Grid>, d: seq<int>, n: nat): seq<Glyph>
    requires n <= |chars|
  {
    if n == 0 then []
    else Spaced(chars, d, n - 1) + (if SpaceBefore(d, n - 1) then [Space] else []) + [Image(chars[n - 1])]
  }

  /** How many of the first `n` characters get a space before them. */
  function SpacesBelow(d: seq<int>, n: nat): nat {
    if n == 0 then 0 else SpacesBelow(d, n - 1) + (if SpaceBefore(d, n - 1) then 1 else 0)
  }

  /** Where character `i` lands in the output. */
  function Slot(d: seq<int>, i: nat): nat {
    i + SpacesBelow(d, i + 1)
  }

  /** The images of a glyph list, with the spaces left out. */
  function Images(gs: seq<Glyph>): seq<Grid> {
    if gs == [] then []
    else Images(gs[..|gs| - 1]) + (if gs[|gs| - 1].Image? then [gs[|gs| - 1].px] else [])
  }

  lemma ImagesAppend(a: seq<Glyph>, b: seq<Glyph>)
    ensures Images(a + b) == Images(a) + Images(b)
    decreases |b|
  {
    if b == [] {
      assert a + b == a;
    } else {
      assert (a + b)[..|a + b| - 1] == a + b[..|b| - 1];
      ImagesAppend(a, b[..|b| - 1]);
    }
  }

  /** Removing the spaces gives back the characters in order. */
  lemma {:induction false} SpacedImages(chars: seq<Grid>, d: seq<int>, n: nat)
    requires n <= |chars|
    ensures Images(Spaced(chars, d, n)) == chars[..n]
  {
    if n > 0 {
      SpacedImages(chars, d, n - 1);
      var prev := Spaced(chars, d, n - 1);
      var sp: seq<Glyph> := if SpaceBefore(d, n - 1) then [Space] else [];
      assert Spaced(chars, d, n) == prev + sp + [Image(chars[n - 1])];
      ImagesStep(prev, sp, chars[n - 1]);
      PrefixStep(chars, n);
    }
  }

  lemma PrefixStep(chars: seq<Grid>, n: nat)
    requires 0 < n <= |chars|
    ensures chars[..n] == chars[..n - 1] + [chars[n - 1]]
  {
  }

  /** An optional space and one more image add just that image. */
  lemma ImagesStep(prev: seq<Glyph>, sp: seq<Glyph>, x: Grid)
    requires sp == [] || sp == [Space]
    ensures Images(prev + sp + [Image(x)]) == Images(prev) + [x]
  {
    ImagesAppend(prev + sp, [Image(x)]);
    ImagesAppend(prev, sp);
    assert Images([Image(x)]) == [x];
    if sp == [Space] {
      assert Images(sp) == [];
    }
  }

  /** The layout of the output: it holds the characters and one space per
      wide gap; character `i` sits at `Slot(d, i)`, and the glyph before it is
      a space exactly when `SpaceBefore(d, i)`. In particular the output never
      starts with a space. */
  lemma {:induction false} SpacedLayout(chars: seq<Grid>, d: seq<int>, n: nat)
    requires n <= |chars|
    ensures |Spaced(chars, d, n)| == n + SpacesBelow(d, n)
    ensures forall i :: 0 <= i < n ==>
              Slot(d, i) < |Spaced(chars, d, n)| && Spaced(chars, d, n)[Slot(d, i)] == Image(chars[i]) &&
              (SpaceBefore(d, i) <==> Slot(d, i) > 0 && Spaced(chars, d, n)[Slot(d, i) - 1] == Space)
  {
    if n > 0 {
      SpacedLayout(chars, d, n - 1);
      var prev := Spaced(chars, d, n - 1);
      var sp: seq<Glyph> := if SpaceBefore(d, n - 1) then [Space] else [];
      var out := Spaced(chars, d, n);
      assert out == prev + sp + [Image(chars[n - 1])];
      assert Slot(d, n - 1) == |prev| + |sp|;
      forall i | 0 <= i < n
        ensures Slot(d, i) < |out| && out[Slot(d, i)] == Image(chars[i]) &&
                (SpaceBefore(d, i) <==> Slot(d, i) > 0 && out[Slot(d, i) - 1] == Space)
      {
        if i < n - 1 {
          assert out[Slot(d, i)] == prev[Slot(d, i)];
          if Slot(d, i) > 0 {
            assert out[Slot(d, i) - 1] == prev[Slot(d, i) - 1];
          }
        } else if !SpaceBefore(d, i) && i > 0 {
          SlotAfter(d, i - 1);
          assert out[Slot(d, i) - 1] == prev[|prev| - 1] == prev[Slot(d, i - 1)];
        }
      }
    }
  }

  lemma SlotAfter(d: seq<int>, i: nat)
    requires !SpaceBefore(d, i + 1)
    ensures Slot(d, i + 1) == Slot(d, i) + 1
  {
  }

  /** The gaps of a line's runs: the first is the left margin, every other
      one is at least 1. Their sum, and so the mean, is zero exactly when the
      line holds a single run that starts at column 0. */
  lemma GapsOfRuns(ink: seq<bool>, s: seq<int>)
    requires RunSplits(ink, s)
    ensures Gaps(s)[0] >= 0
    ensures forall t :: 0 < t < |s| / 2 ==> Gaps(s)[t] >= 1
    ensures GapSum(Gaps(s)) >= 0
    ensures GapSum(Gaps(s)) == 0 <==> |s| == 2 && s[0] == 0
  {
    var d := Gaps(s);
    assert RunAt(ink, s, 0);
    forall t | 0 < t < |s| / 2
      ensures d[t] >= 1
    {
      assert RunAt(ink, s, 2 * t - 1);
    }
    SumBelow(d, |d|);
    if |d| > 1 {
      assert d[1] >= 1;
      SumAtLeast(d, |d|, 1);
    }
  }

  lemma {:induction false} SumBelow(d: seq<int>, n: nat)
    requires n <= |d| && forall t :: 0 <= t < |d| ==> d[t] >= 0
    ensures Sum(d, n) >= 0
    ensures n > 0 ==> Sum(d, n) >= d[0]
  {
    if n > 0 {
      SumBelow(d, n - 1);
    }
  }

  lemma {:induction false} SumAtLeast(d: seq<int>, n: nat, t: nat)
    requires t < n <= |d| && forall j :: 0 <= j < |d| ==> d[j] >= 0
    ensures Sum(d, n) >= d[t]
  {
    if t < n - 1 {
      SumAtLeast(d, n - 1, t);
    } else {
      SumBelow(d, n - 1);
    }
  }

  /** Three characters with gaps 2, 2 and 8 (mean 4): only the third gets a
      space, since 8 / 4 > 1.25 and 2 / 4 is not. */
  lemma SpacedExample(a: Grid, b: Grid, c: Grid)
    ensures Spaced([a, b, c], [2, 2, 8], 3) == [Image(a), Image(b), Space, Image(c)]
  {
    var d := [2, 2, 8];
    assert Sum(d, 1) == 2 && Sum(d, 2) == 4 && Sum(d, 3) == 12;
    assert !SpaceBefore(d, 0) && !SpaceBefore(d, 1) && SpaceBefore(d, 2);
    assert Spaced([a, b, c], d, 1) == [Image(a)];
    assert Spaced([a, b, c], d, 2) == [Image(a), Image(b)];
  }

  /** The `dists` loop. */
  method GapList(splits: seq<int>) returns (dists: seq<int>)
    requires Paired(splits)
    ensures dists == Gaps(splits)
  {
    dists := [];
    var i := 0;
    while i < |splits|
      invariant 0 <= i <= |splits| && i % 2 == 0
      invariant |dists| == i / 2
      invariant forall t :: 0 <= t < i / 2 ==> dists[t] == Gaps(splits)[t]
    {
      if i == 0 {
        dists := dists + [splits[i]];
      } else {
        assert Start(splits, i / 2) == splits[i] && End(splits, i / 2 - 1) == splits[i - 1];
        dists := dists + [splits[i] - splits[i - 1]];
      }
      i := i + 2;
    }
  }

  /** The `sum_dists` loop. */
  method SumGaps(dists: seq<int>) returns (total: int)
    ensures total == GapSum(dists)
  {
    total := 0;
    var i := 0;
    while i < |dists|
      invariant 0 <= i <= |dists|
      invariant total == Sum(dists, i)
    {
      total := total + dists[i];
      i := i + 1;
    }
  }

  /** The `spaces` loop: the indices of the wide gaps. */
  method WideGaps(dists: seq<int>, avg: real) returns (spaces: seq<nat>)
    requires |dists| > 0 && GapSum(dists) > 0 && avg == MeanGap(dists)
    ensures forall i: nat :: i in spaces <==> i < |dists| && Wide(dists, i)
  {
    spaces := [];
    var i := 0;
    while i < |dists|
      invariant 0 <= i <= |dists|
      invariant forall j: nat :: j in spaces <==> j < i && Wide(dists, j)
    {
      WideIff(dists, i);
      if (dists[i] as real) / avg > 1.25 {
        spaces := spaces + [i];
      }
      i := i + 1;
    }
  }

  /** `add_spaces`: the gaps between the line's characters, their mean, and
      a space marker before every character (but the first) whose gap is more
      than 1.25 times the mean. */
  method AddSpaces(line: Grid, chars: seq<Grid>) returns (newChars: seq<Glyph>)
    requires ColumnsInRange(line) && Inked(Profile(line, Columns))
    requires GapSum(LineGaps(line)) != 0
    ensures newChars == Spaced(chars, LineGaps(line), |chars|)
  {
    var splits := GetSplits(line, Columns, false);
    SplitsAreRuns(line, Columns, false);
    GapsOfRuns(Profile(line, Columns), splits);
    var dists := GapList(splits);
    var sumDists := SumGaps(dists);
    var avg := sumDists as real / |dists| as real;
    var spaces := WideGaps(dists, avg);
    newChars := InsertSpaces(chars, dists, spaces);
  }

  /** The `new_chars` loop: a space before every character but the first
      whose index is in `spaces`. */
  method InsertSpaces(chars: seq<Grid>, dists: seq<int>, spaces: seq<nat>) returns (newChars: seq<Glyph>)
    requires forall i: nat :: i in spaces <==> i < |dists| && Wide(dists, i)
    ensures newChars == Spaced(chars, dists, |chars|)
  {
    newChars := [];
    var i := 0;
    while i < |chars|
      invariant 0 <= i <= |chars|
      invariant newChars == Spaced(chars, dists, i)
    {
      if i in spaces && i != 0 {
        newChars := newChars + [Space];
      }
      newChars := newChars + [Image(chars[i])];
      i := i + 1;
    }
  }
}
