/** `get_splits`, `split_lines` and `split_chars`: cutting a page into lines
    of text and a line into characters at the blank rows or columns. */
module Splits {
  import opened Pixels

  /** The direction `get_splits` scans: along rows (`vert`) or along columns
      (`horz`). */
  datatype Axis = Rows | Columns

  /** Scanning columns reads `pixels[row][col]` for every row and every
      column of the first row, so every row must be at least that long. */
  ghost predicate ColumnsInRange(g: Grid) {
    |g| > 0 && forall r :: 0 <= r < |g| ==> |g[0]| <= |g[r]|
  }

  /** Which rows (or columns) hold a pixel that is not pure white. */
  function Profile(g: Grid, axis: Axis): (ink: seq<bool>)
    requires axis == Columns ==> ColumnsInRange(g)
  {
    match axis
    case Rows => seq(|g|, r requires 0 <= r < |g| => RowHasInk(g[r]))
    case Columns => seq(|g[0]|, c requires 0 <= c < |g[0]| => ColHasInk(g, c))
  }

  predicate Inked(ink: seq<bool>) {
    exists p :: 0 <= p < |ink| && ink[p]
  }

  /** The list `non_white`: the inked positions below `n`, in order. */
  function InkIndices(ink: seq<bool>, n: nat): (r: seq<nat>)
    requires n <= |ink|
    ensures forall k :: 0 <= k < |r| ==> r[k] < n && ink[r[k]]
    decreases n
  {
    if n == 0 then []
    else InkIndices(ink, n - 1) + (if ink[n - 1] then [n - 1] else [])
  }

  /** Entry `i` of `r` lies above entry `i - 1`, with nothing inked between. */
  ghost predicate Gap(ink: seq<bool>, r: seq<nat>, i: nat)
    requires 0 < i < |r|
  {
    r[i - 1] < r[i] && forall p :: r[i - 1] < p < r[i] && p < |ink| ==> !ink[p]
  }

  /** `non_white` is increasing and misses no inked position: none lies
      before its first entry, between two neighbours or after its last entry,
      and it is empty only when nothing below `n` is inked. */
  lemma {:induction false} InkIndicesComplete(ink: seq<bool>, n: nat)
    requires n <= |ink|
    ensures var r := InkIndices(ink, n);
            (|r| == 0 ==> forall p :: 0 <= p < n ==> !ink[p]) &&
            (|r| > 0 ==>
              (forall p :: 0 <= p < r[0] ==> !ink[p]) &&
              (forall p :: r[|r| - 1] < p < n ==> !ink[p]) &&
              (forall i :: 0 < i < |r| ==> Gap(ink, r, i)))
  {
    InkNone(ink, n);
    InkFirst(ink, n);
    InkLast(ink, n);
    InkGaps(ink, n);
  }

  lemma {:induction false} InkNone(ink: seq<bool>, n: nat)
    requires n <= |ink|
    ensures |InkIndices(ink, n)| == 0 ==> forall p :: 0 <= p < n ==> !ink[p]
  {
    if n > 0 {
      InkNone(ink, n - 1);
    }
  }

  lemma {:induction false} InkFirst(ink: seq<bool>, n: nat)
    requires n <= |ink|
    ensures var r := InkIndices(ink, n);
            |r| > 0 ==> forall p :: 0 <= p < r[0] ==> !ink[p]
  {
    if n > 0 {
      InkFirst(ink, n - 1);
      InkNone(ink, n - 1);
      var prev := InkIndices(ink, n - 1);
      if ink[n - 1] && |prev| == 0 {
        assert InkIndices(ink, n) == [n - 1];
      } else if |prev| > 0 {
        assert InkIndices(ink, n)[0] == prev[0];
      }
    }
  }

  lemma {:induction false} InkLast(ink: seq<bool>, n: nat)
    requires n <= |ink|
    ensures var r := InkIndices(ink, n);
            |r| > 0 ==> forall p :: r[|r| - 1] < p < n ==> !ink[p]
  {
    if n > 0 {
      InkLast(ink, n - 1);
      var prev := InkIndices(ink, n - 1);
      if !ink[n - 1] {
        assert InkIndices(ink, n) == prev;
      }
    }
  }

  lemma {:induction false} InkGaps(ink: seq<bool>, n: nat)
    requires n <= |ink|
    ensures var r := InkIndices(ink, n);
            forall i :: 0 < i < |r| ==> Gap(ink, r, i)
  {
    if n > 0 {
      InkGaps(ink, n - 1);
      InkLast(ink, n - 1);
      var prev := InkIndices(ink, n - 1);
      if ink[n - 1] {
        GapStep(ink, prev, InkIndices(ink, n), n);
      } else {
        assert InkIndices(ink, n) == prev;
      }
    }
  }

  lemma GapStep(ink: seq<bool>, prev: seq<nat>, r: seq<nat>, n: nat)
    requires 0 < n <= |ink| && r == prev + [n - 1]
    requires forall k :: 0 <= k < |prev| ==> prev[k] < n - 1
    requires forall i :: 0 < i < |prev| ==> Gap(ink, prev, i)
    requires |prev| > 0 ==> forall p :: prev[|prev| - 1] < p < n - 1 ==> !ink[p]
    ensures forall i :: 0 < i < |r| ==> Gap(ink, r, i)
  {
    forall i | 0 < i < |r|
      ensures Gap(ink, r, i)
    {
      if i < |prev| {
        assert r[i - 1] == prev[i - 1] && r[i] == prev[i];
        assert Gap(ink, prev, i);
      } else {
        assert r[i] == n - 1 && r[i - 1] == prev[|prev| - 1];
      }
    }
  }

  /** All positions in `[lo, hi)` are inked. */
  ghost predicate AllInk(ink: seq<bool>, lo: int, hi: int) {
    0 <= lo && hi <= |ink| && forall p :: lo <= p < hi ==> ink[p]
  }

  /** No position in `[lo, hi)` is inked. */
  ghost predicate NoInk(ink: seq<bool>, lo: int, hi: int) {
    0 <= lo && hi <= |ink| && forall p :: lo <= p < hi ==> !ink[p]
  }

  ghost predicate Increasing(s: seq<int>) {
    forall i, j :: 0 <= i < j < |s| ==> s[i] < s[j]
  }

  /** `s[k] < s[k + 1]`, and the interval `[s[k], s[k + 1])` is inked when
      `k` is even and blank when `k` is odd. */
  ghost predicate RunAt(ink: seq<bool>, s: seq<int>, k: nat)
    requires k + 1 < |s|
  {
    s[k] < s[k + 1] &&
    if k % 2 == 0 then AllInk(ink, s[k], s[k + 1]) else NoInk(ink, s[k], s[k + 1])
  }

  /** `s` lists, for every maximal run of inked positions, its first position
      and the position just past it: an even-length, strictly increasing list
      whose even-indexed intervals are inked and whose odd-indexed intervals,
      as well as everything before the first and after the last run, are blank. */
  ghost predicate RunSplits(ink: seq<bool>, s: seq<int>) {
    |s| >= 2 && |s| % 2 == 0 && Increasing(s) &&
    NoInk(ink, 0, s[0]) && NoInk(ink, s[|s| - 1], |ink|) &&
    forall k :: 0 <= k < |s| - 1 ==> RunAt(ink, s, k)
  }

  lemma {:induction false} RisesBetween(ink: seq<bool>, s: seq<int>, i: nat, j: nat)
    requires i < j < |s|
    requires forall k :: 0 <= k < |s| - 1 ==> RunAt(ink, s, k)
    ensures s[i] < s[j]
    decreases j - i
  {
    assert RunAt(ink, s, j - 1);
    if i < j - 1 {
      RisesBetween(ink, s, i, j - 1);
    }
  }

  lemma RunsIncrease(ink: seq<bool>, s: seq<int>)
    requires forall k :: 0 <= k < |s| - 1 ==> RunAt(ink, s, k)
    ensures Increasing(s)
  {
    forall i, j | 0 <= i < j < |s|
      ensures s[i] < s[j]
    {
      RisesBetween(ink, s, i, j);
    }
  }

  /** The splits built from the first `n` entries of `non_white`, without the
      closing end: a gap between neighbours closes one run and opens the next. */
  function Open(nw: seq<nat>, n: nat): seq<int>
    requires 1 <= n <= |nw|
  {
    if n == 1 then [nw[0] as int]
    else Open(nw, n - 1) + (if nw[n - 1] as int - 1 != nw[n - 2] then [nw[n - 2] + 1, nw[n - 1] as int] else [])
  }

  /** The splits before any merging. */
  function RawSplits(nw: seq<nat>): seq<int>
    requires |nw| > 0
  {
    Open(nw, |nw|) + [nw[|nw| - 1] + 1]
  }

  /** `nw` lists inked positions in increasing order with nothing inked
      between neighbours. */
  ghost predicate Indexes(ink: seq<bool>, nw: seq<nat>) {
    (forall k :: 0 <= k < |nw| ==> nw[k] < |ink| && ink[nw[k]]) &&
    (forall i :: 0 < i < |nw| ==> Gap(ink, nw, i))
  }

  /** Appending a closed run `[last, a)` and the start `b` of the next run. */
  lemma AppendRun(ink: seq<bool>, prev: seq<int>, a: int, b: int)
    requires |prev| % 2 == 1
    requires forall k :: 0 <= k < |prev| - 1 ==> RunAt(ink, prev, k)
    requires prev[|prev| - 1] < a < b
    requires AllInk(ink, prev[|prev| - 1], a) && NoInk(ink, a, b)
    ensures forall k :: 0 <= k < |prev| + 1 ==> RunAt(ink, prev + [a, b], k)
  {
    var o := prev + [a, b];
    forall k | 0 <= k < |o| - 1
      ensures RunAt(ink, o, k)
    {
      if k < |prev| - 1 {
        assert RunAt(ink, prev, k);
        assert o[k] == prev[k] && o[k + 1] == prev[k + 1];
      } else if k == |prev| - 1 {
        assert o[k] == prev[|prev| - 1] && o[k + 1] == a;
      } else {
        assert o[k] == a && o[k + 1] == b;
      }
    }
  }

  lemma {:induction false} OpenRuns(ink: seq<bool>, nw: seq<nat>, n: nat)
    requires Indexes(ink, nw) && 1 <= n <= |nw|
    ensures var o := Open(nw, n);
            |o| % 2 == 1 && o[0] == nw[0] && o[|o| - 1] <= nw[n - 1] &&
            AllInk(ink, o[|o| - 1], nw[n - 1] + 1) &&
            forall k :: 0 <= k < |o| - 1 ==> RunAt(ink, o, k)
  {
    if n > 1 {
      OpenRuns(ink, nw, n - 1);
      assert Gap(ink, nw, n - 1);
      var prev := Open(nw, n - 1);
      if nw[n - 1] as int - 1 != nw[n - 2] {
        AppendRun(ink, prev, nw[n - 2] + 1, nw[n - 1]);
      } else {
        assert Open(nw, n) == prev;
      }
    }
  }

  /** Closing the last run `[last, b)`. */
  lemma CloseRun(ink: seq<bool>, o: seq<int>, b: int)
    requires |o| % 2 == 1
    requires forall k :: 0 <= k < |o| - 1 ==> RunAt(ink, o, k)
    requires o[|o| - 1] < b && AllInk(ink, o[|o| - 1], b)
    ensures forall k :: 0 <= k < |o| ==> RunAt(ink, o + [b], k)
  {
    var s := o + [b];
    forall k | 0 <= k < |s| - 1
      ensures RunAt(ink, s, k)
    {
      if k < |o| - 1 {
        assert RunAt(ink, o, k);
        assert s[k] == o[k] && s[k + 1] == o[k + 1];
      } else {
        assert s[k] == o[|o| - 1] && s[k + 1] == b;
      }
    }
  }

  /** Before merging, `get_splits` lists exactly the maximal runs of inked
      rows or columns. */
  lemma RawSplitsRuns(ink: seq<bool>)
    requires Inked(ink)
    ensures |InkIndices(ink, |ink|)| > 0
    ensures RunSplits(ink, RawSplits(InkIndices(ink, |ink|)))
  {
    var nw := InkIndices(ink, |ink|);
    InkIndicesComplete(ink, |ink|);
    assert Indexes(ink, nw);
    IndexesRuns(ink, nw);
  }

  /** The raw splits of any list of inked positions in order, with nothing
      inked between neighbours, before the first or after the last. */
  lemma IndexesRuns(ink: seq<bool>, nw: seq<nat>)
    requires Indexes(ink, nw) && |nw| > 0
    requires NoInk(ink, 0, nw[0]) && NoInk(ink, nw[|nw| - 1] + 1, |ink|)
    ensures RunSplits(ink, RawSplits(nw))
  {
    OpenRuns(ink, nw, |nw|);
    var o := Open(nw, |nw|);
    CloseRun(ink, o, nw[|nw| - 1] + 1);
    var s := RawSplits(nw);
    assert s == o + [nw[|nw| - 1] + 1];
    RunsIncrease(ink, s);
  }

  // ---------------------------------------------------------------------
  // The line-merge heuristic

  /** The start of span `k`. */
  function Start(s: seq<int>, k: nat): int
    requires 2 * k < |s|
  {
    s[2 * k]
  }

  /** The end of span `k`. */
  function End(s: seq<int>, k: nat): int
    requires 2 * k + 1 < |s|
  {
    s[2 * k + 1]
  }

  /** The size `end - start - 1` the merge heuristic gives span `k`. */
  function Span(s: seq<int>, k: nat): int
    requires 2 * k + 1 < |s|
  {
    End(s, k) - Start(s, k) - 1
  }

  function SpanSum(s: seq<int>, n: nat): int
    requires 2 * n <= |s|
  {
    if n == 0 then 0 else SpanSum(s, n - 1) + Span(s, n - 1)
  }

  ghost predicate Paired(s: seq<int>) {
    |s| >= 2 && |s| % 2 == 0
  }

  /** The mean span size `sum1 / counter1`. */
  function MeanSpan(s: seq<int>): real
    requires Paired(s)
  {
    SpanSum(s, |s| / 2) as real / (|s| / 2) as real
  }

  /** Span `k` is below half the mean and will be fused with the next one:
      `span < mean / 2`, with the mean `sum / pairs` cleared of its divisor. */
  predicate Small(s: seq<int>, k: nat)
    requires Paired(s) && 2 * k + 1 < |s|
  {
    2 * (|s| / 2) * Span(s, k) < SpanSum(s, |s| / 2)
  }

  /** The integer test is the original's test `span < avg / 2` on the exact
      mean. */
  lemma SmallIff(s: seq<int>, k: nat)
    requires Paired(s) && 2 * k + 1 < |s|
    ensures Small(s, k) <==> (Span(s, k) as real) < MeanSpan(s) / 2.0
  {
    var m := (|s| / 2) as real;
    var total := SpanSum(s, |s| / 2) as real;
    var x := Span(s, k) as real;
    var avg := total / m;
    assert avg * m == total;
    assert x < avg / 2.0 <==> 2.0 * x * m < avg * m;
    assert (2 * (|s| / 2) * Span(s, k)) as real == 2.0 * x * m;
  }

  /** `line_splits` after the marking loop: the end of every small span is -1. */
  function Marked(s: seq<int>): (mk: seq<int>)
    requires Paired(s)
    ensures |mk| == |s|
  {
    seq(|s|, j requires 0 <= j < |s| => if j % 2 == 1 && Small(s, j / 2) then -1 else s[j])
  }

  /** Marking keeps every start and replaces exactly the small spans' ends. */
  lemma MarkedAt(s: seq<int>, k: nat)
    requires Paired(s) && 2 * k + 1 < |s|
    ensures Start(Marked(s), k) == Start(s, k)
    ensures End(Marked(s), k) == if Small(s, k) then -1 else End(s, k)
  {
    assert (2 * k + 1) / 2 == k;
  }

  /** The (end, start) pairs at odd positions `1, 3, .., 2n-1` whose end is
      not -1. */
  function Kept(mk: seq<int>, n: nat): seq<int>
    requires 2 * n < |mk|
  {
    if n == 0 then []
    else Kept(mk, n - 1) + (if End(mk, n - 1) != -1 then [End(mk, n - 1), Start(mk, n)] else [])
  }

  /** `temp`: the first start, the surviving (end, start) pairs and the last
      end of a marked list. */
  function Compacted(mk: seq<int>): seq<int>
    requires Paired(mk)
  {
    [Start(mk, 0)] + Kept(mk, |mk| / 2 - 1) + [End(mk, |mk| / 2 - 1)]
  }

  /** The splits after merging small spans into the following ones. */
  function Merged(s: seq<int>): seq<int>
    requires Paired(s)
  {
    Compacted(Marked(s))
  }

  /** `mk` is `s` with some ends replaced by -1. */
  ghost predicate MarksOf(s: seq<int>, mk: seq<int>) {
    Paired(s) && |mk| == |s| &&
    forall k :: 0 <= k < |s| / 2 ==> Start(mk, k) == Start(s, k) && (End(mk, k) == -1 || End(mk, k) == End(s, k))
  }

  /** Every span starts before it ends, and ends before any later span starts. */
  ghost predicate PairsIncrease(s: seq<int>) {
    (forall k :: 0 <= k < |s| / 2 ==> Start(s, k) < End(s, k)) &&
    (forall j, k :: 0 <= j < k < |s| / 2 ==> End(s, j) < Start(s, k))
  }

  lemma PairsOfIncreasing(s: seq<int>)
    requires Paired(s) && Increasing(s)
    ensures PairsIncrease(s)
  {
  }

  lemma AppendIncreasing(prev: seq<int>, a: int, b: int)
    requires Increasing(prev) && a < b
    requires forall i :: 0 <= i < |prev| ==> prev[i] < a
    ensures Increasing(prev + [a, b])
  {
  }

  lemma {:induction false} KeptBounds(s: seq<int>, mk: seq<int>, n: nat)
    requires MarksOf(s, mk) && PairsIncrease(s) && 2 * n + 2 <= |s|
    ensures var K := Kept(mk, n);
            |K| % 2 == 0 && Increasing(K) &&
            forall i :: 0 <= i < |K| ==> Start(s, 0) < K[i] <= Start(s, n)
  {
    if n > 0 {
      KeptBounds(s, mk, n - 1);
      var prev := Kept(mk, n - 1);
      assert Start(mk, n) == Start(s, n);
      assert Start(s, 0) < End(s, n - 1) < Start(s, n);
      if End(mk, n - 1) != -1 {
        assert End(mk, n - 1) == End(s, n - 1);
        AppendIncreasing(prev, End(s, n - 1), Start(s, n));
      }
    }
  }

  /** The end of span `j` and the start of span `j + 1` are in `K` exactly
      when the end of span `j` was not marked. */
  ghost predicate KeptAt(s: seq<int>, mk: seq<int>, K: seq<int>, j: nat)
    requires 2 * j + 2 < |s| && |mk| == |s|
  {
    (End(s, j) in K <==> End(mk, j) != -1) && (Start(s, j + 1) in K <==> End(mk, j) != -1)
  }

  lemma {:induction false} KeptMembers(s: seq<int>, mk: seq<int>, n: nat)
    requires MarksOf(s, mk) && PairsIncrease(s) && 2 * n + 2 <= |s|
    ensures forall j :: 0 <= j < n ==> KeptAt(s, mk, Kept(mk, n), j)
  {
    if n > 0 {
      KeptMembers(s, mk, n - 1);
      KeptBounds(s, mk, n - 1);
      var prev := Kept(mk, n - 1);
      var K := Kept(mk, n);
      var e, st := End(s, n - 1), Start(s, n);
      assert Start(mk, n) == st;
      var added := if End(mk, n - 1) != -1 then [e, st] else [];
      assert K == prev + added;
      forall j | 0 <= j < n
        ensures KeptAt(s, mk, K, j)
      {
        if j < n - 1 {
          assert KeptAt(s, mk, prev, j);
          KeptEarlier(s, mk, prev, added, j, n);
        } else {
          KeptLast(s, mk, prev, added, n);
        }
      }
    }
  }

  lemma KeptLast(s: seq<int>, mk: seq<int>, prev: seq<int>, added: seq<int>, n: nat)
    requires MarksOf(s, mk) && PairsIncrease(s) && 0 < n && 2 * n + 2 <= |s|
    requires forall i :: 0 <= i < |prev| ==> prev[i] <= Start(s, n - 1)
    requires added == if End(mk, n - 1) != -1 then [End(s, n - 1), Start(s, n)] else []
    ensures KeptAt(s, mk, prev + added, n - 1)
  {
    var e, st := End(s, n - 1), Start(s, n);
    assert Start(s, n - 1) < e < st;
    assert e !in prev && st !in prev;
    InAppend(prev, added, e);
    InAppend(prev, added, st);
  }

  lemma KeptEarlier(s: seq<int>, mk: seq<int>, prev: seq<int>, added: seq<int>, j: nat, n: nat)
    requires MarksOf(s, mk) && PairsIncrease(s) && j < n - 1 && 2 * n + 2 <= |s|
    requires forall x :: x in added ==> x >= End(s, n - 1)
    requires KeptAt(s, mk, prev, j)
    ensures KeptAt(s, mk, prev + added, j)
  {
    assert End(s, j) < Start(s, n - 1) < End(s, n - 1);
    assert Start(s, j + 1) < End(s, j + 1) <= End(s, n - 1);
    InAppend(prev, added, End(s, j));
    InAppend(prev, added, Start(s, j + 1));
  }

  lemma InAppend(a: seq<int>, b: seq<int>, x: int)
    ensures x in a + b <==> x in a || x in b
  {
  }


  /** Marking describes `s` with exactly the small spans' ends set to -1. */
  lemma MarkedMarks(s: seq<int>)
    requires Paired(s)
    ensures MarksOf(s, Marked(s))
    ensures forall k :: 0 <= k < |s| / 2 ==> End(Marked(s), k) == if Small(s, k) then -1 else End(s, k)
  {
    forall k | 0 <= k < |s| / 2
      ensures Start(Marked(s), k) == Start(s, k) && End(Marked(s), k) == if Small(s, k) then -1 else End(s, k)
    {
      MarkedAt(s, k);
    }
  }

  lemma CompactedShape(s: seq<int>, mk: seq<int>)
    requires MarksOf(s, mk) && PairsIncrease(s) && s[0] >= 0
    ensures var M := Compacted(mk);
            Paired(M) && M[0] == s[0] && M[|M| - 1] == End(mk, |s| / 2 - 1) &&
            Increasing(M[..|M| - 1]) &&
            forall i :: 0 <= i < |M| - 1 ==> s[0] <= M[i] < s[|s| - 1]
  {
    var n := |s| / 2 - 1;
    KeptBounds(s, mk, n);
    var K := Kept(mk, n);
    var M := Compacted(mk);
    assert M[..|M| - 1] == [s[0]] + K;
    assert Start(s, n) < End(s, n) == s[|s| - 1];
  }

  lemma CompactedKeeps(s: seq<int>, mk: seq<int>)
    requires MarksOf(s, mk) && PairsIncrease(s) && s[0] >= 0
    ensures forall k :: 0 <= k < |s| / 2 - 1 ==>
              (End(s, k) in Compacted(mk) <==> End(mk, k) != -1) &&
              (Start(s, k + 1) in Compacted(mk) <==> End(mk, k) != -1)
  {
    var n := |s| / 2 - 1;
    KeptMembers(s, mk, n);
    var K := Kept(mk, n);
    forall k | 0 <= k < n
      ensures (End(s, k) in Compacted(mk) <==> End(mk, k) != -1) &&
              (Start(s, k + 1) in Compacted(mk) <==> End(mk, k) != -1)
    {
      assert KeptAt(s, mk, K, k);
      assert s[0] == Start(s, 0) < End(s, k) && End(s, k) < Start(s, k + 1) < End(s, n) == s[|s| - 1];
      MergedMember(s, K, End(mk, n), End(s, k));
      MergedMember(s, K, End(mk, n), Start(s, k + 1));
    }
  }

  /** The shape of the merged splits: the first start survives, the last end
      becomes -1 exactly when the last span is small, and the positions
      before it stay strictly increasing and within the raw splits' range. */
  lemma MergedShape(s: seq<int>)
    requires Paired(s) && Increasing(s) && s[0] >= 0
    ensures var M := Merged(s);
            Paired(M) && M[0] == s[0] &&
            M[|M| - 1] == (if Small(s, |s| / 2 - 1) then -1 else s[|s| - 1]) &&
            Increasing(M[..|M| - 1]) &&
            forall i :: 0 <= i < |M| - 1 ==> s[0] <= M[i] < s[|s| - 1]
  {
    MarkedMarks(s);
    MarkedLast(s);
    PairsOfIncreasing(s);
    CompactedShape(s, Marked(s));
  }

  /** The last end after marking: -1 when the last span is small, otherwise
      the last raw split. */
  lemma MarkedLast(s: seq<int>)
    requires Paired(s)
    ensures End(Marked(s), |s| / 2 - 1) == if Small(s, |s| / 2 - 1) then -1 else s[|s| - 1]
  {
    var n := |s| / 2 - 1;
    MarkedAt(s, n);
    assert 2 * n + 1 == |s| - 1;
  }

  /** For every span but the last, its end and the next start survive
      merging exactly when the span is not small; every position before the
      last comes from the raw splits, so merging adds nothing. */
  lemma MergedKeeps(s: seq<int>)
    requires Paired(s) && Increasing(s) && s[0] >= 0
    ensures forall k :: 0 <= k < |s| / 2 - 1 ==>
              (End(s, k) in Merged(s) <==> !Small(s, k)) && (Start(s, k + 1) in Merged(s) <==> !Small(s, k))
    ensures forall i :: 0 <= i < |Merged(s)| - 1 ==> Merged(s)[i] in s
  {
    MarkedMarks(s);
    PairsOfIncreasing(s);
    CompactedKeeps(s, Marked(s));
    CompactedFrom(s, Marked(s));
  }

  /** Every position of a compacted list but the last is a raw split. */
  lemma CompactedFrom(s: seq<int>, mk: seq<int>)
    requires MarksOf(s, mk)
    ensures forall i :: 0 <= i < |Compacted(mk)| - 1 ==> Compacted(mk)[i] in s
  {
    var n := |s| / 2 - 1;
    KeptFrom(s, mk, n);
    var K := Kept(mk, n);
    var M := Compacted(mk);
    assert Start(mk, 0) == Start(s, 0) == s[0];
    forall i | 0 <= i < |M| - 1
      ensures M[i] in s
    {
      if i > 0 {
        assert M[i] == K[i - 1];
      }
    }
  }

  /** The kept (end, start) pairs are raw splits. */
  lemma {:induction false} KeptFrom(s: seq<int>, mk: seq<int>, n: nat)
    requires MarksOf(s, mk) && 2 * n + 2 <= |s|
    ensures forall i :: 0 <= i < |Kept(mk, n)| ==> Kept(mk, n)[i] in s
  {
    if n > 0 {
      KeptFrom(s, mk, n - 1);
      var prev := Kept(mk, n - 1);
      if End(mk, n - 1) != -1 {
        assert End(mk, n - 1) == End(s, n - 1) == s[2 * (n - 1) + 1];
        assert Start(mk, n) == Start(s, n) == s[2 * n];
        var K := prev + [End(mk, n - 1), Start(mk, n)];
        assert Kept(mk, n) == K;
        forall i | 0 <= i < |K|
          ensures K[i] in s
        {
          if i < |prev| {
            assert K[i] == prev[i];
          }
        }
      }
    }
  }

  lemma MergedMember(s: seq<int>, K: seq<int>, last: int, x: int)
    requires Paired(s) && 0 <= s[0] < x < s[|s| - 1]
    requires last == -1 || last == s[|s| - 1]
    ensures x in [s[0]] + K + [last] <==> x in K
  {
  }

  lemma MarkedUnchanged(s: seq<int>)
    requires Paired(s)
    requires forall k :: 0 <= k < |s| / 2 ==> !Small(s, k)
    ensures Marked(s) == s
  {
  }

  /** When no span is small, merging changes nothing. */
  lemma MergedUnchanged(s: seq<int>)
    requires Paired(s) && forall j :: 0 <= j < |s| ==> s[j] >= 0
    requires forall k :: 0 <= k < |s| / 2 ==> !Small(s, k)
    ensures Merged(s) == s
  {
    MarkedUnchanged(s);
    KeptWhole(s, |s| / 2 - 1);
    assert 2 * (|s| / 2 - 1) + 1 == |s| - 1;
    assert s == [s[0]] + s[1..|s| - 1] + [s[|s| - 1]];
  }

  lemma {:induction false} KeptWhole(s: seq<int>, n: nat)
    requires 2 * n < |s| && forall j :: 0 <= j < |s| ==> s[j] >= 0
    ensures Kept(s, n) == s[1..2 * n + 1]
  {
    if n > 0 {
      KeptWhole(s, n - 1);
      assert s[1..2 * n + 1] == s[1..2 * n - 1] + [s[2 * n - 1], s[2 * n]];
    }
  }

  /** A dot above a line (span 0 against a mean of 6) is fused with the
      line below it. */
  lemma MergedExample()
    ensures Merged([0, 10, 12, 13, 15, 25]) == [0, 10, 12, 25]
  {
    var s := [0, 10, 12, 13, 15, 25];
    assert SpanSum(s, 3) == 18;
    SmallIff(s, 0);
    SmallIff(s, 1);
    SmallIff(s, 2);
    assert Marked(s) == [0, 10, 12, -1, 15, 25];
  }

  /** A small last span leaves -1 as the final end. */
  lemma MergedLastExample()
    ensures Merged([0, 10, 12, 13]) == [0, 10, 12, -1]
  {
    var s := [0, 10, 12, 13];
    assert SpanSum(s, 2) == 9;
    SmallIff(s, 0);
    SmallIff(s, 1);
    assert Marked(s) == [0, 10, 12, -1];
  }

  // ---------------------------------------------------------------------
  // get_splits

  /** The result of `get_splits(pixels, vert, horz, small)`: the runs of the
      profile, merged only when scanning rows without `small`. */
  function Splits(g: Grid, axis: Axis, small: bool): seq<int>
    requires axis == Columns ==> ColumnsInRange(g)
    requires Inked(Profile(g, axis))
  {
    var ink := Profile(g, axis);
    RawSplitsRuns(ink);
    var raw := RawSplits(InkIndices(ink, |ink|));
    if axis == Rows && !small then Merged(raw) else raw
  }

  /** Scanning columns, or rows with `small`, gives exactly the maximal runs
      of inked columns or rows. */
  lemma SplitsAreRuns(g: Grid, axis: Axis, small: bool)
    requires axis == Columns ==> ColumnsInRange(g)
    requires Inked(Profile(g, axis))
    requires axis == Columns || small
    ensures RunSplits(Profile(g, axis), Splits(g, axis, small))
  {
    RawSplitsRuns(Profile(g, axis));
  }

  /** Scanning rows without `small` merges the maximal runs of inked rows. */
  lemma LineSplitsMerged(g: Grid)
    requires Inked(Profile(g, Rows))
    ensures var ink := Profile(g, Rows);
            |InkIndices(ink, |ink|)| > 0 &&
            var raw := RawSplits(InkIndices(ink, |ink|));
            RunSplits(ink, raw) && Splits(g, Rows, false) == Merged(raw)
  {
    RawSplitsRuns(Profile(g, Rows));
  }

  /** Every pair of `s` is a start within `[0, bound]` and an end within it
      that lies after the start, or -1. */
  ghost predicate WellPaired(s: seq<int>, bound: int) {
    Paired(s) &&
    forall k :: 0 <= k < |s| / 2 ==>
      0 <= Start(s, k) <= bound && End(s, k) <= bound && (End(s, k) == -1 || Start(s, k) < End(s, k))
  }

  lemma RunsWellPaired(ink: seq<bool>, s: seq<int>)
    requires RunSplits(ink, s)
    ensures WellPaired(s, |ink|)
    ensures forall i :: 0 <= i < |s| ==> s[0] <= s[i] <= s[|s| - 1] <= |ink|
  {
    assert RunAt(ink, s, |s| - 2);
    assert RunAt(ink, s, 0);
    forall k | 0 <= k < |s| / 2
      ensures 0 <= Start(s, k) <= |ink| && End(s, k) <= |ink| && Start(s, k) < End(s, k)
    {
      assert RunAt(ink, s, 2 * k);
    }
  }

  lemma SplitsWellPaired(g: Grid, axis: Axis, small: bool)
    requires axis == Columns ==> ColumnsInRange(g)
    requires Inked(Profile(g, axis))
    ensures WellPaired(Splits(g, axis, small), |Profile(g, axis)|)
  {
    var ink := Profile(g, axis);
    RawSplitsRuns(ink);
    var raw := RawSplits(InkIndices(ink, |ink|));
    RunsWellPaired(ink, raw);
    if axis == Rows && !small {
      assert Start(raw, 0) == raw[0];
      MergedWellPaired(raw, |ink|);
    }
  }

  /** Merging keeps the pairs well formed. */
  lemma MergedWellPaired(raw: seq<int>, bound: int)
    requires Paired(raw) && Increasing(raw) && raw[0] >= 0 && raw[|raw| - 1] <= bound
    ensures WellPaired(Merged(raw), bound)
  {
    MergedShape(raw);
    var M := Merged(raw);
    forall k | 0 <= k < |M| / 2
      ensures 0 <= Start(M, k) <= bound && End(M, k) <= bound && (End(M, k) == -1 || Start(M, k) < End(M, k))
    {
      assert M[..|M| - 1][2 * k] == M[2 * k];
      if 2 * k + 1 < |M| - 1 {
        assert M[..|M| - 1][2 * k + 1] == M[2 * k + 1];
      }
    }
  }

  /** The `non_white` loop: every row (or column) holding a non-white pixel,
      in order. */
  method InkPositions(pixels: Grid, axis: Axis) returns (nonWhite: seq<nat>)
    requires axis == Columns ==> ColumnsInRange(pixels)
    ensures nonWhite == InkIndices(Profile(pixels, axis), |Profile(pixels, axis)|)
  {
    ghost var ink := Profile(pixels, axis);
    nonWhite := [];
    if axis == Rows {
      var row := 0;
      while row < |pixels|
        invariant 0 <= row <= |pixels|
        invariant nonWhite == InkIndices(ink, row)
      {
        var notWhite := 0;
        var col := 0;
        while col < |pixels[row]|
          invariant 0 <= col <= |pixels[row]|
          invariant notWhite > 0 <==> exists c :: 0 <= c < col && pixels[row][c] != White
        {
          if pixels[row][col] != White {
            notWhite := notWhite + 1;
          }
          col := col + 1;
        }
        if notWhite != 0 {
          nonWhite := nonWhite + [row];
        }
        row := row + 1;
      }
    } else {
      var col := 0;
      while col < |pixels[0]|
        invariant 0 <= col <= |pixels[0]|
        invariant nonWhite == InkIndices(ink, col)
      {
        var notWhite := 0;
        var row := 0;
        while row < |pixels|
          invariant 0 <= row <= |pixels|
          invariant notWhite > 0 <==> exists r :: 0 <= r < row && pixels[r][col] != White
        {
          if pixels[row][col] != White {
            notWhite := notWhite + 1;
          }
          row := row + 1;
        }
        if notWhite != 0 {
          nonWhite := nonWhite + [col];
        }
        col := col + 1;
      }
    }
  }

  /** The loop over `non_white` that opens a new pair at every gap. */
  method RunBounds(nonWhite: seq<nat>) returns (lineSplits: seq<int>)
    requires |nonWhite| > 0
    ensures lineSplits == RawSplits(nonWhite)
  {
    lineSplits := [nonWhite[0]];
    var i := 1;
    while i < |nonWhite|
      invariant 1 <= i <= |nonWhite|
      invariant lineSplits == Open(nonWhite, i)
    {
      if nonWhite[i] as int - 1 != nonWhite[i - 1] {
        lineSplits := lineSplits + [nonWhite[i - 1] + 1, nonWhite[i] as int];
      }
      i := i + 1;
    }
    lineSplits := lineSplits + [nonWhite[|nonWhite| - 1] + 1];
  }

  /** The averaging loop: `sum1 / counter1`, the mean of `end - start - 1`. */
  method MeanOfSpans(raw: seq<int>) returns (avg: real)
    requires Paired(raw)
    ensures avg == MeanSpan(raw)
  {
    var sum1 := 0;
    var counter1 := 0;
    var i := 0;
    while i < |raw|
      invariant 0 <= i <= |raw| && i % 2 == 0
      invariant counter1 == i / 2 && sum1 == SpanSum(raw, i / 2)
    {
      sum1 := sum1 + raw[i + 1] - raw[i] - 1;
      counter1 := counter1 + 1;
      i := i + 2;
    }
    avg := sum1 as real / counter1 as real;
  }

  /** One step of the marking loop: the test on the unmarked pair `i` is
      whether span `i / 2` is small. */
  lemma MarkStep(raw: seq<int>, i: nat, avg: real)
    requires Paired(raw) && i % 2 == 0 && i + 1 < |raw| && avg == MeanSpan(raw)
    ensures Marked(raw)[i] == raw[i]
    ensures Marked(raw)[i + 1] == if ((raw[i + 1] - raw[i] - 1) as real) < avg / 2.0 then -1 else raw[i + 1]
  {
    assert (i + 1) / 2 == i / 2 && Span(raw, i / 2) == raw[i + 1] - raw[i] - 1;
    SmallIff(raw, i / 2);
  }

  /** The averaging and marking loops: the end of every span whose
      `end - start - 1` is below half the mean becomes -1. */
  method MarkSmall(raw: seq<int>) returns (lineSplits: seq<int>)
    requires Paired(raw)
    ensures lineSplits == Marked(raw)
  {
    var avg := MeanOfSpans(raw);
    lineSplits := raw;
    var i := 0;
    while i < |lineSplits|
      invariant 0 <= i <= |lineSplits| && i % 2 == 0
      invariant MarkedUpTo(raw, lineSplits, i)
    {
      MarkAdvance(raw, lineSplits, i, avg);
      if ((lineSplits[i + 1] - lineSplits[i] - 1) as real) < avg / 2.0 {
        lineSplits := lineSplits[i + 1 := -1];
      }
      i := i + 2;
    }
    MarkedDone(raw, lineSplits);
  }

  /** The first `i` entries are marked, the rest still as in `raw`. */
  ghost predicate MarkedUpTo(raw: seq<int>, ls: seq<int>, i: nat)
    requires Paired(raw)
  {
    |ls| == |raw| &&
    (forall t :: 0 <= t < i && t < |raw| ==> ls[t] == Marked(raw)[t]) &&
    (forall t :: i <= t < |raw| ==> ls[t] == raw[t])
  }

  lemma MarkAdvance(raw: seq<int>, ls: seq<int>, i: nat, avg: real)
    requires Paired(raw) && i % 2 == 0 && i < |raw| && avg == MeanSpan(raw)
    requires MarkedUpTo(raw, ls, i)
    ensures i + 2 <= |ls| && (i + 2) % 2 == 0
    ensures var small := ((ls[i + 1] - ls[i] - 1) as real) < avg / 2.0;
            MarkedUpTo(raw, if small then ls[i + 1 := -1] else ls, i + 2)
  {
    MarkStep(raw, i, avg);
  }

  lemma MarkedDone(raw: seq<int>, ls: seq<int>)
    requires Paired(raw) && MarkedUpTo(raw, ls, |raw|)
    ensures ls == Marked(raw)
  {
  }

  /** The loop that rebuilds the list through `temp`, dropping every
      (end, start) pair whose end is -1. */
  method Compact(lineSplits: seq<int>) returns (temp: seq<int>)
    requires Paired(lineSplits)
    ensures temp == Compacted(lineSplits)
  {
    temp := [lineSplits[0]];
    var i := 1;
    while i < |lineSplits| - 1
      invariant 1 <= i <= |lineSplits| - 1 && i % 2 == 1
      invariant temp == [lineSplits[0]] + Kept(lineSplits, (i - 1) / 2)
    {
      if lineSplits[i] != -1 {
        temp := temp + [lineSplits[i], lineSplits[i + 1]];
      }
      i := i + 2;
    }
    assert 2 * (|lineSplits| / 2 - 1) + 1 == |lineSplits| - 1;
    temp := temp + [lineSplits[|lineSplits| - 1]];
  }

  /** `get_splits`: collect the inked rows or columns, turn their runs into
      (start, end) pairs, and, for lines of normal text, fuse small spans
      into the following ones. */
  method GetSplits(pixels: Grid, axis: Axis, small: bool) returns (splits: seq<int>)
    requires axis == Columns ==> ColumnsInRange(pixels)
    requires Inked(Profile(pixels, axis))
    ensures splits == Splits(pixels, axis, small)
  {
    var nonWhite := InkPositions(pixels, axis);
    RawSplitsRuns(Profile(pixels, axis));
    splits := RunBounds(nonWhite);
    if axis == Rows && !small {
      var marked := MarkSmall(splits);
      splits := Compact(marked);
    }
  }

  // ---------------------------------------------------------------------
  // split_lines and split_chars

  /** Rows `start .. end` of the grid, empty when `end` is -1. */
  function RowBlock(g: Grid, start: int, end: int): Grid
    requires 0 <= start <= |g| && end <= |g|
  {
    if start < end then g[start..end] else []
  }

  /** Columns `start .. end` of every row. */
  function ColBlock(g: Grid, start: int, end: int): (b: Grid)
    requires 0 <= start && forall r :: 0 <= r < |g| ==> start <= |g[r]| && end <= |g[r]|
    ensures |b| == |g|
  {
    seq(|g|, r requires 0 <= r < |g| => if start < end then g[r][start..end] else [])
  }

  /** A pixel-by-pixel copy of one row (`temp_row`). */
  method CopyRow(row: Row) returns (copy: Row)
    ensures copy == row
  {
    copy := [];
    var col := 0;
    while col < |row|
      invariant 0 <= col <= |row|
      invariant copy == row[..col]
    {
      copy := copy + [row[col]];
      col := col + 1;
    }
  }

  /** The copy of rows `start .. end` that `split_lines` makes for one line. */
  method CopyRows(pixels: Grid, start: int, end: int) returns (block: Grid)
    requires 0 <= start <= |pixels| && end <= |pixels|
    ensures block == RowBlock(pixels, start, end)
  {
    block := [];
    var row := start;
    while row < end
      invariant start <= row && (row <= end || row == start)
      invariant block == pixels[start..row]
    {
      var copy := CopyRow(pixels[row]);
      block := block + [copy];
      row := row + 1;
    }
  }

  /** The copy of columns `start .. end` that `split_chars` makes for one
      character. */
  method CopyColumns(pixels: Grid, start: int, end: int) returns (block: Grid)
    requires 0 <= start && forall r :: 0 <= r < |pixels| ==> start <= |pixels[r]| && end <= |pixels[r]|
    ensures block == ColBlock(pixels, start, end)
  {
    block := [];
    var row := 0;
    while row < |pixels|
      invariant 0 <= row <= |pixels|
      invariant |block| == row
      invariant forall r :: 0 <= r < row ==> block[r] == if start < end then pixels[r][start..end] else []
    {
      var tempRow: Row := [];
      var col := start;
      while col < end
        invariant start <= col && (col <= end || col == start)
        invariant tempRow == pixels[row][start..col]
      {
        tempRow := tempRow + [pixels[row][col]];
        col := col + 1;
      }
      block := block + [tempRow];
      row := row + 1;
    }
  }

  /** The loop of `split_lines` over the pairs of `line_splits`. */
  method CropLines(pixels: Grid, lineSplits: seq<int>) returns (lines: seq<Grid>)
    requires WellPaired(lineSplits, |pixels|)
    ensures |lines| == |lineSplits| / 2
    ensures forall k :: 0 <= k < |lines| ==> lines[k] == RowBlock(pixels, Start(lineSplits, k), End(lineSplits, k))
  {
    lines := [];
    var i := 0;
    while i < |lineSplits|
      invariant 0 <= i <= |lineSplits| && i % 2 == 0
      invariant |lines| == i / 2
      invariant forall k :: 0 <= k < |lines| ==> lines[k] == RowBlock(pixels, Start(lineSplits, k), End(lineSplits, k))
    {
      PairAt(lineSplits, |pixels|, i);
      var tempLine := CopyRows(pixels, lineSplits[i], lineSplits[i + 1]);
      lines := lines + [tempLine];
      i := i + 2;
    }
  }

  /** The pair at even position `i` of well-paired splits, as the loops over
      the pairs read it. */
  lemma PairAt(s: seq<int>, bound: int, i: nat)
    requires WellPaired(s, bound) && i % 2 == 0 && i < |s|
    ensures i + 2 <= |s| && (i + 2) % 2 == 0 && (i + 2) / 2 == i / 2 + 1
    ensures Start(s, i / 2) == s[i] && End(s, i / 2) == s[i + 1]
    ensures 0 <= s[i] <= bound && s[i + 1] <= bound
  {
    assert 2 * (i / 2) == i;
  }

  /** The loop of `split_chars` over the pairs of `line_splits`. */
  method CropChars(pixels: Grid, lineSplits: seq<int>) returns (chars: seq<Grid>)
    requires ColumnsInRange(pixels) && WellPaired(lineSplits, |pixels[0]|)
    ensures |chars| == |lineSplits| / 2
    ensures forall k :: 0 <= k < |chars| ==> chars[k] == ColBlock(pixels, Start(lineSplits, k), End(lineSplits, k))
  {
    chars := [];
    var i := 0;
    while i < |lineSplits|
      invariant 0 <= i <= |lineSplits| && i % 2 == 0
      invariant |chars| == i / 2
      invariant forall k :: 0 <= k < |chars| ==> chars[k] == ColBlock(pixels, Start(lineSplits, k), End(lineSplits, k))
    {
      PairAt(lineSplits, |pixels[0]|, i);
      var tempChar := CopyColumns(pixels, lineSplits[i], lineSplits[i + 1]);
      chars := chars + [tempChar];
      i := i + 2;
    }
  }

  /** `split_lines`: one block of rows per (start, end) pair of the row splits. */
  method SplitLines(pixels: Grid, small: bool) returns (lines: seq<Grid>)
    requires Inked(Profile(pixels, Rows))
    ensures var s := Splits(pixels, Rows, small);
            WellPaired(s, |pixels|) && |lines| == |s| / 2 &&
            forall k :: 0 <= k < |lines| ==> lines[k] == RowBlock(pixels, Start(s, k), End(s, k))
  {
    var lineSplits := GetSplits(pixels, Rows, small);
    SplitsWellPaired(pixels, Rows, small);
    lines := CropLines(pixels, lineSplits);
  }

  /** `split_chars`: one block of columns per (start, end) pair of the
      column splits. */
  method SplitChars(pixels: Grid) returns (chars: seq<Grid>)
    requires ColumnsInRange(pixels)
    requires Inked(Profile(pixels, Columns))
    ensures var s := Splits(pixels, Columns, false);
            WellPaired(s, |pixels[0]|) && |chars| == |s| / 2 &&
            forall k :: 0 <= k < |chars| ==> chars[k] == ColBlock(pixels, Start(s, k), End(s, k))
  {
    var lineSplits := GetSplits(pixels, Columns, false);
    SplitsWellPaired(pixels, Columns, false);
    chars := CropChars(pixels, lineSplits);
  }
}
