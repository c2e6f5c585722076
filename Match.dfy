/** The discrete parts of `closest_match`: the space and noise prefilter,
    the squared-difference score of the "squares" method, and the choice of
    the first best-scoring library character. */
module Match {
  import opened Pixels

  /** What the prefilter decides for one glyph: a space, a speck to drop, or
      an image to compare against the library. */
  datatype Verdict = SpaceChar | Ignored | Compare(pixels: Grid)

  /** The prefilter: a space gives " ", an image whose area is below a tenth
      of the average area gives "", any other image goes on to matching.
      An image must have a first row for its area to be taken. */
  function Prefilter(glyph: Glyph, avg: real): (v: Verdict)
    requires glyph.Image? ==> |glyph.px| > 0
    ensures v == SpaceChar <==> glyph == Space
    ensures v == Ignored <==> glyph.Image? && ((|glyph.px| * |glyph.px[0]|) as real) < avg / 10.0
    ensures v.Compare? ==> v.pixels == glyph.px
  {
    match glyph
    case Space => SpaceChar
    case Image(px) =>
      if ((|px| * |px[0]|) as real) < avg / 10.0 then Ignored else Compare(px)
  }

  /** The text the prefilter answers with, when it answers. */
  function Answer(v: Verdict): string
    requires !v.Compare?
  {
    if v == SpaceChar then " " else ""
  }

  /** An image is dropped exactly when ten times its area is below the
      average area. */
  lemma IgnoredIff(px: Grid, avg: real)
    requires |px| > 0
    ensures Prefilter(Image(px), avg) == Ignored <==> (10 * |px| * |px[0]|) as real < avg
  {
    var area := (|px| * |px[0]|) as real;
    assert area < avg / 10.0 <==> 10.0 * area < avg;
  }

  /** With a non-positive average no image is dropped. */
  lemma NothingIgnored(px: Grid, avg: real)
    requires |px| > 0 && avg <= 0.0
    ensures Prefilter(Image(px), avg) == Compare(px)
  {
  }

  /** The score of the "squares" method: the sum of the squared differences
      of the first `n` entries. */
  function Score(a: seq<real>, b: seq<real>, n: nat): real
    requires n <= |a| && n <= |b|
  {
    if n == 0 then 0.0 else Score(a, b, n - 1) + (a[n - 1] - b[n - 1]) * (a[n - 1] - b[n - 1])
  }

  /** The score is symmetric in its two arguments. */
  lemma {:induction false} ScoreSymmetric(a: seq<real>, b: seq<real>, n: nat)
    requires n <= |a| && n <= |b|
    ensures Score(a, b, n) == Score(b, a, n)
  {
    if n > 0 {
      ScoreSymmetric(a, b, n - 1);
      assert (a[n - 1] - b[n - 1]) * (a[n - 1] - b[n - 1]) == (b[n - 1] - a[n - 1]) * (b[n - 1] - a[n - 1]);
    }
  }

  /** The score is never negative. */
  lemma {:induction false} ScoreNonNeg(a: seq<real>, b: seq<real>, n: nat)
    requires n <= |a| && n <= |b|
    ensures Score(a, b, n) >= 0.0
  {
    if n > 0 {
      ScoreNonNeg(a, b, n - 1);
      var d := a[n - 1] - b[n - 1];
      assert d * d >= 0.0;
    }
  }

  /** `scores.index(min(scores))`, as a reference definition: the first
      position of the smallest score among the first `n`. */
  function FirstMin(scores: seq<real>, n: nat): (k: nat)
    requires 0 < n <= |scores|
    ensures k < n
  {
    if n == 1 then 0
    else
      var k := FirstMin(scores, n - 1);
      if scores[n - 1] < scores[k] then n - 1 else k
  }

  /** The chosen position holds a smallest score, and every earlier score is
      larger: ties go to the first. */
  lemma {:induction false} FirstMinSpec(scores: seq<real>, n: nat)
    requires 0 < n <= |scores|
    ensures forall i :: 0 <= i < n ==> scores[FirstMin(scores, n)] <= scores[i]
    ensures forall i :: 0 <= i < FirstMin(scores, n) ==> scores[FirstMin(scores, n)] < scores[i]
  {
    if n > 1 {
      FirstMinSpec(scores, n - 1);
    }
  }

  /** Only one position is the first smallest one. */
  lemma FirstMinUnique(scores: seq<real>, k: nat)
    requires k < |scores|
    requires forall i :: 0 <= i < |scores| ==> scores[k] <= scores[i]
    requires forall i :: 0 <= i < k ==> scores[k] < scores[i]
    ensures FirstMin(scores, |scores|) == k
  {
    FirstMinSpec(scores, |scores|);
  }

  /** The scores of the "squares" method against every library character. */
  function Scores(squares: seq<real>, lib: seq<(char, seq<real>)>): (r: seq<real>)
    requires forall j :: 0 <= j < |lib| ==> |squares| <= |lib[j].1|
    ensures |r| == |lib|
    ensures forall j :: 0 <= j < |lib| ==> r[j] == Score(squares, lib[j].1, |squares|)
  {
    seq(|lib|, j requires 0 <= j < |lib| => Score(squares, lib[j].1, |squares|))
  }

  /** The "squares" branch given the squares of the unknown glyph: the
      library character of the first smallest score. */
  function Closest(squares: seq<real>, lib: seq<(char, seq<real>)>): char
    requires |lib| > 0 && forall j :: 0 <= j < |lib| ==> |squares| <= |lib[j].1|
  {
    lib[FirstMin(Scores(squares, lib), |lib|)].0
  }

  /** The chosen character has the smallest score, and every library
      character before it scores more. */
  lemma ClosestSpec(squares: seq<real>, lib: seq<(char, seq<real>)>)
    requires |lib| > 0 && forall j :: 0 <= j < |lib| ==> |squares| <= |lib[j].1|
    ensures exists k :: 0 <= k < |lib| && Closest(squares, lib) == lib[k].0 &&
              (forall j :: 0 <= j < |lib| ==> Score(squares, lib[k].1, |squares|) <= Score(squares, lib[j].1, |squares|)) &&
              (forall j :: 0 <= j < k ==> Score(squares, lib[k].1, |squares|) < Score(squares, lib[j].1, |squares|))
  {
    var scores := Scores(squares, lib);
    FirstMinSpec(scores, |lib|);
    var k := FirstMin(scores, |lib|);
    assert Closest(squares, lib) == lib[k].0;
  }

  /** The score loop for one library character. */
  method ScoreOf(squares: seq<real>, ref: seq<real>) returns (diff: real)
    requires |squares| <= |ref|
    ensures diff == Score(squares, ref, |squares|)
  {
    diff := 0.0;
    var i := 0;
    while i < |squares|
      invariant 0 <= i <= |squares|
      invariant diff == Score(squares, ref, i)
    {
      diff := diff + (squares[i] - ref[i]) * (squares[i] - ref[i]);
      i := i + 1;
    }
  }

  /** `scores.index(min(scores))`: one pass for the minimum, one for its
      first position. */
  method IndexOfMin(scores: seq<real>) returns (k: nat)
    requires |scores| > 0
    ensures k == FirstMin(scores, |scores|)
  {
    var m := scores[0];
    var i := 1;
    while i < |scores|
      invariant 1 <= i <= |scores|
      invariant m in scores[..i]
      invariant forall j :: 0 <= j < i ==> m <= scores[j]
    {
      if scores[i] < m {
        m := scores[i];
      }
      i := i + 1;
    }
    k := 0;
    while scores[k] != m
      invariant 0 <= k < |scores|
      invariant m in scores[k..]
      invariant forall j :: 0 <= j < k ==> scores[j] != m
      decreases |scores| - k
    {
      k := k + 1;
    }
    FirstMinUnique(scores, k);
  }

  /** The "squares" branch of `closest_match` after the prefilter, given the
      glyph's squares: score every library character, then take the first
      best one. */
  method ClosestMatch(squares: seq<real>, lib: seq<(char, seq<real>)>) returns (c: char)
    requires |lib| > 0 && forall j :: 0 <= j < |lib| ==> |squares| <= |lib[j].1|
    ensures c == Closest(squares, lib)
  {
    var chars: seq<char> := [];
    var scores: seq<real> := [];
    var j := 0;
    while j < |lib|
      invariant 0 <= j <= |lib|
      invariant chars == seq(j, i requires 0 <= i < j => lib[i].0)
      invariant scores == Scores(squares, lib)[..j]
    {
      var diff := ScoreOf(squares, lib[j].1);
      chars := chars + [lib[j].0];
      scores := scores + [diff];
      j := j + 1;
    }
    assert scores == Scores(squares, lib);
    var k := IndexOfMin(scores);
    c := chars[k];
  }
}
