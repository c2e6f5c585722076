/** `find_hole`: where the inner outline of a glyph lies, from the extreme
    rows of its points. */
module Holes {
  import opened Outline

  /** The codes 0 (no hole), 1 (hole in the lower half), 2 (in the middle)
      and 3 (in the upper half). */
  datatype Hole = NoHole | Lower | Middle | Upper

  function Code(h: Hole): (n: nat)
    ensures n <= 3
  {
    match h
    case NoHole => 0
    case Lower => 1
    case Middle => 2
    case Upper => 3
  }

  /** `maxy` and `miny` after the first `n` points of the loop: a point above
      the running maximum raises it; only otherwise (`elif`) can it lower the
      running minimum, which starts unset at -1. */
  function Extremes(cs: seq<Point>, n: nat): (int, int)
    requires n <= |cs|
  {
    if n == 0 then (-1, -1)
    else
      var (maxy, miny) := Extremes(cs, n - 1);
      var y := cs[n - 1].y;
      if y > maxy then (y, miny)
      else if y < miny || miny == -1 then (maxy, y)
      else (maxy, miny)
  }

  /** `find_hole(out)`: no hole unless there are two outlines; otherwise by
      the extreme rows of the second outline, against row 100. */
  function HoleOf(out: seq<seq<Point>>): Hole {
    if |out| > 1 then
      var (maxy, miny) := Extremes(out[1], |out[1]|);
      if miny > 100 then Lower else if maxy < 100 then Upper else Middle
    else NoHole
  }

  /** The result is "no hole" exactly when fewer than two outlines are given. */
  lemma NoHoleIff(out: seq<seq<Point>>)
    ensures HoleOf(out) == NoHole <==> |out| < 2
  {
  }

  /** The largest row among the first `i` points, or -1 (a reference
      definition, independent of the loop). */
  function PrefixMax(cs: seq<Point>, i: nat): int
    requires i <= |cs|
  {
    if i == 0 then -1
    else if cs[i - 1].y > PrefixMax(cs, i - 1) then cs[i - 1].y
    else PrefixMax(cs, i - 1)
  }

  /** Point `i` does not raise the running maximum, so the `elif` looks at it. */
  predicate Unraised(cs: seq<Point>, i: nat)
    requires i < |cs|
  {
    cs[i].y <= PrefixMax(cs, i)
  }

  /** With rows at least 0, `maxy` is the largest row (or -1 when there is no
      point), and `miny` is the smallest row among the points that do not
      raise the maximum, or -1 when every point raises it. */
  lemma ExtremesSpec(cs: seq<Point>, n: nat)
    requires n <= |cs| && forall i :: 0 <= i < |cs| ==> cs[i].y >= 0
    ensures Extremes(cs, n).0 == PrefixMax(cs, n)
    ensures Extremes(cs, n).1 == -1 <==> forall i :: 0 <= i < n ==> !Unraised(cs, i)
    ensures forall i :: 0 <= i < n && Unraised(cs, i) ==> Extremes(cs, n).1 <= cs[i].y
    ensures Extremes(cs, n).1 != -1 ==> exists i :: 0 <= i < n && Unraised(cs, i) && Extremes(cs, n).1 == cs[i].y
  {
    ExtremesMax(cs, n);
    ExtremesMin(cs, n);
    assert LeastUnraised(cs, n, Extremes(cs, n).1);
  }

  lemma {:induction false} ExtremesMax(cs: seq<Point>, n: nat)
    requires n <= |cs|
    ensures Extremes(cs, n).0 == PrefixMax(cs, n)
  {
    if n > 0 {
      ExtremesMax(cs, n - 1);
    }
  }

  /** `m` is the smallest row among the first `n` points that do not raise
      the maximum, or -1 when there is none. */
  ghost predicate LeastUnraised(cs: seq<Point>, n: nat, m: int)
    requires n <= |cs|
  {
    (m == -1 <==> forall i :: 0 <= i < n ==> !Unraised(cs, i)) &&
    (forall i :: 0 <= i < n && Unraised(cs, i) ==> m <= cs[i].y) &&
    (m != -1 ==> exists i :: 0 <= i < n && Unraised(cs, i) && m == cs[i].y)
  }

  lemma {:induction false} ExtremesMin(cs: seq<Point>, n: nat)
    requires n <= |cs| && forall i :: 0 <= i < |cs| ==> cs[i].y >= 0
    ensures LeastUnraised(cs, n, Extremes(cs, n).1)
  {
    if n > 0 {
      ExtremesMin(cs, n - 1);
      ExtremesMax(cs, n - 1);
      var miny := Extremes(cs, n - 1).1;
      var y := cs[n - 1].y;
      if Unraised(cs, n - 1) {
        assert Extremes(cs, n).1 == if y < miny || miny == -1 then y else miny;
        LeastAdd(cs, n - 1, miny);
      } else {
        assert Extremes(cs, n).1 == miny;
        LeastSkip(cs, n - 1, miny);
      }
    }
  }

  /** A point that raises the maximum leaves the least unraised row alone. */
  lemma LeastSkip(cs: seq<Point>, n: nat, m: int)
    requires n < |cs| && LeastUnraised(cs, n, m) && !Unraised(cs, n)
    ensures LeastUnraised(cs, n + 1, m)
  {
    if m != -1 {
      var i :| 0 <= i < n && Unraised(cs, i) && m == cs[i].y;
      assert 0 <= i < n + 1;
    }
  }

  /** A point that does not raise the maximum may lower the least row. */
  lemma LeastAdd(cs: seq<Point>, n: nat, m: int)
    requires n < |cs| && LeastUnraised(cs, n, m) && Unraised(cs, n) && cs[n].y >= 0
    ensures LeastUnraised(cs, n + 1, if cs[n].y < m || m == -1 then cs[n].y else m)
  {
    var m' := if cs[n].y < m || m == -1 then cs[n].y else m;
    assert m' != -1;
    LeastAddBelow(cs, n, m);
    if m' == m {
      var i :| 0 <= i < n && Unraised(cs, i) && m == cs[i].y;
      assert 0 <= i < n + 1;
    } else {
      assert 0 <= n < n + 1 && Unraised(cs, n) && m' == cs[n].y;
    }
  }

  lemma LeastAddBelow(cs: seq<Point>, n: nat, m: int)
    requires n < |cs| && LeastUnraised(cs, n, m) && Unraised(cs, n)
    ensures forall i :: 0 <= i < n + 1 && Unraised(cs, i) ==>
              (if cs[n].y < m || m == -1 then cs[n].y else m) <= cs[i].y
  {
  }

  lemma {:induction false} PrefixMaxBounds(cs: seq<Point>, i: nat)
    requires i <= |cs|
    ensures forall j :: 0 <= j < i ==> cs[j].y <= PrefixMax(cs, i)
    ensures PrefixMax(cs, i) == -1 || exists j :: 0 <= j < i && cs[j].y == PrefixMax(cs, i)
  {
    if i > 0 {
      PrefixMaxBounds(cs, i - 1);
    }
  }

  /** With two outlines and rows at least 0, in terms of the rows `y` of the
      second outline: "upper" means every row is above 100; "lower" means at
      least one point does not raise the running maximum and all such points
      lie below row 100 (`y > 100`); "middle" means some row is at least 100
      and either no point fails to raise the maximum or one of those has a
      row of at most 100. */
  lemma HoleSpec(out: seq<seq<Point>>)
    requires |out| > 1 && forall i :: 0 <= i < |out[1]| ==> out[1][i].y >= 0
    ensures var cs := out[1];
            HoleOf(out) == Upper <==> forall i :: 0 <= i < |cs| ==> cs[i].y < 100
    ensures var cs := out[1];
            HoleOf(out) == Lower <==>
              (exists i :: 0 <= i < |cs| && Unraised(cs, i)) &&
              (forall i :: 0 <= i < |cs| && Unraised(cs, i) ==> cs[i].y > 100)
    ensures var cs := out[1];
            HoleOf(out) == Middle <==>
              (exists i :: 0 <= i < |cs| && cs[i].y >= 100) &&
              ((forall i :: 0 <= i < |cs| ==> !Unraised(cs, i)) ||
               (exists i :: 0 <= i < |cs| && Unraised(cs, i) && cs[i].y <= 100))
  {
    var cs := out[1];
    ExtremesSpec(cs, |cs|);
    PrefixMaxBounds(cs, |cs|);
  }

  /** The `elif` quirk: when the rows strictly increase along the outline,
      every point raises the maximum and `miny` stays -1, so the hole is
      never put in the lower half. */
  lemma RisingRows(cs: seq<Point>)
    requires forall i :: 0 <= i < |cs| ==> cs[i].y >= 0
    requires forall i :: 0 < i < |cs| ==> cs[i - 1].y < cs[i].y
    ensures Extremes(cs, |cs|).1 == -1
  {
    ExtremesSpec(cs, |cs|);
    forall i | 0 <= i < |cs|
      ensures !Unraised(cs, i)
    {
      RisingMax(cs, i);
    }
  }

  lemma {:induction false} RisingMax(cs: seq<Point>, i: nat)
    requires i <= |cs| && forall j :: 0 <= j < |cs| ==> cs[j].y >= 0
    requires forall j :: 0 < j < |cs| ==> cs[j - 1].y < cs[j].y
    ensures PrefixMax(cs, i) == if i == 0 then -1 else cs[i - 1].y
  {
    if i > 0 {
      RisingMax(cs, i - 1);
    }
  }

  /** The loop over the second outline. */
  method Bounds(cs: seq<Point>) returns (maxy: int, miny: int)
    ensures (maxy, miny) == Extremes(cs, |cs|)
  {
    maxy, miny := -1, -1;
    var i := 0;
    while i < |cs|
      invariant 0 <= i <= |cs|
      invariant (maxy, miny) == Extremes(cs, i)
    {
      if cs[i].y > maxy {
        maxy := cs[i].y;
      } else if cs[i].y < miny || miny == -1 {
        miny := cs[i].y;
      }
      i := i + 1;
    }
  }

  /** `find_hole`. */
  method FindHole(out: seq<seq<Point>>) returns (hole: Hole)
    ensures hole == HoleOf(out)
  {
    hole := NoHole;
    if |out| > 1 {
      var maxy, miny := Bounds(out[1]);
      if miny > 100 {
        hole := Lower;
      } else if maxy < 100 {
        hole := Upper;
      } else {
        hole := Middle;
      }
    }
  }
}
