/** `sample`: thinning an outline to the points at `n` evenly apportioned
    steps, each point kept once. */
module Sampling {
  import opened Apportionment
  import opened Outline

  /** The indices are valid positions of `coords` and never decrease. */
  ghost predicate Indices(coords: seq<Point>, ind: seq<nat>) {
    (forall i :: 0 <= i < |ind| ==> ind[i] < |coords|) &&
    (forall i :: 0 <= i < |ind| - 1 ==> ind[i] <= ind[i + 1])
  }

  /** The points at the first `k` indices, each kept at its first
      occurrence: the list `new_coords` of the original. */
  function Picked(coords: seq<Point>, ind: seq<nat>, k: nat): seq<Point>
    requires k <= |ind| && Indices(coords, ind)
  {
    if k == 0 then []
    else
      var r := Picked(coords, ind, k - 1);
      if coords[ind[k - 1]] in r then r else r + [coords[ind[k - 1]]]
  }

  /** The positions in `coords` of the picked points. */
  ghost function PickedAt(coords: seq<Point>, ind: seq<nat>, k: nat): seq<nat>
    requires k <= |ind| && Indices(coords, ind)
  {
    if k == 0 then []
    else
      var p := PickedAt(coords, ind, k - 1);
      if coords[ind[k - 1]] in Picked(coords, ind, k - 1) then p else p + [ind[k - 1]]
  }

  /** `r` lists the points of `coords` at the positions `p`. */
  ghost predicate At(r: seq<Point>, coords: seq<Point>, p: seq<nat>) {
    |p| == |r| && forall j :: 0 <= j < |p| ==> p[j] < |coords| && r[j] == coords[p[j]]
  }

  ghost predicate Rising(p: seq<nat>) {
    forall j, l :: 0 <= j < l < |p| ==> p[j] < p[l]
  }

  /** The picked points are distinct, and the point at each index used is
      among them. */
  lemma {:induction false} PickedCovers(coords: seq<Point>, ind: seq<nat>, k: nat)
    requires k <= |ind| && Indices(coords, ind)
    ensures NoDup(Picked(coords, ind, k))
    ensures forall i :: 0 <= i < k ==> coords[ind[i]] in Picked(coords, ind, k)
  {
    if k > 0 {
      PickedCovers(coords, ind, k - 1);
    }
  }

  /** Every picked point is the point at one of the first `k` indices. */
  lemma {:induction false} PickedFrom(coords: seq<Point>, ind: seq<nat>, k: nat)
    requires k <= |ind| && Indices(coords, ind)
    ensures forall j :: 0 <= j < |Picked(coords, ind, k)| ==>
              exists i :: 0 <= i < k && Picked(coords, ind, k)[j] == coords[ind[i]]
  {
    if k > 0 {
      PickedFrom(coords, ind, k - 1);
      var r, x := Picked(coords, ind, k - 1), coords[ind[k - 1]];
      var r' := Picked(coords, ind, k);
      assert r' == if x in r then r else r + [x];
      forall j | 0 <= j < |r'|
        ensures exists i :: 0 <= i < k && r'[j] == coords[ind[i]]
      {
        if j < |r| {
          var i :| 0 <= i < k - 1 && r[j] == coords[ind[i]];
          assert r'[j] == r[j];
        } else {
          assert r'[j] == x;
        }
      }
    } else {
      assert Picked(coords, ind, k) == [];
    }
  }

  /** The picked points sit in `coords` at strictly increasing positions, the
      last one at most the last index used. */
  lemma PickedSubsequence(coords: seq<Point>, ind: seq<nat>, k: nat)
    requires k <= |ind| && Indices(coords, ind)
    ensures At(Picked(coords, ind, k), coords, PickedAt(coords, ind, k))
    ensures Rising(PickedAt(coords, ind, k))
    ensures k > 0 ==> |PickedAt(coords, ind, k)| > 0 && PickedAt(coords, ind, k)[|PickedAt(coords, ind, k)| - 1] <= ind[k - 1]
  {
    PickedAtSpec(coords, ind, k);
    PickedRising(coords, ind, k);
  }

  lemma {:induction false} PickedAtSpec(coords: seq<Point>, ind: seq<nat>, k: nat)
    requires k <= |ind| && Indices(coords, ind)
    ensures At(Picked(coords, ind, k), coords, PickedAt(coords, ind, k))
  {
    if k > 0 {
      PickedAtSpec(coords, ind, k - 1);
      var r, p := Picked(coords, ind, k - 1), PickedAt(coords, ind, k - 1);
      var x := coords[ind[k - 1]];
      if x !in r {
        var r', p' := r + [x], p + [ind[k - 1]];
        assert Picked(coords, ind, k) == r' && PickedAt(coords, ind, k) == p';
        assert forall j :: 0 <= j < |p| ==> r'[j] == r[j] && p'[j] == p[j];
      }
    }
  }

  lemma {:induction false} PickedRising(coords: seq<Point>, ind: seq<nat>, k: nat)
    requires k <= |ind| && Indices(coords, ind)
    ensures Rising(PickedAt(coords, ind, k))
    ensures k > 0 ==> |PickedAt(coords, ind, k)| > 0 && PickedAt(coords, ind, k)[|PickedAt(coords, ind, k)| - 1] <= ind[k - 1]
  {
    if k > 0 {
      PickedRising(coords, ind, k - 1);
      PickedAtSpec(coords, ind, k - 1);
      var r, p := Picked(coords, ind, k - 1), PickedAt(coords, ind, k - 1);
      var x := coords[ind[k - 1]];
      if x !in r {
        assert PickedAt(coords, ind, k) == p + [ind[k - 1]];
        if k == 1 {
          assert p == [];
        } else {
          assert ind[k - 2] <= ind[k - 1];
        }
        NewPosition(coords, r, p, ind[k - 1]);
      } else {
        assert |r| > 0;
        assert PickedAt(coords, ind, k) == p;
        if k > 1 {
          assert p[|p| - 1] <= ind[k - 2] <= ind[k - 1];
        }
      }
    }
  }

  /** A point not yet picked, at a position not before the last one, extends
      the rising positions. */
  lemma NewPosition(coords: seq<Point>, r: seq<Point>, p: seq<nat>, v: nat)
    requires At(r, coords, p) && Rising(p) && v < |coords| && coords[v] !in r
    requires |p| > 0 ==> p[|p| - 1] <= v
    ensures Rising(p + [v])
  {
    if |p| > 0 {
      assert r[|p| - 1] == coords[p[|p| - 1]];
    }
    RisingSnoc(p, v);
  }

  lemma RisingSnoc(p: seq<nat>, v: nat)
    requires Rising(p) && (|p| > 0 ==> p[|p| - 1] < v)
    ensures Rising(p + [v])
  {
    var q := p + [v];
    forall j, l | 0 <= j < l < |q|
      ensures q[j] < q[l]
    {
      if l < |p| {
        assert q[j] == p[j] && q[l] == p[l];
      } else {
        assert q[j] == p[j] <= p[|p| - 1];
      }
    }
  }

  /** The picked points, when the points at the indices are all different:
      exactly those points, in order. */
  lemma {:induction false} PickedDistinct(coords: seq<Point>, ind: seq<nat>, k: nat)
    requires k <= |ind| && Indices(coords, ind)
    requires forall i, j :: 0 <= i < j < |ind| ==> coords[ind[i]] != coords[ind[j]]
    ensures Picked(coords, ind, k) == seq(k, i requires 0 <= i < k => coords[ind[i]])
  {
    if k > 0 {
      PickedDistinct(coords, ind, k - 1);
      var prev := seq(k - 1, i requires 0 <= i < k - 1 => coords[ind[i]]);
      var x := coords[ind[k - 1]];
      assert x !in prev by {
        forall i | 0 <= i < k - 1
          ensures prev[i] != x
        {
          assert prev[i] == coords[ind[i]];
        }
      }
      assert seq(k, i requires 0 <= i < k => coords[ind[i]]) == prev + [x];
    }
  }

  /** The sampling indices `apportion(len(coords) - 1, n)`. */
  function SampleIndices(coords: seq<Point>, n: nat): (ind: seq<nat>)
    requires |coords| > 0 && n > 0
    ensures Indices(coords, ind) && |ind| > 0 && ind[0] == 0
  {
    Apportioned(|coords| - 1, n)
  }

  /** `sample(coords, n)`. */
  function Sampled(coords: seq<Point>, n: nat): seq<Point>
    requires |coords| > 0 && n > 0
  {
    Picked(coords, SampleIndices(coords, n), |SampleIndices(coords, n)|)
  }

  /** The sample starts at the first point, repeats no point, is a
      subsequence of `coords` (its points sit there at strictly increasing
      positions), holds the point at every apportioned index and holds no
      other point. */
  lemma SampledSpec(coords: seq<Point>, n: nat)
    requires |coords| > 0 && n > 0
    ensures var r, ind := Sampled(coords, n), SampleIndices(coords, n);
            |r| > 0 && r[0] == coords[0] && NoDup(r) &&
            (forall k :: 0 <= k < |ind| ==> coords[ind[k]] in r) &&
            (forall j :: 0 <= j < |r| ==> exists k :: 0 <= k < |ind| && r[j] == coords[ind[k]])
    ensures var p := PickedAt(coords, SampleIndices(coords, n), |SampleIndices(coords, n)|);
            At(Sampled(coords, n), coords, p) && Rising(p)
  {
    var ind := SampleIndices(coords, n);
    PickedCovers(coords, ind, |ind|);
    PickedFrom(coords, ind, |ind|);
    PickedSubsequence(coords, ind, |ind|);
    PickedFirst(coords, ind, |ind|);
  }

  lemma {:induction false} PickedFirst(coords: seq<Point>, ind: seq<nat>, k: nat)
    requires 0 < k <= |ind| && Indices(coords, ind)
    ensures |Picked(coords, ind, k)| > 0 && Picked(coords, ind, k)[0] == coords[ind[0]]
  {
    if k > 1 {
      PickedFirst(coords, ind, k - 1);
    }
  }

  /** On an outline without repeated points and with more than `n` points,
      the sample has exactly `n + 1` points: those at the apportioned indices. */
  lemma SampledCount(coords: seq<Point>, n: nat)
    requires 0 < n < |coords| && NoDup(coords)
    ensures |Sampled(coords, n)| == n + 1
    ensures forall k :: 0 <= k <= n ==> Sampled(coords, n)[k] == coords[Apportioned(|coords| - 1, n)[k]]
  {
    var ind := SampleIndices(coords, n);
    ApportionedStrict(|coords| - 1, n);
    assert forall i, j :: 0 <= i < j < |ind| ==> ind[i] < ind[j] by {
      StrictlyIncreasing(ind);
    }
    PickedDistinct(coords, ind, |ind|);
  }

  lemma {:induction false} StrictlyIncreasing(s: seq<nat>)
    requires forall i :: 0 <= i < |s| - 1 ==> s[i] < s[i + 1]
    ensures forall i, j :: 0 <= i < j < |s| ==> s[i] < s[j]
  {
    if |s| > 1 {
      var t := s[..|s| - 1];
      assert forall i :: 0 <= i < |t| ==> t[i] == s[i];
      StrictlyIncreasing(t);
      forall i, j | 0 <= i < j < |s|
        ensures s[i] < s[j]
      {
        if j < |s| - 1 {
          assert t[i] < t[j];
        } else if i < j - 1 {
          assert t[i] < t[j - 1];
        }
      }
    }
  }

  /** `sample`: the apportioned indices, then the loop keeping each point once. */
  method Sample(coords: seq<Point>, n: nat) returns (newCoords: seq<Point>)
    requires |coords| > 0 && n > 0
    ensures newCoords == Sampled(coords, n)
  {
    var ind := Apportion(|coords| - 1, n);
    assert ind == SampleIndices(coords, n);
    newCoords := [];
    var k := 0;
    while k < |ind|
      invariant 0 <= k <= |ind|
      invariant newCoords == Picked(coords, ind, k)
    {
      if coords[ind[k]] !in newCoords {
        newCoords := newCoords + [coords[ind[k]]];
      }
      k := k + 1;
    }
  }
}
