/** `apportion(num, div)`: cut the range 0..num into `div` consecutive
    pieces whose sizes differ by at most one, the larger pieces last. */
module Apportionment {

  /** The size of step k: the first `div - num % div` steps have size
      `num / div`, the remaining `num % div` steps one more. */
  function Step(num: nat, div: nat, k: nat): nat
    requires div > 0
  {
    if k < div - num % div then num / div else num / div + 1
  }

  /** The k-th boundary of the partition: the sum of the first k steps. */
  function Boundary(num: nat, div: nat, k: nat): nat
    requires div > 0
  {
    if k == 0 then 0 else Boundary(num, div, k - 1) + Step(num, div, k - 1)
  }

  /** The list of boundaries `apportion` returns: `[0]` for `num == 0`,
      otherwise the `div + 1` boundaries 0 .. num. */
  function Apportioned(num: nat, div: nat): (b: seq<nat>)
    requires div > 0
    ensures num > 0 ==> |b| == div + 1 && b[0] == 0 && b[div] == num
    ensures num == 0 ==> b == [0]
    ensures forall k :: 0 <= k < |b| - 1 ==> b[k] <= b[k + 1]
    ensures forall k :: 0 <= k < |b| ==> b[k] <= num
  {
    if num == 0 then [0]
    else
      BoundaryTotal(num, div);
      BoundaryMonotone(num, div, div);
      seq(div + 1, k requires 0 <= k <= div => Boundary(num, div, k))
  }

  /** Closed form: k small steps, plus one for every large step taken. */
  lemma {:induction false} BoundaryClosed(num: nat, div: nat, k: nat)
    requires div > 0 && k <= div
    ensures Boundary(num, div, k)
         == k * (num / div) + (if k <= div - num % div then 0 else k - (div - num % div))
  {
    if k > 0 {
      BoundaryClosed(num, div, k - 1);
      var q := num / div;
      assert k * q == (k - 1) * q + q;
    }
  }

  lemma BoundaryTotal(num: nat, div: nat)
    requires div > 0
    ensures Boundary(num, div, div) == num
  {
    BoundaryClosed(num, div, div);
    var q, r := num / div, num % div;
    assert num == div * q + r;
  }

  lemma {:induction false} BoundaryMonotone(num: nat, div: nat, n: nat)
    requires div > 0
    ensures forall j, k :: 0 <= j <= k <= n ==> Boundary(num, div, j) <= Boundary(num, div, k)
  {
    if n > 0 {
      BoundaryMonotone(num, div, n - 1);
    }
  }

  /** The test of the loop body: the remaining count can be finished with
      large steps exactly from step `div - num % div` on. */
  lemma LargeTest(num: nat, div: nat, k: nat)
    requires div > 0 && k < div
    ensures ((div - k) * (num / div + 1) == num - Boundary(num, div, k)) <==> k >= div - num % div
  {
    var q, r := num / div, num % div;
    BoundaryClosed(num, div, k);
    DivMod(num, div);
    MulSplit(div, k, q);
    RestTest((div - k) * q, r, div, k);
  }

  lemma DivMod(num: nat, div: nat)
    requires div > 0
    ensures num == div * (num / div) + num % div && 0 <= num % div < div
  {
  }

  /** `div * q` split at `k`, and one more `div - k`. */
  lemma MulSplit(div: int, k: int, q: int)
    ensures div * q == k * q + (div - k) * q
    ensures (div - k) * (q + 1) == (div - k) * q + (div - k)
  {
  }

  /** The linear core of the test, with the product `(div - k) * q` as `m`. */
  lemma RestTest(m: int, r: int, div: int, k: int)
    requires 0 <= r < div && 0 <= k < div
    ensures (m + (div - k) == m + r - (if k <= div - r then 0 else k - (div - r))) <==> k >= div - r
  {
  }

  /** Before the last step the remaining count is still positive. */
  lemma BoundaryBelowTotal(num: nat, div: nat, k: nat)
    requires div > 0 && num > 0 && k < div
    ensures Boundary(num, div, k) < num
  {
    BoundaryTotal(num, div);
    BoundaryMonotone(num, div, div);
    assert Boundary(num, div, div) == Boundary(num, div, div - 1) + Step(num, div, div - 1);
    assert num / div == 0 ==> num % div > 0;
    assert Boundary(num, div, k) <= Boundary(num, div, div - 1);
  }

  /** `apportion`, as the loop of the original: take small steps until the
      rest can be finished with large ones. */
  method Apportion(num: nat, div: nat) returns (divs: seq<nat>)
    requires div > 0
    ensures divs == Apportioned(num, div)
  {
    var small := num / div;
    var large := num / div + 1;
    var rest: int := num;
    divs := [0];
    while rest != 0
      invariant 1 <= |divs| <= div + 1
      invariant forall k {:trigger divs[k]} :: 0 <= k < |divs| ==> divs[k] == Boundary(num, div, k)
      invariant rest == num - divs[|divs| - 1]
      invariant num == 0 ==> |divs| == 1
      decreases div + 1 - |divs|
    {
      var k := |divs| - 1;
      StepTest(num, div, k);
      assert Boundary(num, div, k + 1) == divs[k] + Step(num, div, k);
      if (div - k) * large == rest {
        divs := divs + [large + divs[|divs| - 1]];
        rest := rest - large;
      } else {
        divs := divs + [small + divs[|divs| - 1]];
        rest := rest - small;
      }
    }
    AllBoundaries(num, div, divs);
  }

  /** What one turn of the loop relies on: while something remains there is
      a step left, and the loop's test picks the step of the partition. */
  lemma StepTest(num: nat, div: nat, k: nat)
    requires div > 0 && k <= div && num - Boundary(num, div, k) != 0
    ensures k < div
    ensures ((div - k) * (num / div + 1) == num - Boundary(num, div, k)) <==> k >= div - num % div
  {
    BoundaryTotal(num, div);
    if k < div {
      LargeTest(num, div, k);
    }
  }

  /** Once nothing remains, the loop has produced every boundary. */
  lemma AllBoundaries(num: nat, div: nat, divs: seq<nat>)
    requires div > 0 && 1 <= |divs| <= div + 1
    requires forall k {:trigger divs[k]} :: 0 <= k < |divs| ==> divs[k] == Boundary(num, div, k)
    requires divs[|divs| - 1] == num
    requires num == 0 ==> |divs| == 1
    ensures divs == Apportioned(num, div)
  {
    if num > 0 {
      if |divs| - 1 < div {
        BoundaryBelowTotal(num, div, |divs| - 1);
      }
      var b := Apportioned(num, div);
      assert forall k :: 0 <= k < |divs| ==> divs[k] == b[k];
    }
  }

  /** With `0 < div <= num` the boundaries strictly increase from 0 to num. */
  lemma ApportionedStrict(num: nat, div: nat)
    requires 0 < div <= num
    ensures |Apportioned(num, div)| == div + 1
    ensures forall k :: 0 <= k < div ==> Apportioned(num, div)[k] < Apportioned(num, div)[k + 1]
  {
    var b := Apportioned(num, div);
    forall k | 0 <= k < div
      ensures b[k] < b[k + 1]
    {
      assert b[k + 1] == Boundary(num, div, k) + Step(num, div, k);
    }
  }

  /** The first `div - num % div` steps are `num / div` and the remaining
      `num % div` steps are `num / div + 1`. */
  lemma ApportionedSteps(num: nat, div: nat, k: nat)
    requires 0 < div && 0 < num && k < div
    ensures Apportioned(num, div)[k + 1] - Apportioned(num, div)[k]
         == if k < div - num % div then num / div else num / div + 1
  {
    assert Apportioned(num, div)[k + 1] == Boundary(num, div, k) + Step(num, div, k);
  }

  /** With fewer items than pieces, the first `div - num` steps are empty and
      every later step has size one. */
  lemma ApportionedFewItems(num: nat, div: nat)
    requires 0 < num < div
    ensures forall k :: 0 <= k <= div - num ==> Apportioned(num, div)[k] == 0
    ensures forall k :: div - num <= k <= div ==> Apportioned(num, div)[k] == k - (div - num)
  {
    forall k | 0 <= k <= div
      ensures Boundary(num, div, k) == if k <= div - num then 0 else k - (div - num)
    {
      BoundaryFew(num, div, k);
    }
  }

  lemma BoundaryFew(num: nat, div: nat, k: nat)
    requires 0 < num < div && k <= div
    ensures Boundary(num, div, k) == if k <= div - num then 0 else k - (div - num)
  {
    BoundaryClosed(num, div, k);
    SmallQuotient(num, div);
    assert k * (num / div) == 0;
  }

  lemma SmallQuotient(num: nat, div: nat)
    requires num < div
    ensures num / div == 0 && num % div == num
  {
  }

  lemma ApportionedExample()
    ensures Apportioned(10, 3) == [0, 3, 6, 10]
  {
    var b := Apportioned(10, 3);
    assert Step(10, 3, 0) == 3 && Step(10, 3, 1) == 3 && Step(10, 3, 2) == 4;
    assert b[1] == Boundary(10, 3, 1) == 3;
    assert b[2] == Boundary(10, 3, 2) == 6;
  }

  lemma MulAtLeast(x: nat, y: nat)
    requires y >= 1
    ensures x * y >= x
  {
    assert x * y == x * (y - 1) + x;
  }

  /** Euclidean division of an exact multiple. */
  lemma ExactQuotient(q: nat, div: nat)
    requires div > 0
    ensures (div * q) / div == q && (div * q) % div == 0
  {
    var a, b := (div * q) / div, (div * q) % div;
    assert div * q == div * a + b && 0 <= b < div;
    if a < q {
      MulAtLeast(div, q - a);
    }
  }

  /** An exact division gives equal steps: the boundaries are the multiples
      of the quotient. */
  lemma ApportionedExact(q: nat, div: nat)
    requires div > 0 && q > 0
    ensures |Apportioned(div * q, div)| == div + 1
    ensures forall k :: 0 <= k <= div ==> Apportioned(div * q, div)[k] == k * q
  {
    var num := div * q;
    ExactQuotient(q, div);
    forall k | 0 <= k <= div
      ensures Boundary(num, div, k) == k * q
    {
      BoundaryClosed(num, div, k);
    }
  }
}
