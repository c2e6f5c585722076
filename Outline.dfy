/** `outline` and `path`: the boundary pixels of a glyph, chained into
    outlines by nearest-neighbour steps, and the one or two longest outlines. */
module Outline {
  import opened Pixels

  /** A coordinate `[col, row]` of the original. */
  datatype Point = Point(x: int, y: int)

  datatype Option<T> = None | Some(value: T)

  // ---------------------------------------------------------------------
  // the white frame

  /** The pixel at row `r`, column `c`; white outside the grid. */
  function Shade(g: Grid, r: int, c: int): Pixel {
    if 0 <= r < |g| && 0 <= c < |g[r]| then g[r][c] else White
  }

  /** The grid inside a one-pixel white frame: padded pixel (r, c) is pixel
      (r - 1, c - 1) of the grid, and white on the frame. */
  function Padded(g: Grid): (p: Grid)
    requires |g| > 0 && IsRect(g)
    ensures |p| == |g| + 2
    ensures forall r :: 0 <= r < |p| ==> |p[r]| == |g[0]| + 2
    ensures forall r, c :: 0 <= r < |p| && 0 <= c < |p[r]| ==> p[r][c] == Shade(g, r - 1, c - 1)
  {
    var trow := seq(|g[0]| + 2, _ => White);
    [trow] + seq(|g|, r requires 0 <= r < |g| => [White] + g[r] + [White]) + [trow]
  }

  /** The loop building the framed grid. */
  method Pad(pixels: Grid) returns (newPixels: Grid)
    requires |pixels| > 0 && IsRect(pixels)
    ensures newPixels == Padded(pixels)
  {
    var trow := seq(|pixels[0]| + 2, _ => White);
    newPixels := [trow];
    var row := 0;
    while row < |pixels|
      invariant 0 <= row <= |pixels|
      invariant |newPixels| == row + 1
      invariant forall t :: 0 <= t <= row ==> newPixels[t] == Padded(pixels)[t]
    {
      var newRow := [White] + pixels[row] + [White];
      assert newRow == Padded(pixels)[row + 1];
      newPixels := newPixels + [newRow];
      row := row + 1;
    }
    newPixels := newPixels + [trow];
    assert newPixels[|pixels| + 1] == Padded(pixels)[|pixels| + 1];
  }

  // ---------------------------------------------------------------------
  // boundary pixels

  /** A grid of at least two rows whose rows all have the length of the
      first, as the framed grid is. */
  ghost predicate Framed(p: Grid) {
    |p| >= 2 && |p[0]| >= 2 && forall r :: 0 <= r < |p| ==> |p[r]| == |p[0]|
  }

  /** An inner pixel of the framed grid is on the boundary: it is black and
      its east, west, north, south, north-west or south-east neighbour is
      not. */
  predicate Edge(p: Grid, row: int, col: int)
    requires Framed(p) && 1 <= row < |p| - 1 && 1 <= col < |p[0]| - 1
  {
    p[row][col] == Black &&
    (p[row][col + 1] != Black || p[row][col - 1] != Black || p[row - 1][col] != Black ||
     p[row + 1][col] != Black || p[row - 1][col - 1] != Black || p[row + 1][col + 1] != Black)
  }

  /** Row-major order of points: by row, then by column. */
  predicate Before(a: Point, b: Point) {
    a.y < b.y || (a.y == b.y && a.x < b.x)
  }

  /** The points strictly increase in row-major order (so none repeats). */
  ghost predicate Ordered(s: seq<Point>) {
    forall i, j :: 0 <= i < j < |s| ==> Before(s[i], s[j])
  }

  /** The boundary pixels of row `row` in columns 1 .. n - 1, left to right. */
  function RowEdges(p: Grid, row: int, n: int): (s: seq<Point>)
    requires Framed(p) && 1 <= row < |p| - 1 && 1 <= n <= |p[0]| - 1
    ensures forall q :: q in s <==> q.y == row && 1 <= q.x < n && Edge(p, row, q.x)
    ensures Ordered(s)
    decreases n
  {
    if n == 1 then []
    else
      var s := RowEdges(p, row, n - 1) + (if Edge(p, row, n - 1) then [Point(n - 1, row)] else []);
      assert forall i :: 0 <= i < |s| ==> s[i].x < n;
      s
  }

  /** The boundary pixels of rows 1 .. m - 1 in row-major order: the list
      `out` of the original. */
  function Edges(p: Grid, m: int): (s: seq<Point>)
    requires Framed(p) && 1 <= m <= |p| - 1
    ensures forall q :: q in s <==> 1 <= q.y < m && 1 <= q.x < |p[0]| - 1 && Edge(p, q.y, q.x)
    ensures Ordered(s)
    decreases m
  {
    if m == 1 then []
    else
      var a, b := Edges(p, m - 1), RowEdges(p, m - 1, |p[0]| - 1);
      assert forall i :: 0 <= i < |a| ==> a[i].y < m - 1 by {
        forall i | 0 <= i < |a| ensures a[i].y < m - 1 {
          assert a[i] in a;
        }
      }
      assert forall j :: 0 <= j < |b| ==> b[j].y == m - 1 by {
        forall j | 0 <= j < |b| ensures b[j].y == m - 1 {
          assert b[j] in b;
        }
      }
      a + b
  }

  /** All boundary pixels of the framed grid. */
  function Boundary(p: Grid): seq<Point>
    requires Framed(p)
  {
    Edges(p, |p| - 1)
  }

  /** The row loop over the columns of one row. */
  method CollectRow(p: Grid, row: int) returns (out: seq<Point>)
    requires Framed(p) && 1 <= row < |p| - 1
    ensures out == RowEdges(p, row, |p[0]| - 1)
  {
    out := [];
    var col := 1;
    while col < |p[row]| - 1
      invariant 1 <= col <= |p[0]| - 1
      invariant out == RowEdges(p, row, col)
    {
      if p[row][col] == Black {
        if p[row][col + 1] != Black || p[row][col - 1] != Black || p[row - 1][col] != Black ||
           p[row + 1][col] != Black || p[row - 1][col - 1] != Black || p[row + 1][col + 1] != Black {
          out := out + [Point(col, row)];
        }
      }
      col := col + 1;
    }
  }

  /** The nested loops collecting `out`. */
  method CollectEdges(p: Grid) returns (out: seq<Point>)
    requires Framed(p)
    ensures out == Boundary(p)
  {
    out := [];
    var row := 1;
    while row < |p| - 1
      invariant 1 <= row <= |p| - 1
      invariant out == Edges(p, row)
    {
      var rowOut := CollectRow(p, row);
      out := out + rowOut;
      row := row + 1;
    }
  }

  /** A black pixel in column `c` with only black pixels above it up to row
      `r` of the framed grid: climbing up from it reaches a boundary pixel. */
  lemma {:induction false} Climb(p: Grid, r: int, c: int)
    requires Framed(p) && 1 <= r < |p| - 1 && 1 <= c < |p[0]| - 1
    requires p[r][c] == Black
    requires forall col :: 0 <= col < |p[0]| ==> p[0][col] != Black
    ensures exists q :: q in Boundary(p)
    decreases r
  {
    if p[r - 1][c] != Black {
      assert Point(c, r) in Boundary(p);
    } else {
      Climb(p, r - 1, c);
    }
  }

  /** A grid with a black pixel has a boundary pixel. */
  lemma SomeEdge(g: Grid)
    requires |g| > 0 && IsRect(g) && HasBlack(g)
    ensures Framed(Padded(g)) && Boundary(Padded(g)) != []
  {
    var p := Padded(g);
    var r, c :| 0 <= r < |g| && 0 <= c < |g[r]| && g[r][c] == Black;
    assert p[r + 1][c + 1] == Black;
    Climb(p, r + 1, c + 1);
  }

  // ---------------------------------------------------------------------
  // path

  /** The offsets `path` tries, in order: the ring at distance 1, the ring at
      distance 2, and the ring at distance 3 without (-2, 3) and (-1, 3). */
  const Offsets: seq<Point> := [
    Point(0, 1), Point(1, 1), Point(1, 0), Point(1, -1), Point(0, -1), Point(-1, -1), Point(-1, 0), Point(-1, 1),
    Point(0, 2), Point(1, 2), Point(2, 2), Point(2, 1), Point(2, 0), Point(2, -1), Point(2, -2), Point(1, -2),
    Point(0, -2), Point(-1, -2), Point(-2, -2), Point(-2, -1), Point(-2, 0), Point(-2, 1), Point(-2, 2), Point(-1, 2),
    Point(0, 3), Point(1, 3), Point(2, 3), Point(3, 3), Point(3, 2), Point(3, 1), Point(3, 0), Point(3, -1),
    Point(3, -2), Point(3, -3), Point(2, -3), Point(1, -3), Point(0, -3), Point(-1, -3), Point(-2, -3), Point(-3, -3),
    Point(-3, -2), Point(-3, -1), Point(-3, 0), Point(-3, 1), Point(-3, 2), Point(-3, 3)]

  function Shift(c: Point, d: Point): Point {
    Point(c.x + d.x, c.y + d.y)
  }

  /** The first of the offsets `offs[i..]` that leads from `c` to a point
      of `coords`. */
  function PathFrom(c: Point, coords: seq<Point>, offs: seq<Point>, i: nat): (r: Option<Point>)
    requires i <= |offs|
    ensures r.Some? ==> r.value in coords
    ensures r.Some? ==> exists k :: i <= k < |offs| && r.value == Shift(c, offs[k]) &&
                          forall m :: i <= m < k ==> Shift(c, offs[m]) !in coords
    ensures r.None? ==> forall m :: i <= m < |offs| ==> Shift(c, offs[m]) !in coords
    decreases |offs| - i
  {
    if i == |offs| then None
    else if Shift(c, offs[i]) in coords then Some(Shift(c, offs[i]))
    else PathFrom(c, coords, offs, i + 1)
  }

  /** `path(c, coords)`: the point of `coords` reached from `c` by the first
      offset of the table that reaches one, or none. */
  function Path(c: Point, coords: seq<Point>): (r: Option<Point>)
    ensures r.Some? ==> r.value in coords
    ensures r.Some? ==> exists k :: 0 <= k < |Offsets| && r.value == Shift(c, Offsets[k]) &&
                          forall m :: 0 <= m < k ==> Shift(c, Offsets[m]) !in coords
    ensures r.None? ==> forall m :: 0 <= m < |Offsets| ==> Shift(c, Offsets[m]) !in coords
  {
    PathFrom(c, coords, Offsets, 0)
  }

  /** `path` looks only at which points `coords` holds. */
  lemma {:induction false} PathFromMembers(c: Point, s1: seq<Point>, s2: seq<Point>, offs: seq<Point>, i: nat)
    requires i <= |offs|
    requires forall q :: q in s1 <==> q in s2
    ensures PathFrom(c, s1, offs, i) == PathFrom(c, s2, offs, i)
    decreases |offs| - i
  {
    if i < |offs| {
      PathFromMembers(c, s1, s2, offs, i + 1);
    }
  }

  lemma PathMembers(c: Point, s1: seq<Point>, s2: seq<Point>)
    requires multiset(s1) == multiset(s2)
    ensures Path(c, s1) == Path(c, s2)
  {
    assert forall q :: q in s1 <==> q in multiset(s1);
    assert forall q :: q in s2 <==> q in multiset(s2);
    PathFromMembers(c, s1, s2, Offsets, 0);
  }

  // ---------------------------------------------------------------------
  // chaining

  /** `list.remove`: the list without the first occurrence of `q`. */
  function Remove<T(==)>(s: seq<T>, q: T): (r: seq<T>)
    ensures q in s ==> |r| == |s| - 1
    ensures q !in s ==> r == s
    ensures multiset(r) == multiset(s) - multiset{q}
  {
    if s == [] then []
    else if s[0] == q then
      assert s == [s[0]] + s[1..];
      s[1..]
    else
      assert s == [s[0]] + s[1..];
      [s[0]] + Remove(s[1..], q)
  }

  /** `Remove` drops the first occurrence of `q` and keeps the other items
      in their order. */
  lemma {:induction false} RemoveFirst<T>(s: seq<T>, q: T)
    requires q in s
    ensures exists i :: 0 <= i < |s| && s[i] == q && q !in s[..i] && Remove(s, q) == s[..i] + s[i + 1..]
  {
    if s[0] == q {
      assert s[..0] == [] && s[1..] == s[0 + 1..];
    } else {
      assert s == [s[0]] + s[1..];
      RemoveFirst(s[1..], q);
      var j :| 0 <= j < |s[1..]| && s[1..][j] == q && q !in s[1..][..j] && Remove(s[1..], q) == s[1..][..j] + s[1..][j + 1..];
      RemoveLater(s, q, j);
    }
  }

  /** One step of `RemoveFirst`: a first occurrence at `j` in the tail is a
      first occurrence at `j + 1` in the list. */
  lemma RemoveLater<T>(s: seq<T>, q: T, j: nat)
    requires |s| > 0 && s[0] != q && j < |s| - 1
    requires s[1..][j] == q && q !in s[1..][..j] && Remove(s[1..], q) == s[1..][..j] + s[1..][j + 1..]
    ensures s[j + 1] == q && q !in s[..j + 1] && Remove(s, q) == s[..j + 1] + s[j + 1 + 1..]
  {
    var t := s[1..];
    assert Remove(s, q) == [s[0]] + Remove(t, q);
    PrefixCons(s, j);
    assert s[j + 1 + 1..] == t[j + 1..];
    assert [s[0]] + (t[..j] + t[j + 1..]) == ([s[0]] + t[..j]) + t[j + 1..];
  }

  lemma PrefixCons<T>(s: seq<T>, j: nat)
    requires j < |s|
    ensures s[..j + 1] == [s[0]] + s[1..][..j]
  {
    assert forall k :: 0 <= k <= j ==> s[..j + 1][k] == ([s[0]] + s[1..][..j])[k];
  }

  /** The inner loop of `outline`: extend `chain` from its last point with
      `path` while a point remains reachable, removing each point taken from
      `pool`; the finished chain and what is left of the pool. */
  function Trace(chain: seq<Point>, pool: seq<Point>): (t: (seq<Point>, seq<Point>))
    requires |chain| > 0
    ensures |chain| <= |t.0| && |t.1| <= |pool|
    decreases |pool|
  {
    match Path(chain[|chain| - 1], pool)
    case None => (chain, pool)
    case Some(q) => Trace(chain + [q], Remove(pool, q))
  }

  /** The outer loop of `outline`: start a chain at the first remaining
      point and trace it, until no point remains. */
  function Chains(out: seq<Point>): (cs: seq<seq<Point>>)
    ensures out == [] <==> cs == []
    ensures forall k :: 0 <= k < |cs| ==> |cs[k]| > 0
    decreases |out|
  {
    if out == [] then []
    else
      var t := Trace([out[0]], out[1..]);
      [t.0] + Chains(t.1)
  }

  function Flatten(cs: seq<seq<Point>>): seq<Point> {
    if cs == [] then [] else cs[0] + Flatten(cs[1..])
  }

  /** Each step of a chain from index `from` on goes to the point that `path`
      picks among the points not yet taken: the rest of the chain and
      `later`. */
  ghost predicate StepsFrom(t: seq<Point>, from: nat, later: seq<Point>) {
    forall j :: from <= j < |t| - 1 ==> Path(t[j], t[j + 1..] + later) == Some(t[j + 1])
  }

  lemma StepsExtend(t: seq<Point>, from: nat, later: seq<Point>)
    requires from < |t| - 1 && StepsFrom(t, from + 1, later)
    requires Path(t[from], t[from + 1..] + later) == Some(t[from + 1])
    ensures StepsFrom(t, from, later)
  {
  }

  /** What the trace of `chain` through `pool` promises about its result
      `t0`, `rest`. */
  ghost predicate Traced(chain: seq<Point>, pool: seq<Point>, t0: seq<Point>, rest: seq<Point>) {
    0 < |chain| <= |t0| && t0[..|chain|] == chain &&
    multiset(t0[|chain|..]) + multiset(rest) == multiset(pool) &&
    StepsFrom(t0, |chain| - 1, rest) &&
    Path(t0[|t0| - 1], rest) == None
  }

  /** Taking `q` out of the pool and putting it at the head of the new
      points keeps the points as they were. */
  lemma TakeOne(pool: seq<Point>, q: Point, t0: seq<Point>, n: nat, rest: seq<Point>)
    requires q in pool && n < |t0| && t0[n] == q
    requires multiset(t0[n + 1..]) + multiset(rest) == multiset(Remove(pool, q))
    ensures multiset(t0[n..]) + multiset(rest) == multiset(pool)
  {
    assert t0[n..] == [q] + t0[n + 1..];
    assert multiset(t0[n..]) == multiset{q} + multiset(t0[n + 1..]);
    assert q in multiset(pool);
    assert multiset{q} + (multiset(pool) - multiset{q}) == multiset(pool);
  }

  /** One step of the trace, given what the rest of it promises. */
  lemma TraceStepSpec(chain: seq<Point>, pool: seq<Point>, q: Point, t0: seq<Point>, rest: seq<Point>)
    requires |chain| > 0 && Path(chain[|chain| - 1], pool) == Some(q)
    requires Traced(chain + [q], Remove(pool, q), t0, rest)
    ensures Traced(chain, pool, t0, rest)
  {
    var chain' := chain + [q];
    var n := |chain|;
    assert t0[..n] == t0[..n + 1][..n] == chain;
    assert t0[n] == chain'[n] == q;
    TakeOne(pool, q, t0, n, rest);
    assert multiset(t0[n..] + rest) == multiset(pool);
    assert t0[n - 1] == chain[n - 1];
    PathMembers(chain[n - 1], t0[n..] + rest, pool);
    StepsExtend(t0, n - 1, rest);
  }

  /** A traced chain extends `chain`; its new points and the remaining pool
      are the old pool rearranged; every new step is the step `path` picks;
      and it ends where `path` finds nothing left. */
  lemma {:induction false} TraceSpec(chain: seq<Point>, pool: seq<Point>)
    requires |chain| > 0
    ensures Traced(chain, pool, Trace(chain, pool).0, Trace(chain, pool).1)
    decreases |pool|
  {
    var next := Path(chain[|chain| - 1], pool);
    if next.None? {
      assert Trace(chain, pool) == (chain, pool);
      assert chain[|chain|..] == [];
    } else {
      var q := next.value;
      TraceSpec(chain + [q], Remove(pool, q));
      var t := Trace(chain + [q], Remove(pool, q));
      assert Trace(chain, pool) == t;
      TraceStepSpec(chain, pool, q, t.0, t.1);
    }
  }

  lemma FlattenAppend(a: seq<seq<Point>>, b: seq<seq<Point>>)
    ensures Flatten(a + b) == Flatten(a) + Flatten(b)
  {
    if a != [] {
      assert (a + b)[1..] == a[1..] + b;
      FlattenAppend(a[1..], b);
    } else {
      assert a + b == b;
    }
  }

  /** The chains split the boundary points: together they hold each point of
      `out` as often as `out` does. */
  lemma {:induction false} ChainsPartition(out: seq<Point>)
    ensures multiset(Flatten(Chains(out))) == multiset(out)
    decreases |out|
  {
    if out != [] {
      var t := Trace([out[0]], out[1..]);
      TraceKeeps([out[0]], out[1..]);
      ChainsPartition(t.1);
      assert Chains(out) == [t.0] + Chains(t.1);
      PartitionStep(out, t.0, t.1, Chains(t.1));
    }
  }

  lemma PartitionStep(out: seq<Point>, t0: seq<Point>, t1: seq<Point>, rest: seq<seq<Point>>)
    requires out != []
    requires multiset(t0) + multiset(t1) == multiset([out[0]]) + multiset(out[1..])
    requires multiset(Flatten(rest)) == multiset(t1)
    ensures multiset(Flatten([t0] + rest)) == multiset(out)
  {
    assert Flatten([t0] + rest) == t0 + Flatten(rest) by {
      assert ([t0] + rest)[1..] == rest;
    }
    assert out == [out[0]] + out[1..];
  }

  /** A trace neither loses nor invents points. */
  lemma TraceKeeps(chain: seq<Point>, pool: seq<Point>)
    requires |chain| > 0
    ensures multiset(Trace(chain, pool).0) + multiset(Trace(chain, pool).1) == multiset(chain) + multiset(pool)
  {
    var t := Trace(chain, pool);
    TraceSpec(chain, pool);
    assert t.0 == chain + t.0[|chain|..];
  }

  /** Chain `k` of `cs` is traced greedily: every step goes to the point
      that `path` picks among the points not yet taken (the rest of this
      chain and all later chains), and the chain ends exactly where `path`
      finds none of them. */
  ghost predicate Greedy(cs: seq<seq<Point>>, k: nat)
    requires k < |cs| && |cs[k]| > 0
  {
    StepsFrom(cs[k], 0, Flatten(cs[k + 1..])) && Path(cs[k][|cs[k]| - 1], Flatten(cs[k + 1..])) == None
  }

  /** The first chain, with what is left after it. */
  lemma FirstChainSteps(out: seq<Point>)
    requires out != []
    ensures Greedy(Chains(out), 0)
  {
    var t := Trace([out[0]], out[1..]);
    var cs := Chains(out);
    assert cs == [t.0] + Chains(t.1);
    assert cs[1..] == Chains(t.1);
    TraceSpec([out[0]], out[1..]);
    ChainsPartition(t.1);
    var later := Flatten(Chains(t.1));
    forall j | 0 <= j < |t.0| - 1
      ensures Path(t.0[j], t.0[j + 1..] + later) == Some(t.0[j + 1])
    {
      assert multiset(t.0[j + 1..] + later) == multiset(t.0[j + 1..] + t.1);
      PathMembers(t.0[j], t.0[j + 1..] + later, t.0[j + 1..] + t.1);
    }
    PathMembers(t.0[|t.0| - 1], later, t.1);
  }

  lemma GreedyShift(cs: seq<seq<Point>>, c: seq<seq<Point>>, k: nat)
    requires 0 < k < |cs| && cs[1..] == c && forall i :: 0 <= i < |cs| ==> |cs[i]| > 0
    requires Greedy(c, k - 1)
    ensures Greedy(cs, k)
  {
    assert cs[k] == c[k - 1];
    assert cs[k + 1..] == c[k..];
  }

  /** Every chain is traced greedily. */
  lemma {:induction false} ChainsSteps(out: seq<Point>, k: nat)
    requires k < |Chains(out)|
    ensures Greedy(Chains(out), k)
    decreases |out|
  {
    if k == 0 {
      FirstChainSteps(out);
    } else {
      var t := Trace([out[0]], out[1..]);
      var cs := Chains(out);
      assert cs == [t.0] + Chains(t.1);
      ChainsSteps(t.1, k - 1);
      GreedyShift(cs, Chains(t.1), k);
    }
  }

  /** No point occurs twice. */
  ghost predicate NoDup(s: seq<Point>) {
    forall i, j :: 0 <= i < j < |s| ==> s[i] != s[j]
  }

  lemma {:induction false} NoDupCount(b: seq<Point>)
    requires NoDup(b)
    ensures forall x :: multiset(b)[x] <= 1
  {
    if b != [] {
      assert b == [b[0]] + b[1..];
      NoDupCount(b[1..]);
      assert b[0] !in b[1..];
    }
  }

  lemma CountNoDup(a: seq<Point>)
    requires forall x :: multiset(a)[x] <= 1
    ensures NoDup(a)
  {
    forall i, j | 0 <= i < j < |a|
      ensures a[i] != a[j]
    {
      assert a == a[..j] + a[j..];
      assert a[i] in a[..j] && a[j] in a[j..];
      assert multiset(a)[a[j]] == multiset(a[..j])[a[j]] + multiset(a[j..])[a[j]];
    }
  }

  /** The boundary points are distinct, and so the chains are disjoint: no
      point lies on two chains, or twice on one. */
  lemma ChainsDisjoint(p: Grid)
    requires Framed(p)
    ensures NoDup(Boundary(p))
    ensures NoDup(Flatten(Chains(Boundary(p))))
  {
    var out := Boundary(p);
    assert NoDup(out) by {
      forall i, j | 0 <= i < j < |out| ensures out[i] != out[j] {
        assert Before(out[i], out[j]);
      }
    }
    NoDupCount(out);
    ChainsPartition(out);
    CountNoDup(Flatten(Chains(out)));
  }

  // ---------------------------------------------------------------------
  // the longest outlines

  /** The index of the first longest among the first `n` outlines (a later
      one replaces it only when strictly longer). */
  function LongestFrom(ls: seq<seq<Point>>, n: nat): (k: nat)
    requires 0 < n <= |ls|
    ensures k < n
    ensures forall j :: 0 <= j < n ==> |ls[j]| <= |ls[k]|
    ensures forall j :: 0 <= j < k ==> |ls[j]| < |ls[k]|
  {
    if n == 1 then 0
    else
      var k := LongestFrom(ls, n - 1);
      if |ls[n - 1]| > |ls[k]| then n - 1 else k
  }

  function Longest(ls: seq<seq<Point>>): seq<Point>
    requires |ls| > 0
  {
    ls[LongestFrom(ls, |ls|)]
  }

  /** The outlines kept: the first longest one, and the longest of the
      others when it is more than a tenth as long. */
  function Selected(ls: seq<seq<Point>>): seq<seq<Point>>
    requires |ls| > 0
  {
    var first := Longest(ls);
    var others := Remove(ls, first);
    if others != [] && 10 * |Longest(others)| > |first| then [first, Longest(others)] else [first]
  }

  /** The selection keeps one or two outlines. The first is the first of the
      longest; a second is kept exactly when another outline remains and the
      longest of those is more than a tenth as long as the first, and then it
      is the first longest of the others. */
  lemma SelectedSpec(ls: seq<seq<Point>>)
    requires |ls| > 0
    ensures var r, others := Selected(ls), Remove(ls, Longest(ls));
            1 <= |r| <= 2 &&
            r[0] == Longest(ls) &&
            (exists k :: 0 <= k < |ls| && ls[k] == r[0] && forall j :: 0 <= j < k ==> |ls[j]| < |r[0]|) &&
            (forall j :: 0 <= j < |ls| ==> |ls[j]| <= |r[0]|) &&
            |others| == |ls| - 1 &&
            (|r| == 2 <==> others != [] && 10 * |Longest(others)| > |r[0]|) &&
            (|r| == 2 ==> r[1] == Longest(others) && forall j :: 0 <= j < |others| ==> |others[j]| <= |r[1]|)
  {
    assert ls[LongestFrom(ls, |ls|)] in ls;
  }

  /** The original's `len2 > len1 / 10` on exact numbers. */
  lemma TenthIff(len1: nat, len2: nat)
    ensures (len2 as real > len1 as real / 10.0) <==> 10 * len2 > len1
  {
  }

  /** The outlines of a grid with a black pixel: the chains of the boundary
      points of the framed grid, and of them the one or two kept. */
  function Outlines(g: Grid): seq<seq<Point>>
    requires |g| > 0 && IsRect(g) && HasBlack(g)
  {
    SomeEdge(g);
    Selected(Chains(Boundary(Padded(g))))
  }

  /** The chaining loops of `outline`. */
  method ChainAll(out0: seq<Point>) returns (outlines: seq<seq<Point>>)
    ensures outlines == Chains(out0)
  {
    var out := out0;
    outlines := [];
    while out != []
      invariant outlines + Chains(out) == Chains(out0)
      decreases |out|
    {
      var tpath := [out[0]];
      out := out[1..];
      ghost var chain0, pool0 := tpath, out;
      var temp := Path(tpath[|tpath| - 1], out);
      while temp != None
        invariant |tpath| > 0 && |out| <= |pool0|
        invariant Trace(tpath, out) == Trace(chain0, pool0)
        invariant temp == Path(tpath[|tpath| - 1], out)
        decreases |out|
      {
        tpath := tpath + [temp.value];
        out := Remove(out, temp.value);
        temp := Path(tpath[|tpath| - 1], out);
      }
      assert Trace(chain0, pool0) == (tpath, out);
      outlines := outlines + [tpath];
    }
  }

  /** The loop finding the first longest outline. */
  method FindLongest(outlines: seq<seq<Point>>) returns (best: seq<Point>)
    requires |outlines| > 0
    ensures best == Longest(outlines)
  {
    var bestLen := -1;
    best := [];
    var i := 0;
    while i < |outlines|
      invariant 0 <= i <= |outlines|
      invariant i == 0 ==> bestLen == -1
      invariant i > 0 ==> best == outlines[LongestFrom(outlines, i)] && bestLen == |best|
    {
      if |outlines[i]| > bestLen {
        best, bestLen := outlines[i], |outlines[i]|;
      }
      i := i + 1;
    }
  }

  /** The selection loops of `outline`. */
  method SelectShapes(outlines: seq<seq<Point>>) returns (twoShapes: seq<seq<Point>>)
    requires |outlines| > 0
    ensures twoShapes == Selected(outlines)
  {
    var first := FindLongest(outlines);
    twoShapes := [first];
    var others := Remove(outlines, first);
    if others != [] {
      var second := FindLongest(others);
      TenthIff(|first|, |second|);
      if |second| as real > |twoShapes[0]| as real / 10.0 {
        twoShapes := twoShapes + [second];
      }
    }
  }

  /** `outline`: frame the grid, collect its boundary pixels, chain them, and
      keep the longest outline and possibly the next longest. */
  method GetOutline(pixels: Grid) returns (twoShapes: seq<seq<Point>>)
    requires |pixels| > 0 && IsRect(pixels) && HasBlack(pixels)
    ensures twoShapes == Outlines(pixels)
  {
    var p := Pad(pixels);
    var out := CollectEdges(p);
    var outlines := ChainAll(out);
    SomeEdge(pixels);
    twoShapes := SelectShapes(outlines);
  }
}
