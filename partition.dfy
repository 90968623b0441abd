// The vertical strips of the image and the random partition of each strip
// into cells (the strip and split-point logic of `main`).
module Partition {
  import opened Pixels
  import opened Stats

  const PIXELS_PER_SLICE: nat := 50

  /** A draw of the f32 generator: a real in [0, 1). */
  type UnitSample = r: real | 0.0 <= r < 1.0

  /** Number of full 50-pixel strips; a narrower trailing strip is dropped. */
  function NumSlice(width: nat): (n: nat)
    ensures n * PIXELS_PER_SLICE <= width < (n + 1) * PIXELS_PER_SLICE
  {
    width / PIXELS_PER_SLICE
  }

  /** `random::<uint>() % 5 + 4`: between four and eight split points. */
  function NumSplit(draw: nat): (k: nat)
    ensures 4 <= k <= 8
  {
    draw % 5 + 4
  }

  /** Truncation of a non-negative value to an unsigned integer. */
  function Truncate(v: real): (n: nat)
    requires 0.0 <= v
    ensures n as real <= v < n as real + 1.0
  {
    v.Floor
  }

  /** Entry i of the samples followed by the two pushed boundary values 0 and 1. */
  function Fraction(samples: seq<UnitSample>, i: nat): (f: real)
    requires i < |samples| + 2
    ensures 0.0 <= f <= 1.0
  {
    if i < |samples| then samples[i] else if i == |samples| then 0.0 else 1.0
  }

  /** Entry i scaled by the height and truncated. */
  function ScaledPoint(samples: seq<UnitSample>, height: nat, i: nat): (n: nat)
    requires i < |samples| + 2
    ensures n <= height
    ensures i < |samples| && 0 < height ==> n < height
  {
    var f := Fraction(samples, i);
    var h := height as real;
    assert 0.0 <= (1.0 - f) * h;
    assert f * h == h - (1.0 - f) * h;
    assert i < |samples| && 0 < height ==> 0.0 < (1.0 - f) * h;
    Truncate(f * h)
  }

  /** The samples and the boundary values 0 and 1, each scaled by the
      height and truncated, in that order. */
  function ScaledPoints(samples: seq<UnitSample>, height: nat): (ps: seq<nat>)
    ensures |ps| == |samples| + 2
    ensures ps[|samples|] == 0 && ps[|samples| + 1] == height
    ensures forall i :: 0 <= i < |ps| ==> ps[i] <= height
    ensures forall i :: 0 <= i < |samples| ==> ps[i] < height || height == 0
  {
    seq(|samples| + 2, i requires 0 <= i < |samples| + 2 => ScaledPoint(samples, height, i))
  }

  predicate Sorted(s: seq<nat>) {
    forall i, j :: 0 <= i < j < |s| ==> s[i] <= s[j]
  }

  /** Insert v into a sequence before its first element not smaller than v. */
  function Insert(t: seq<nat>, v: nat): (r: seq<nat>)
    ensures |r| == |t| + 1
    ensures multiset(r) == multiset(t) + multiset{v}
  {
    if t == [] || v <= t[0] then [v] + t
    else
      assert t == [t[0]] + t[1..];
      [t[0]] + Insert(t[1..], v)
  }

  /** Insertion keeps a sorted sequence sorted. */
  lemma {:induction false} InsertSorted(t: seq<nat>, v: nat)
    requires Sorted(t)
    ensures Sorted(Insert(t, v))
  {
    if t != [] && v > t[0] {
      var rest := Insert(t[1..], v);
      InsertSorted(t[1..], v);
      // The head of the rest is either v or t[1], and both are at least t[0].
      assert t[0] <= rest[0] by {
        if t[1..] != [] && v > t[1] {
          assert rest[0] == t[1];
        }
      }
      var r := Insert(t, v);
      assert r == [t[0]] + rest;
      forall i, j | 0 <= i < j < |r|
        ensures r[i] <= r[j]
      {
        if i > 0 {
          assert r[i] == rest[i - 1] && r[j] == rest[j - 1];
        } else {
          assert r[j] == rest[j - 1] && rest[0] <= rest[j - 1];
        }
      }
    }
  }

  /** `randoms.sort()`: the library sort, modelled as an insertion sort. */
  method Sort(s: seq<nat>) returns (t: seq<nat>)
    ensures Sorted(t)
    ensures multiset(t) == multiset(s)
  {
    t := [];
    var i := 0;
    while i < |s|
      invariant i <= |s|
      invariant Sorted(t)
      invariant multiset(t) == multiset(s[..i])
    {
      assert s[..i + 1] == s[..i] + [s[i]];
      InsertSorted(t, s[i]);
      t := Insert(t, s[i]);
      i := i + 1;
    }
    assert s[..i] == s;
  }

  /** A partition of rows [0, height): it starts at 0, ends at height, never
      decreases and stays within [0, height]. */
  predicate IsPartition(p: seq<nat>, height: nat) {
    && |p| >= 2
    && p[0] == 0
    && p[|p| - 1] == height
    && Sorted(p)
    && forall i :: 0 <= i < |p| ==> p[i] <= height
  }

  /** A sorted rearrangement of points within [0, height] that include 0 and
      height is a partition of [0, height). */
  lemma {:induction false} SortedPointsPartition(p: seq<nat>, q: seq<nat>, height: nat)
    requires Sorted(p) && multiset(p) == multiset(q)
    requires |q| >= 2 && 0 in q && height in q
    requires forall i :: 0 <= i < |q| ==> q[i] <= height
    ensures IsPartition(p, height)
  {
    assert 0 in multiset(p) && height in multiset(p);
    var i0 :| 0 <= i0 < |p| && p[i0] == 0;
    var ih :| 0 <= ih < |p| && p[ih] == height;
    forall i | 0 <= i < |p|
      ensures p[i] <= height
    {
      assert p[i] in multiset(q);
    }
    assert |p| == |multiset(p)| == |multiset(q)| == |q|;
  }

  /** The split points of one strip: the scaled samples and the two
      boundaries, sorted. */
  method SplitPoints(samples: seq<UnitSample>, height: nat) returns (randoms: seq<nat>)
    ensures |randoms| == |samples| + 2
    ensures IsPartition(randoms, height)
    ensures multiset(randoms) == multiset(ScaledPoints(samples, height))
  {
    var points := ScaledPoints(samples, height);
    randoms := Sort(points);
    assert points[|samples|] == 0 && points[|samples| + 1] == height;
    assert 0 in points && height in points;
    SortedPointsPartition(randoms, points, height);
    assert |randoms| == |multiset(randoms)| == |multiset(points)| == |points|;
  }

  /** Row `row` lies in cell y of the partition: p[y] <= row < p[y + 1]. */
  predicate InCell(p: seq<nat>, y: nat, row: nat)
    requires y + 1 < |p|
  {
    p[y] <= row < p[y + 1]
  }

  /** The cell that holds a row between the first and last point. */
  function CellOf(p: seq<nat>, row: nat): (y: nat)
    requires |p| >= 2 && p[0] <= row < p[|p| - 1]
    ensures y + 1 < |p| && InCell(p, y, row)
  {
    if row < p[1] then 0 else 1 + CellOf(p[1..], row)
  }

  /** Every row of [0, height) lies in exactly one cell of a partition. */
  lemma CellUnique(p: seq<nat>, height: nat, row: nat, y: nat)
    requires IsPartition(p, height) && row < height
    requires y + 1 < |p| && InCell(p, y, row)
    ensures y == CellOf(p, row)
  {
  }

  /** The top-left corner of cell y of strip x: the strip's first column and
      the cell's first row. */
  function CellStart(x: nat, p: seq<nat>, y: nat): (c: (nat, nat))
    requires y < |p|
    ensures c.0 % PIXELS_PER_SLICE == 0 && c.0 / PIXELS_PER_SLICE == x
    ensures c.1 == p[y]
  {
    (x * PIXELS_PER_SLICE, p[y])
  }

  /** The exclusive bottom-right corner of cell y of strip x: one strip width
      right of its start, on the row where the next cell starts. */
  function CellEnd(x: nat, p: seq<nat>, y: nat): (e: (nat, nat))
    requires y + 1 < |p|
    ensures e.0 == CellStart(x, p, y).0 + PIXELS_PER_SLICE
    ensures e.1 == CellStart(x, p, y + 1).1
  {
    ((x + 1) * PIXELS_PER_SLICE, p[y + 1])
  }

  /** Every cell of a strip of the image lies inside the buffer. */
  lemma CellInBounds(width: nat, height: nat, p: seq<nat>, x: nat, y: nat)
    requires IsPartition(p, height) && x < NumSlice(width) && y + 1 < |p|
    ensures Fits(width, height, CellStart(x, p, y), CellEnd(x, p, y))
  {
    assert p[y] <= p[y + 1];
    MulMonotone(x + 1, NumSlice(width), PIXELS_PER_SLICE);
  }

  /** The cells of strip x tile it exactly: a pixel lies in the strip's
      columns and in rows [0, height) if and only if it lies in some cell,
      and then in exactly one. */
  lemma CellsTileStrip(width: nat, height: nat, p: seq<nat>, x: nat, px: nat, py: nat)
    requires IsPartition(p, height) && x < NumSlice(width)
    ensures (x * PIXELS_PER_SLICE <= px < (x + 1) * PIXELS_PER_SLICE && py < height)
      <==> exists y: nat :: y + 1 < |p| && InRect(CellStart(x, p, y), CellEnd(x, p, y), px, py)
    ensures forall y1: nat, y2: nat ::
              (&& y1 + 1 < |p| && y2 + 1 < |p|
               && InRect(CellStart(x, p, y1), CellEnd(x, p, y1), px, py)
               && InRect(CellStart(x, p, y2), CellEnd(x, p, y2), px, py)) ==> y1 == y2
  {
    if x * PIXELS_PER_SLICE <= px < (x + 1) * PIXELS_PER_SLICE && py < height {
      var y := CellOf(p, py);
      assert InRect(CellStart(x, p, y), CellEnd(x, p, y), px, py);
    }
    forall y1: nat, y2: nat | y1 + 1 < |p| && y2 + 1 < |p|
      && InRect(CellStart(x, p, y1), CellEnd(x, p, y1), px, py)
      && InRect(CellStart(x, p, y2), CellEnd(x, p, y2), px, py)
      ensures y1 == y2
    {
      assert p[y2 + 1] <= height;
      CellUnique(p, height, py, y1);
      CellUnique(p, height, py, y2);
    }
  }
}
