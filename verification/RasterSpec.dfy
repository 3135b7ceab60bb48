/**
 * What filling a set of directed segments means (src/gfx/blend.cpp): a point is
 * inside by its winding number, and a pixel's coverage is the measured length
 * of the inside along sixteen sub-scanlines. Float is modelled as real.
 */
module RasterSpec {
  datatype Seg = Seg(x0: real, y0: real, x1: real, y1: real)

  datatype Rule = NonZero | EvenOdd

  /** How far to the right crossings are taken into account. */
  datatype Limit = Upto(x: real) | Everywhere

  predicate Reaches(x: real, limit: Limit) { limit.Everywhere? || x <= limit.x }

  /** Half-open in y, so that an end shared by two segments counts once. */
  function Sign(s: Seg, sy: real): int
  {
    if s.y0 <= sy < s.y1 then 1 else if s.y1 <= sy < s.y0 then -1 else 0
  }

  function CrossX(s: Seg, sy: real): real
    requires Sign(s, sy) != 0
  {
    s.x0 + (sy - s.y0) * ((s.x1 - s.x0) / (s.y1 - s.y0))
  }

  function Turn(s: Seg, sy: real, limit: Limit): int
  {
    if Sign(s, sy) != 0 && Reaches(CrossX(s, sy), limit) then Sign(s, sy) else 0
  }

  /** The signed number of segments crossing the line at `sy` up to the limit. */
  function Winding(segs: seq<Seg>, sy: real, limit: Limit): int
  {
    if segs == [] then 0
    else Winding(segs[..|segs| - 1], sy, limit) + Turn(segs[|segs| - 1], sy, limit)
  }

  predicate Filled(rule: Rule, wind: int) { if rule.EvenOdd? then wind % 2 == 1 else wind != 0 }

  predicate Inside(segs: seq<Seg>, rule: Rule, sy: real, x: real)
  {
    Filled(rule, Winding(segs, sy, Upto(x)))
  }

  /** Signed crossings cancel on every line: true of closed polygons. */
  ghost predicate Balanced(segs: seq<Seg>)
  {
    forall sy: real :: Winding(segs, sy, Everywhere) == 0
  }

  // ---- Length of the inside ----

  predicate Partition(p: seq<real>, l: real, r: real)
  {
    && |p| >= 1 && p[0] == l && p[|p| - 1] == r
    && forall i, j :: 0 <= i < j < |p| ==> p[i] <= p[j]
  }

  /** Between two neighbouring marks everything is inside, or nothing is. */
  ghost predicate Steps(segs: seq<Seg>, rule: Rule, sy: real, p: seq<real>, v: seq<bool>)
  {
    && |p| == |v| + 1
    && forall j, x: real :: 0 <= j < |v| && p[j] < x < p[j + 1] ==> Inside(segs, rule, sy, x) == v[j]
  }

  function Piece(inside: bool, a: real, b: real): real { if inside then b - a else 0.0 }

  function Total(p: seq<real>, v: seq<bool>): real
    requires |p| == |v| + 1
  {
    var n := |v|;
    if n == 0 then 0.0 else Total(p[..n], v[..n - 1]) + Piece(v[n - 1], p[n - 1], p[n])
  }

  /** `p` splits the window into pieces that are inside or outside as `v` says, and `m` is the inside's length. */
  ghost predicate Measures(segs: seq<Seg>, rule: Rule, sy: real, l: real, r: real, m: real, p: seq<real>, v: seq<bool>)
  {
    Partition(p, l, r) && Steps(segs, rule, sy, p, v) && Total(p, v) == m
  }

  ghost predicate IsLength(segs: seq<Seg>, rule: Rule, sy: real, l: real, r: real, m: real)
  {
    exists p, v :: Measures(segs, rule, sy, l, r, m, p, v)
  }

  /** Everything but the last piece. */
  lemma AllButLast(segs: seq<Seg>, rule: Rule, sy: real, l: real, r: real, p: seq<real>, v: seq<bool>)
    requires Partition(p, l, r) && Steps(segs, rule, sy, p, v) && |v| > 0
    ensures Partition(p[..|v|], l, p[|v| - 1]) && Steps(segs, rule, sy, p[..|v|], v[..|v| - 1])
    ensures Total(p, v) == Total(p[..|v|], v[..|v| - 1]) + Piece(v[|v| - 1], p[|v| - 1], r)
  {
    hide Inside, Partition, Total;
    LastIs(p, l, r);
    PartitionButLast(p, l, r);
    TotalButLast(p, v);
  }

  lemma PartitionButLast(p: seq<real>, l: real, r: real)
    requires Partition(p, l, r) && |p| > 1
    ensures Partition(p[..|p| - 1], l, p[|p| - 2])
  {
  }

  lemma TotalButLast(p: seq<real>, v: seq<bool>)
    requires |p| == |v| + 1 && |v| > 0
    ensures Total(p, v) == Total(p[..|v|], v[..|v| - 1]) + Piece(v[|v| - 1], p[|v| - 1], p[|v|])
  {
  }

  /** The last piece made shorter. */
  lemma ShorterLast(segs: seq<Seg>, rule: Rule, sy: real, l: real, r: real, p: seq<real>, v: seq<bool>, end: real)
    requires Partition(p, l, r) && Steps(segs, rule, sy, p, v) && |v| > 0
    requires p[|v| - 1] <= end <= r
    ensures Partition(p[..|v|] + [end], l, end) && Steps(segs, rule, sy, p[..|v|] + [end], v)
    ensures Total(p, v) == Total(p[..|v|] + [end], v) + Piece(v[|v| - 1], end, r)
  {
    hide Inside, Partition, Total;
    SameTotalButLast(p, v, end);
    PartitionCut(p, l, r, end);
    var n, q := |v|, p[..|v|] + [end];
    assert p[n] == r by { LastIs(p, l, r); }
    forall j, x: real | 0 <= j < |v| && q[j] < x < q[j + 1] ensures Inside(segs, rule, sy, x) == v[j] {
      assert q[j] == p[j] && q[j + 1] <= p[j + 1];
    }
  }

  lemma LastIs(p: seq<real>, l: real, r: real)
    requires Partition(p, l, r)
    ensures p[|p| - 1] == r
  {
  }

  lemma PartitionCut(p: seq<real>, l: real, r: real, end: real)
    requires Partition(p, l, r) && |p| > 1 && p[|p| - 2] <= end <= r
    ensures Partition(p[..|p| - 1] + [end], l, end)
  {
  }

  lemma SameTotalButLast(p: seq<real>, v: seq<bool>, end: real)
    requires |p| == |v| + 1 && |v| > 0
    ensures Total(p, v) == Total(p[..|v|] + [end], v) + Piece(v[|v| - 1], end, p[|v|])
  {
    assert (p[..|v|] + [end])[..|v|] == p[..|v|];
  }

  lemma {:induction false} PointsAreEmpty(p: seq<real>, v: seq<bool>, l: real)
    requires |p| == |v| + 1 && Partition(p, l, l)
    ensures Total(p, v) == 0.0
  {
    if |v| > 0 { PointsAreEmpty(p[..|v|], v[..|v| - 1], l); }
  }

  /** Two ways of cutting the window into inside and outside pieces give the same length. */
  lemma {:induction false} OneLength(segs: seq<Seg>, rule: Rule, sy: real, l: real, r: real,
                                     p: seq<real>, v: seq<bool>, q: seq<real>, u: seq<bool>)
    requires Partition(p, l, r) && Steps(segs, rule, sy, p, v)
    requires Partition(q, l, r) && Steps(segs, rule, sy, q, u)
    ensures Total(p, v) == Total(q, u)
    decreases |p| + |q|
  {
    hide Inside;
    if |v| == 0 || |u| == 0 {
      PointsAreEmpty(p, v, l);
      PointsAreEmpty(q, u, l);
    } else if p[|v| - 1] >= q[|u| - 1] {
      var _ := CutBack(segs, rule, sy, l, r, p, v, q, u);
      OneLength(segs, rule, sy, l, p[|v| - 1], p[..|v|], v[..|v| - 1], q[..|u|] + [p[|v| - 1]], u);
    } else {
      var _ := CutBack(segs, rule, sy, l, r, q, u, p, v);
      OneLength(segs, rule, sy, l, q[|u| - 1], p[..|v|] + [q[|u| - 1]], v, q[..|u|], u[..|u| - 1]);
    }
  }

  /** Cutting the last piece of `p` off both. */
  lemma CutBack(segs: seq<Seg>, rule: Rule, sy: real, l: real, r: real,
                p: seq<real>, v: seq<bool>, q: seq<real>, u: seq<bool>) returns (last: real)
    requires Partition(p, l, r) && Steps(segs, rule, sy, p, v) && |p| == |v| + 1 && |v| > 0
    requires Partition(q, l, r) && Steps(segs, rule, sy, q, u) && |q| == |u| + 1 && |u| > 0
    requires p[|v| - 1] >= q[|u| - 1]
    ensures Partition(p[..|v|], l, p[|v| - 1]) && Steps(segs, rule, sy, p[..|v|], v[..|v| - 1])
    ensures Partition(q[..|u|] + [p[|v| - 1]], l, p[|v| - 1]) && Steps(segs, rule, sy, q[..|u|] + [p[|v| - 1]], u)
    ensures Total(p, v) == Total(p[..|v|], v[..|v| - 1]) + last
    ensures Total(q, u) == Total(q[..|u|] + [p[|v| - 1]], u) + last
  {
    hide Inside, Partition, Steps, Total, Piece;
    var a := p[|v| - 1];
    BeforeLast(p, l, r);
    BeforeLast(q, l, r);
    AllButLast(segs, rule, sy, l, r, p, v);
    ShorterLast(segs, rule, sy, l, r, q, u, a);
    LastPiece(segs, rule, sy, r, p, v, q, u);
    last := Piece(u[|u| - 1], a, r);
  }

  lemma BeforeLast(p: seq<real>, l: real, r: real)
    requires Partition(p, l, r) && |p| >= 2
    ensures l <= p[|p| - 2] <= r && p[0] == l && p[|p| - 1] == r
  {
  }

  lemma LastPiece(segs: seq<Seg>, rule: Rule, sy: real, r: real, p: seq<real>, v: seq<bool>, q: seq<real>, u: seq<bool>)
    requires Steps(segs, rule, sy, p, v) && |p| == |v| + 1 && |v| > 0 && p[|v|] == r
    requires Steps(segs, rule, sy, q, u) && |q| == |u| + 1 && |u| > 0 && q[|u|] == r
    requires q[|u| - 1] <= p[|v| - 1] <= r
    ensures Piece(v[|v| - 1], p[|v| - 1], r) == Piece(u[|u| - 1], p[|v| - 1], r)
  {
    hide Inside;
    var a := p[|v| - 1];
    if a < r {
      var mid := (a + r) / 2.0;
      assert Inside(segs, rule, sy, mid) == v[|v| - 1];
    }
  }

  /** The length of the inside within the window. */
  ghost function Length(segs: seq<Seg>, rule: Rule, sy: real, l: real, r: real): real
  {
    if exists m :: IsLength(segs, rule, sy, l, r, m) then var m :| IsLength(segs, rule, sy, l, r, m); m else 0.0
  }

  /** There is only one length, so any cutting shows it. */
  lemma LengthIs(segs: seq<Seg>, rule: Rule, sy: real, l: real, r: real, m: real)
    requires IsLength(segs, rule, sy, l, r, m)
    ensures Length(segs, rule, sy, l, r) == m
  {
    hide Partition, Steps, Total;
    var n := Length(segs, rule, sy, l, r);
    assert IsLength(segs, rule, sy, l, r, n);
    var p, v :| Measures(segs, rule, sy, l, r, m, p, v);
    var q, u :| Measures(segs, rule, sy, l, r, n, q, u);
    OneLength(segs, rule, sy, l, r, p, v, q, u);
  }

  lemma {:induction false} TotalWithin(p: seq<real>, v: seq<bool>, l: real, r: real)
    requires |p| == |v| + 1 && Partition(p, l, r)
    ensures 0.0 <= Total(p, v) <= r - l
  {
    if |v| > 0 { TotalWithin(p[..|v|], v[..|v| - 1], l, p[|v| - 1]); }
  }

  lemma LengthWithin(segs: seq<Seg>, rule: Rule, sy: real, l: real, r: real)
    requires l <= r
    ensures 0.0 <= Length(segs, rule, sy, l, r) <= r - l
  {
    hide Partition, Total;
    var n := Length(segs, rule, sy, l, r);
    if IsLength(segs, rule, sy, l, r, n) {
      var p, v :| Measures(segs, rule, sy, l, r, n, p, v);
      TotalWithin(p, v, l, r);
    }
  }

  /** Where nothing is inside the length is zero. */
  lemma NothingInside(segs: seq<Seg>, rule: Rule, sy: real, l: real, r: real)
    requires l <= r && forall x: real :: l < x < r ==> !Inside(segs, rule, sy, x)
    ensures Length(segs, rule, sy, l, r) == 0.0
  {
    hide Inside;
    assert Total([l, r], [false]) == 0.0 by { assert [l, r][..1] == [l]; }
    assert Measures(segs, rule, sy, l, r, 0.0, [l, r], [false]);
    LengthIs(segs, rule, sy, l, r, 0.0);
  }

  // ---- Pixels ----

  const SUB := 16

  function SubY(y: int, k: int): real { y as real + (k as real + 0.5) / 16.0 }

  ghost function Lengths(segs: seq<Seg>, rule: Rule, px: int, py: int, k: nat): real
  {
    if k == 0 then 0.0
    else Lengths(segs, rule, px, py, k - 1) + Length(segs, rule, SubY(py, k - 1), px as real, px as real + 1.0)
  }

  /** The mean, over a pixel's sub-scanlines, of the inside's length across the pixel. */
  ghost function Coverage(segs: seq<Seg>, rule: Rule, px: int, py: int): real
  {
    Lengths(segs, rule, px, py, SUB) / 16.0
  }

  lemma {:induction false} LengthsWithin(segs: seq<Seg>, rule: Rule, px: int, py: int, k: nat)
    ensures 0.0 <= Lengths(segs, rule, px, py, k) <= k as real
  {
    hide Length;
    if k == 0 {
    } else {
      LengthsWithin(segs, rule, px, py, k - 1);
      LengthWithin(segs, rule, SubY(py, k - 1), px as real, px as real + 1.0);
    }
  }

  /** However many pieces overlap, a pixel is never covered less than not at all or more than wholly. */
  lemma CoverageWithin(segs: seq<Seg>, rule: Rule, px: int, py: int)
    ensures 0.0 <= Coverage(segs, rule, px, py) <= 1.0
  {
    LengthsWithin(segs, rule, px, py, SUB);
  }

  lemma {:induction false} NothingCovered(segs: seq<Seg>, rule: Rule, px: int, py: int, k: nat)
    requires forall j, x: real :: 0 <= j < k && px as real < x < px as real + 1.0 ==> !Inside(segs, rule, SubY(py, j), x)
    ensures Lengths(segs, rule, px, py, k) == 0.0
  {
    hide Length, Inside;
    if k == 0 {
    } else {
      NothingCovered(segs, rule, px, py, k - 1);
      NothingInside(segs, rule, SubY(py, k - 1), px as real, px as real + 1.0);
    }
  }

  /** The stored byte: rounded to the nearest of 256 levels. */
  function Alpha(c: real): int
  {
    if c >= 1.0 then 255 else if c <= 0.0 then 0 else (c * 255.0 + 0.5).Floor
  }

  /** The byte nearest to 255 times the coverage, the higher one of two that are as near. */
  predicate Nearest(b: int, c: real)
  {
    0 <= b <= 255 && b as real - 0.5 <= 255.0 * c < b as real + 0.5
  }

  lemma AlphaIsNearest(c: real)
    requires 0.0 <= c <= 1.0
    ensures Nearest(Alpha(c), c)
  {
  }

  lemma NearestIsOne(a: int, b: int, c: real)
    requires Nearest(a, c) && Nearest(b, c)
    ensures a == b
  {
  }

  // ---- What the rules mean ----

  /** Non-zero fills where the winding is not zero, even-odd where it is odd; neither minds which way the outline runs. */
  lemma FilledIs(wind: int)
    ensures Filled(NonZero, wind) <==> wind < 0 || wind > 0
    ensures !Filled(EvenOdd, 0) && (Filled(EvenOdd, wind) <==> !Filled(EvenOdd, wind + 1))
    ensures Filled(NonZero, -wind) == Filled(NonZero, wind) && Filled(EvenOdd, -wind) == Filled(EvenOdd, wind)
  {
  }

  /** A crossing is the point of the segment at that height; each height from the upper end to above the lower one has one. */
  lemma CrossingOnSegment(s: Seg, sy: real)
    ensures Sign(s, sy) != 0 <==> (s.y0 <= sy < s.y1 || s.y1 <= sy < s.y0)
    ensures Sign(s, sy) == 1 ==> s.y0 < s.y1
    ensures Sign(s, sy) == -1 ==> s.y1 < s.y0
    ensures Sign(s, sy) != 0 ==> (CrossX(s, sy) - s.x0) * (s.y1 - s.y0) == (sy - s.y0) * (s.x1 - s.x0)
  {
    if Sign(s, sy) != 0 {
      var d := (s.x1 - s.x0) / (s.y1 - s.y0);
      assert d * (s.y1 - s.y0) == s.x1 - s.x0;
      Reorder(sy - s.y0, d, s.y1 - s.y0);
    }
  }

  lemma Reorder(a: real, d: real, h: real)
    ensures (a * d) * h == a * (d * h)
  {
  }
}
