/**
 * The scanline rasterizer (src/gfx/blend.cpp, PainterImpl::rasterize): spans of
 * sixteen sub-scanlines a row are summed into `cov` and `diff`, read out and
 * cleared. Every pixel gets the coverage RasterSpec defines.
 */
module Raster {
  import opened RasterSpec
  import opened RasterEdges

  // ---- What sweeping the crossings from left to right measures ----

  function Clip(x: real, l: real, r: real): real
    requires l <= r
  {
    if x < l then l else if x > r then r else x
  }

  function Wind(act: seq<Active>, n: nat): int
    requires n <= |act|
  {
    if n == 0 then 0 else Wind(act, n - 1) + act[n - 1].e.dir
  }

  /** The inside's length in the window between the first and the last of the first `n` crossings. */
  function Swept(act: seq<Active>, n: nat, rule: Rule, l: real, r: real): real
    requires n <= |act| && l <= r
  {
    if n <= 1 then 0.0
    else Swept(act, n - 1, rule, l, r)
         + Piece(Filled(rule, Wind(act, n - 1)), Clip(act[n - 2].cx, l, r), Clip(act[n - 1].cx, l, r))
  }

  /** The first `m` are the crossings of the line, the others miss it. */
  predicate Lined(act: seq<Active>, m: nat, sy: real)
  {
    && m <= |act| && ByX(act, |act|)
    && (forall t :: 0 <= t < |act| ==> Placed(act[t], sy))
    && (forall t :: 0 <= t < m ==> act[t].on)
    && (forall t :: m <= t < |act| ==> !act[t].on)
  }

  lemma {:induction false} PrefixWind(act: seq<Active>, n: nat, j: nat, sy: real, limit: Limit)
    requires j <= |act| && n <= |act| && forall t :: 0 <= t < |act| ==> Placed(act[t], sy)
    requires forall t :: 0 <= t < j ==> act[t].on && Reaches(act[t].cx, limit)
    requires forall t :: j <= t < |act| ==> !act[t].on || !Reaches(act[t].cx, limit)
    ensures ActSum(act[..n], sy, limit) == Wind(act, if n <= j then n else j)
  {
    if n == 0 {
    } else {
      PrefixWind(act, n - 1, j, sy, limit);
      assert act[..n][..n - 1] == act[..n - 1];
    }
  }

  function Marks(act: seq<Active>, m: nat, l: real, r: real): (p: seq<real>)
    requires m <= |act| && l <= r
    ensures |p| == m + 2 && p[0] == l && p[m + 1] == r
  {
    seq(m + 2, j requires 0 <= j < m + 2 => if j == 0 then l else if j == m + 1 then r else Clip(act[j - 1].cx, l, r))
  }

  function Flags(act: seq<Active>, m: nat, rule: Rule): (v: seq<bool>)
    requires m <= |act|
    ensures |v| == m + 1
  {
    seq(m + 1, j requires 0 <= j < m + 1 => Filled(rule, Wind(act, j)))
  }

  lemma {:induction false} MarksTotal(act: seq<Active>, m: nat, rule: Rule, l: real, r: real, n: nat)
    requires m <= |act| && l <= r && 1 <= n <= m
    ensures Total(Marks(act, m, l, r)[..n + 1], Flags(act, m, rule)[..n]) == Swept(act, n, rule, l, r)
  {
    hide Clip, Filled, Piece, Total, Marks, Flags;
    var p, v := Marks(act, m, l, r), Flags(act, m, rule);
    TotalStep(p, v, n);
    FlagAt(act, m, rule, n - 1);
    if n == 1 {
      NoTotal(p[..1], v[..0]);
      OutsideAtFirst(rule, p[0], p[1]);
    } else {
      MarkAt(act, m, l, r, n - 1);
      MarkAt(act, m, l, r, n);
      MarksTotal(act, m, rule, l, r, n - 1);
    }
  }

  lemma TotalStep(p: seq<real>, v: seq<bool>, n: nat)
    requires 1 <= n <= |v| < |p|
    ensures Total(p[..n + 1], v[..n]) == Total(p[..n], v[..n - 1]) + Piece(v[n - 1], p[n - 1], p[n])
  {
    hide Piece;
    assert p[..n + 1][..n] == p[..n] && v[..n][..n - 1] == v[..n - 1];
  }

  lemma NoTotal(p: seq<real>, v: seq<bool>)
    requires |p| == 1 && v == []
    ensures Total(p, v) == 0.0
  {
  }

  lemma MarkAt(act: seq<Active>, m: nat, l: real, r: real, j: nat)
    requires 1 <= j <= m <= |act| && l <= r
    ensures Marks(act, m, l, r)[j] == Clip(act[j - 1].cx, l, r)
  {
    hide Clip;
  }

  lemma FlagAt(act: seq<Active>, m: nat, rule: Rule, j: nat)
    requires j <= m <= |act|
    ensures Flags(act, m, rule)[j] == Filled(rule, Wind(act, j))
  {
    hide Filled;
  }

  lemma OutsideAtFirst(rule: Rule, a: real, b: real)
    ensures !Filled(rule, 0) && Piece(Filled(rule, 0), a, b) == 0.0
  {
  }

  lemma MarksPartition(act: seq<Active>, m: nat, sy: real, l: real, r: real)
    requires Lined(act, m, sy) && l <= r
    ensures Partition(Marks(act, m, l, r), l, r)
  {
    hide Placed;
    forall i, j | 0 <= i < j < m ensures act[i].cx <= act[j].cx { assert NotAfter(act[i], act[j]); }
  }

  lemma BetweenMarks(act: seq<Active>, m: nat, sy: real, l: real, r: real, j: nat, x: real)
    requires Lined(act, m, sy) && l <= r && j <= m
    requires Marks(act, m, l, r)[j] < x < Marks(act, m, l, r)[j + 1]
    ensures ActSum(act, sy, Upto(x)) == Wind(act, j)
  {
    hide Placed, ActSum;
    forall t | 0 <= t < j ensures act[t].on && Reaches(act[t].cx, Upto(x)) {
      assert t < j - 1 ==> NotAfter(act[t], act[j - 1]);
    }
    forall t | j <= t < |act| ensures !act[t].on || !Reaches(act[t].cx, Upto(x)) {
      assert j < t < m ==> NotAfter(act[j], act[t]);
    }
    PrefixWind(act, |act|, j, sy, Upto(x));
    assert act[..|act|] == act;
  }

  /** The sorted crossings of balanced segments show the length of the inside. */
  lemma SweptIsLength(act: seq<Active>, m: nat, segs: seq<Seg>, rule: Rule, sy: real, l: real, r: real)
    requires Lined(act, m, sy) && m <= |act| && l <= r
    requires forall limit :: ActSum(act, sy, limit) == Winding(segs, sy, limit)
    requires Winding(segs, sy, Everywhere) == 0
    ensures Wind(act, m) == 0
    ensures IsLength(segs, rule, sy, l, r, Swept(act, m, rule, l, r))
    ensures Length(segs, rule, sy, l, r) == Swept(act, m, rule, l, r)
  {
    hide Lined, Placed, ActSum, Winding, Partition, Length, Swept, Piece, Filled, Total;
    WholeWind(act, m, sy);
    var p, v := Marks(act, m, l, r), Flags(act, m, rule);
    MarksPartition(act, m, sy, l, r);
    forall j, x: real | 0 <= j < |v| && p[j] < x < p[j + 1] ensures Inside(segs, rule, sy, x) == v[j] {
      BetweenMarks(act, m, sy, l, r, j, x);
    }
    assert Steps(segs, rule, sy, p, v);
    OutsideAtFirst(rule, p[m], p[m + 1]);
    LastMark(act, m, rule, l, r);
    assert Measures(segs, rule, sy, l, r, Swept(act, m, rule, l, r), p, v);
    LengthIs(segs, rule, sy, l, r, Swept(act, m, rule, l, r));
  }

  lemma WholeWind(act: seq<Active>, m: nat, sy: real)
    requires Lined(act, m, sy)
    ensures Wind(act, m) == ActSum(act, sy, Everywhere)
  {
    hide Placed;
    PrefixWind(act, |act|, m, sy, Everywhere);
    assert act[..|act|] == act;
  }

  lemma LastMark(act: seq<Active>, m: nat, rule: Rule, l: real, r: real)
    requires m <= |act| && l <= r && Wind(act, m) == 0
    ensures Total(Marks(act, m, l, r), Flags(act, m, rule)) == Swept(act, m, rule, l, r)
  {
    hide Clip, Filled, Piece, Total, Flags, Marks;
    var p, v := Marks(act, m, l, r), Flags(act, m, rule);
    OutsideAtFirst(rule, p[m], p[m + 1]);
    FlagAt(act, m, rule, m);
    TotalStep(p, v, m + 1);
    assert p[..m + 2] == p && v[..m + 1] == v;
    if m == 0 { NoTotal(p[..1], v[..0]); } else { MarksTotal(act, m, rule, l, r, m); }
  }

  // ---- The accumulators ----

  /** The sum of the first `n` differences. */
  function Run(diff: seq<real>, n: nat): real
    requires n <= |diff|
  {
    if n == 0 then 0.0 else Run(diff, n - 1) + diff[n - 1]
  }

  /** What pixel `i` of the row holds so far. */
  function Held(cov: seq<real>, diff: seq<real>, i: nat): real
    requires i < |cov| == |diff|
  {
    cov[i] + Run(diff, i + 1)
  }

  lemma {:induction false} RunUpdate(d: seq<real>, t: nat, x: real, n: nat)
    requires t < |d| && n <= |d|
    ensures Run(d[t := d[t] + x], n) == Run(d, n) + if t < n then x else 0.0
  {
    if n == 0 {
    } else {
      RunUpdate(d, t, x, n - 1);
    }
  }

  lemma {:induction false} RunOfZeros(d: seq<real>, n: nat)
    requires n <= |d| && forall t :: 0 <= t < n ==> d[t] == 0.0
    ensures Run(d, n) == 0.0
  {
    if n == 0 {
    } else {
      RunOfZeros(d, n - 1);
    }
  }

  /** How much of [a, b) lies over pixel `i`. */
  function Overlap(a: real, b: real, i: nat): real
  {
    Clip(b, i as real, i as real + 1.0) - Clip(a, i as real, i as real + 1.0)
  }

  /** A span over one pixel, and a span over several: its ends in `cov`, the whole pixels between in `diff`. */
  method Deposit(cov: array<real>, diff: array<real>, a: real, b: real, W: nat)
    requires cov != diff && cov.Length == diff.Length == W + 2 && 0.0 <= a < b <= W as real
    modifies cov, diff
    ensures forall i: nat :: i < W ==>
      Held(cov[..], diff[..], i) == old(Held(cov[..], diff[..], i)) + Overlap(a, b, i) / 16.0
    ensures forall t: nat :: t < W + 2 && !(a.Floor <= t <= b.Floor) ==> cov[t] == old(cov[t])
    ensures forall t: nat :: t < W + 2 && !(a.Floor < t <= b.Floor) ==> diff[t] == old(diff[t])
  {
    hide Held, Overlap;
    var ia, ib := a.Floor, b.Floor;
    ghost var c, d := cov[..], diff[..];
    if ia == ib {
      cov[ia] := cov[ia] + (b - a) / 16.0;
      forall i: nat | i < W ensures Held(cov[..], diff[..], i) == Held(c, d, i) + Overlap(a, b, i) / 16.0 {
        WithinOnePixel(c, d, a, b, i);
      }
    } else {
      cov[ia] := cov[ia] + ((ia + 1) as real - a) / 16.0;
      diff[ia + 1] := diff[ia + 1] + 1.0 / 16.0;
      diff[ib] := diff[ib] - 1.0 / 16.0;
      cov[ib] := cov[ib] + (b - ib as real) / 16.0;
      ghost var d1 := d[ia + 1 := d[ia + 1] + 1.0 / 16.0];
      ghost var c1 := c[ia := c[ia] + ((ia + 1) as real - a) / 16.0];
      assert diff[..] == d1[ib := d1[ib] + -1.0 / 16.0] && cov[..] == c1[ib := c1[ib] + (b - ib as real) / 16.0];
      forall i: nat | i < W ensures Held(cov[..], diff[..], i) == Held(c, d, i) + Overlap(a, b, i) / 16.0 {
        AcrossPixels(c, d, a, b, i);
      }
    }
  }

  lemma WithinOnePixel(c: seq<real>, d: seq<real>, a: real, b: real, i: nat)
    requires i + 1 < |c| == |d| && 0.0 <= a < b && a.Floor == b.Floor < |c|
    ensures Held(c[a.Floor := c[a.Floor] + (b - a) / 16.0], d, i) == Held(c, d, i) + Overlap(a, b, i) / 16.0
  {
  }

  lemma AcrossPixels(c: seq<real>, d: seq<real>, a: real, b: real, i: nat)
    requires i + 1 < |c| == |d| && 0.0 <= a < b && a.Floor < b.Floor < |c|
    ensures var (ia, ib) := (a.Floor, b.Floor);
            var c1 := c[ia := c[ia] + ((ia + 1) as real - a) / 16.0];
            var d1 := d[ia + 1 := d[ia + 1] + 1.0 / 16.0];
            Held(c1[ib := c1[ib] + (b - ib as real) / 16.0], d1[ib := d1[ib] + -1.0 / 16.0], i)
            == Held(c, d, i) + Overlap(a, b, i) / 16.0
  {
    hide Run;
    var ia, ib := a.Floor, b.Floor;
    var d1 := d[ia + 1 := d[ia + 1] + 1.0 / 16.0];
    RunUpdate(d, ia + 1, 1.0 / 16.0, i + 1);
    RunUpdate(d1, ib, -1.0 / 16.0, i + 1);
  }

  /** Nothing is held outside [lo, hi), and the row's buffers are zero there. */
  ghost predicate Bounded(c: seq<real>, d: seq<real>, W: nat, lo: nat, hi: nat)
  {
    && |c| == |d| == W + 2
    && ((lo == W && hi == 0) || (lo < W && lo < hi <= W + 1))
    && (forall t :: 0 <= t < W + 2 && !(lo <= t < hi) ==> c[t] == 0.0)
    && (forall t :: 0 <= t < W + 2 && !(lo < t < hi) ==> d[t] == 0.0)
    && (forall i: nat :: i < W && !(lo <= i < hi) ==> Held(c, d, i) == 0.0)
  }

  // ---- One sub-scanline ----

  /** What has been entered of an unfinished span. */
  function Pending(act: seq<Active>, n: nat, was: bool, xa: real, l: real, r: real): real
    requires n <= |act| && l <= r
  {
    if was && n > 0 then Clip(act[n - 1].cx, l, r) - Clip(xa, l, r) else 0.0
  }

  /** Every pixel has grown by the part of the first `n` crossings that is finished. */
  ghost predicate Drawn(c: seq<real>, d: seq<real>, h: seq<real>, act: seq<Active>, n: nat, rule: Rule, x0: int,
                        was: bool, xa: real)
    requires n <= |act| && |h| <= |c| == |d|
  {
    forall i: nat :: i < |h| ==>
      var l := (x0 + i) as real;
      Held(c, d, i) == h[i] + (Swept(act, n, rule, l, l + 1.0) - Pending(act, n, was, xa, l, l + 1.0)) / 16.0
  }

  lemma SpanStep(act: seq<Active>, n: nat, rule: Rule, was: bool, now: bool, xa: real, l: real, r: real)
    requires n < |act| && l <= r && was == Filled(rule, Wind(act, n)) && now == Filled(rule, Wind(act, n + 1))
    ensures var x := act[n].cx;
            Swept(act, n + 1, rule, l, r) - Pending(act, n + 1, now, if !was && now then x else xa, l, r)
            == Swept(act, n, rule, l, r) - Pending(act, n, was, xa, l, r)
               + if was && !now then Clip(x, l, r) - Clip(xa, l, r) else 0.0
  {
    hide Clip;
    assert n == 0 ==> !was;
  }

  /** How much of [xa, x) lies over pixel `i` of a row that starts at `x0`. */
  function Over(xa: real, x: real, x0: int, i: nat): real
  {
    var l := (x0 + i) as real;
    Clip(x, l, l + 1.0) - Clip(xa, l, l + 1.0)
  }

  /** Only what lies within the row is entered, and nothing is lost by that. */
  lemma SpanOverPixel(xa: real, x: real, x0: int, W: nat, i: nat)
    requires xa <= x && i < W
    ensures var (a, b) := (Max(xa - x0 as real, 0.0), Min(x - x0 as real, W as real));
            Over(xa, x, x0, i) == if b <= a then 0.0 else Overlap(a, b, i)
  {
    assert (x0 + i) as real == x0 as real + i as real;
  }

  function Max(a: real, b: real): real { if a < b then b else a }

  function Min(a: real, b: real): real { if a < b then a else b }

  /** Crossing `n` finishes the span begun at `xa`. */
  method FinishSpan(cov: array<real>, diff: array<real>, xa: real, x: real, x0: int, W: nat, lo0: nat, hi0: nat)
    returns (lo: nat, hi: nat)
    requires cov != diff && cov.Length == diff.Length == W + 2 && xa <= x && Bounded(cov[..], diff[..], W, lo0, hi0)
    modifies cov, diff
    ensures Bounded(cov[..], diff[..], W, lo, hi)
    ensures forall i: nat :: i < W ==>
      Held(cov[..], diff[..], i) == old(Held(cov[..], diff[..], i)) + Over(xa, x, x0, i) / 16.0
  {
    hide Held, Over, Overlap;
    var a, b := Max(xa - x0 as real, 0.0), Min(x - x0 as real, W as real);
    forall i: nat | i < W ensures Over(xa, x, x0, i) == if b <= a then 0.0 else Overlap(a, b, i) {
      SpanOverPixel(xa, x, x0, W, i);
    }
    if b <= a { return lo0, hi0; }
    Deposit(cov, diff, a, b, W);
    lo := if a.Floor < lo0 then a.Floor else lo0;
    hi := if b.Floor + 1 > hi0 then b.Floor + 1 else hi0;
    forall i: nat | i < W && !(a.Floor <= i <= b.Floor) ensures Overlap(a, b, i) == 0.0 { NoOverlap(a, b, i); }
  }

  lemma NoOverlap(a: real, b: real, i: nat)
    requires 0.0 <= a < b && !(a.Floor <= i <= b.Floor)
    ensures Overlap(a, b, i) == 0.0
  {
  }

  /** One sub-scanline's spans. */
  method Sweep(act: seq<Active>, ghost m: nat, ghost sy: real, rule: Rule, cov: array<real>, diff: array<real>,
               x0: int, W: nat, lo0: nat, hi0: nat) returns (lo: nat, hi: nat)
    requires cov != diff && cov.Length == diff.Length == W + 2 && Bounded(cov[..], diff[..], W, lo0, hi0)
    requires Lined(act, m, sy) && Wind(act, m) == 0
    modifies cov, diff
    ensures Bounded(cov[..], diff[..], W, lo, hi)
    ensures forall i: nat :: i < W ==>
      Held(cov[..], diff[..], i) == old(Held(cov[..], diff[..], i)) + Swept(act, m, rule, (x0 + i) as real, (x0 + i) as real + 1.0) / 16.0
  {
    hide Held, Bounded, Swept, Pending, Clip, Filled, Over;
    lo, hi := lo0, hi0;
    ghost var c0, d0 := cov[..], diff[..];
    ghost var h := seq(W, i requires 0 <= i < W => Held(c0, d0, i));
    var wind, xa, i: nat := 0, 0.0, 0;
    OutsideAtFirst(rule, 0.0, 0.0);
    assert Drawn(cov[..], diff[..], h, act, 0, rule, x0, false, xa) by { NoneDrawn(cov[..], diff[..], h, act, rule, x0, xa); }
    while i < |act| && act[i].on
      invariant i <= m && wind == Wind(act, i)
      invariant Bounded(cov[..], diff[..], W, lo, hi)
      invariant Filled(rule, wind) ==> forall t :: i <= t < m ==> xa <= act[t].cx
      invariant Drawn(cov[..], diff[..], h, act, i, rule, x0, Filled(rule, wind), xa)
    {
      ghost var c, d, x := cov[..], diff[..], xa;
      var was := Filled(rule, wind);
      wind := wind + act[i].e.dir;
      var now := Filled(rule, wind);
      assert forall t :: i <= t < m ==> act[i].cx <= act[t].cx by { LaterIsRight(act, m, sy, i); }
      if !was && now {
        xa := act[i].cx;
      } else if was && !now {
        lo, hi := FinishSpan(cov, diff, xa, act[i].cx, x0, W, lo, hi);
      }
      DrawnStep(c, d, cov[..], diff[..], h, act, i, rule, x0, was, now, x);
      i := i + 1;
    }
    assert i == m;
    forall i: nat | i < W
      ensures var l := (x0 + i) as real; Held(cov[..], diff[..], i) == h[i] + Swept(act, m, rule, l, l + 1.0) / 16.0
    {
      NothingPending(act, m, xa, (x0 + i) as real, (x0 + i) as real + 1.0);
    }
  }

  lemma LaterIsRight(act: seq<Active>, m: nat, sy: real, i: nat)
    requires Lined(act, m, sy) && i < m
    ensures forall t :: i <= t < m ==> act[i].cx <= act[t].cx
  {
    hide Placed;
    forall t | i < t < m ensures act[i].cx <= act[t].cx { assert NotAfter(act[i], act[t]); }
  }

  lemma NothingPending(act: seq<Active>, n: nat, xa: real, l: real, r: real)
    requires n <= |act| && l <= r
    ensures Pending(act, n, false, xa, l, r) == 0.0
  {
  }

  lemma NoneDrawn(c: seq<real>, d: seq<real>, h: seq<real>, act: seq<Active>, rule: Rule, x0: int, xa: real)
    requires |h| <= |c| == |d| && forall i: nat :: i < |h| ==> h[i] == Held(c, d, i)
    ensures Drawn(c, d, h, act, 0, rule, x0, false, xa)
  {
    hide Held;
  }

  lemma DrawnStep(c: seq<real>, d: seq<real>, c1: seq<real>, d1: seq<real>, h: seq<real>, act: seq<Active>, n: nat, rule: Rule,
                  x0: int, was: bool, now: bool, xa: real)
    requires n < |act| && |h| <= |c| == |d| == |c1| == |d1|
    requires was == Filled(rule, Wind(act, n)) && now == Filled(rule, Wind(act, n + 1))
    requires Drawn(c, d, h, act, n, rule, x0, was, xa)
    requires !(was && !now) ==> c1 == c && d1 == d
    requires (was && !now) ==> forall i: nat :: i < |h| ==>
      Held(c1, d1, i) == Held(c, d, i) + Over(xa, act[n].cx, x0, i) / 16.0
    ensures Drawn(c1, d1, h, act, n + 1, rule, x0, now, if !was && now then act[n].cx else xa)
  {
    hide Held, Swept, Pending, Clip, Filled, Wind;
    forall i: nat | i < |h|
      ensures var l := (x0 + i) as real;
              Held(c1, d1, i) == h[i] + (Swept(act, n + 1, rule, l, l + 1.0)
                                         - Pending(act, n + 1, now, if !was && now then act[n].cx else xa, l, l + 1.0)) / 16.0
    {
      SpanStep(act, n, rule, was, now, xa, (x0 + i) as real, (x0 + i) as real + 1.0);
    }
  }

  // ---- One row ----

  /** How many of the active edges the line crosses. */
  lemma CountOn(act: seq<Active>, sy: real) returns (m: nat)
    requires ByX(act, |act|) && forall t :: 0 <= t < |act| ==> Placed(act[t], sy)
    ensures Lined(act, m, sy)
  {
    hide Placed;
    m := 0;
    while m < |act| && act[m].on
      invariant m <= |act| && forall t :: 0 <= t < m ==> act[t].on
    {
      m := m + 1;
    }
    forall t | m < t < |act| ensures !act[t].on { assert NotAfter(act[m], act[t]); }
  }

  /** The active edges cross the lines of row `y` like the segments. */
  ghost predicate CrossLikeRow(act: seq<Active>, segs: seq<Seg>, y: int)
  {
    forall sy: real, limit :: y as real <= sy < y as real + 1.0 ==> ActSum(act, sy, limit) == Winding(segs, sy, limit)
  }

  predicate AllZero(s: seq<real>) { forall t :: 0 <= t < |s| ==> s[t] == 0.0 }

  lemma ZeroIsBounded(c: seq<real>, d: seq<real>, W: nat)
    requires |c| == |d| == W + 2 && AllZero(c) && AllZero(d)
    ensures Bounded(c, d, W, W, 0)
    ensures forall i: nat :: i < W ==> Held(c, d, i) == 0.0
  {
    forall i: nat | i < W ensures Held(c, d, i) == 0.0 { RunOfZeros(d, i + 1); }
  }

  method Accumulate(act0: seq<Active>, ghost segs: seq<Seg>, rule: Rule, y: int, cov: array<real>, diff: array<real>,
                    x0: int, W: nat) returns (act: seq<Active>, lo: nat, hi: nat)
    requires cov != diff && cov.Length == diff.Length == W + 2 && AllZero(cov[..]) && AllZero(diff[..])
    requires Balanced(segs) && CrossLikeRow(act0, segs, y)
    modifies cov, diff
    ensures forall sy: real, limit :: ActSum(act, sy, limit) == ActSum(act0, sy, limit)
    ensures Bounded(cov[..], diff[..], W, lo, hi)
    ensures forall i: nat :: i < W ==> Held(cov[..], diff[..], i) == Coverage(segs, rule, x0 + i, y)
  {
    hide Held, Bounded, Swept, Lined, ActSum, Winding, Placed, Length, AllZero, ByX;
    ZeroIsBounded(cov[..], diff[..], W);
    act, lo, hi := act0, W, 0;
    var k: nat := 0;
    while k < SUB
      invariant k <= SUB && Bounded(cov[..], diff[..], W, lo, hi)
      invariant forall sy: real, limit :: ActSum(act, sy, limit) == ActSum(act0, sy, limit)
      invariant forall i: nat :: i < W ==> Held(cov[..], diff[..], i) == Lengths(segs, rule, x0 + i, y, k) / 16.0
    {
      var sy := SubY(y, k);
      act := Crossings(act, sy);
      ghost var m := CountOn(act, sy);
      assert forall limit :: ActSum(act, sy, limit) == Winding(segs, sy, limit);
      WindsBack(act, m, segs, rule, sy);
      lo, hi := Sweep(act, m, sy, rule, cov, diff, x0, W, lo, hi);
      forall i: nat | i < W ensures Held(cov[..], diff[..], i) == Lengths(segs, rule, x0 + i, y, k + 1) / 16.0 {
        SweptIsLength(act, m, segs, rule, sy, (x0 + i) as real, (x0 + i) as real + 1.0);
      }
      k := k + 1;
    }
  }

  lemma WindsBack(act: seq<Active>, m: nat, segs: seq<Seg>, rule: Rule, sy: real)
    requires Lined(act, m, sy) && Balanced(segs)
    requires forall limit :: ActSum(act, sy, limit) == Winding(segs, sy, limit)
    ensures m <= |act| && Wind(act, m) == 0
  {
    hide ActSum, Winding, Placed;
    SweptIsLength(act, m, segs, rule, sy, 0.0, 0.0);
  }

  /** The row's bytes, and both buffers cleared for the next row. */
  method TakeRow(cov: array<real>, diff: array<real>, W: nat, lo: nat, hi0: nat) returns (row: seq<int>)
    requires cov != diff && cov.Length == diff.Length == W + 2 && Bounded(cov[..], diff[..], W, lo, hi0)
    modifies cov, diff
    ensures |row| == W && AllZero(cov[..]) && AllZero(diff[..])
    ensures forall i: nat :: i < W ==> row[i] == Alpha(old(Held(cov[..], diff[..], i)))
    ensures forall i: nat :: i < W && 0.0 <= old(Held(cov[..], diff[..], i)) <= 1.0 ==> Nearest(row[i], old(Held(cov[..], diff[..], i)))
  {
    var hi := if hi0 > W then W else hi0;
    row := seq(W, _ => 0);
    forall c: real | 0.0 <= c <= 1.0 ensures Nearest(Alpha(c), c) { AlphaIsNearest(c); }
    if lo >= hi { return; }
    ghost var c, d := cov[..], diff[..];
    var run, i := 0.0, lo;
    RunOfZeros(d, lo);
    while i < hi
      invariant lo <= i <= hi && |row| == W && cov[..] == c && diff[..] == d
      invariant run == Run(d, i)
      invariant forall t: nat :: t < W ==> row[t] == if lo <= t < i then Alpha(Held(c, d, t)) else 0
    {
      run := run + diff[i];
      row := row[i := Alpha(cov[i] + run)];
      i := i + 1;
    }
    forall t | lo <= t < hi + 1 { cov[t] := 0.0; }
    forall t | lo <= t < hi + 2 { diff[t] := 0.0; }
  }

  // ---- All rows ----

  datatype ClipRect = ClipRect(x0: int, y0: int, x1: int, y1: int)

  /** The alpha bytes of the rows from `y0`, the columns from `x0`. */
  datatype Mask = Mask(x0: int, y0: int, rows: seq<seq<int>>)

  /** What is painted at a pixel. */
  function Painted(m: Mask, px: int, py: int): int
  {
    if 0 <= py - m.y0 < |m.rows| && 0 <= px - m.x0 < |m.rows[py - m.y0]| then m.rows[py - m.y0][px - m.x0] else 0
  }

  const HUGE := 1000000000000000000000000000000.0
  const RANGE := 10000000.0

  function Ceil(x: real): int { -((-x).Floor) }

  ghost predicate Covers(segs: seq<Seg>, minX: real, minY: real, maxX: real, maxY: real)
  {
    forall t :: 0 <= t < |segs| ==>
      && minX <= segs[t].x0 <= maxX && minX <= segs[t].x1 <= maxX
      && minY <= segs[t].y0 <= maxY && minY <= segs[t].y1 <= maxY
  }

  method Bounds(segs: seq<Seg>) returns (minX: real, minY: real, maxX: real, maxY: real)
    ensures Covers(segs, minX, minY, maxX, maxY)
  {
    minX, minY, maxX, maxY := HUGE, HUGE, -HUGE, -HUGE;
    var i: nat := 0;
    while i < |segs|
      invariant i <= |segs|
      invariant Covers(segs[..i], minX, minY, maxX, maxY)
    {
      var s := segs[i];
      minX, maxX := Min(minX, Min(s.x0, s.x1)), Max(maxX, Max(s.x0, s.x1));
      minY, maxY := Min(minY, Min(s.y0, s.y1)), Max(maxY, Max(s.y0, s.y1));
      i := i + 1;
    }
    assert segs[..i] == segs;
  }

  lemma FractionOf(t: real, d: real)
    requires 0.0 <= t <= 1.0 && d >= 0.0
    ensures 0.0 <= t * d <= d
  {
  }

  lemma ScaledWithin(d: real, u: real, v: real)
    requires v != 0.0 && ((0.0 <= u <= v) || (v <= u <= 0.0))
    ensures d >= 0.0 ==> 0.0 <= u * (d / v) <= d
    ensures d <= 0.0 ==> d <= u * (d / v) <= 0.0
  {
    var t := u / v;
    assert 0.0 <= t <= 1.0 by { assert t * v == u; }
    assert u * (d / v) == t * d by { assert (d / v) * v == d && t * v == u; }
    if d >= 0.0 {
      FractionOf(t, d);
    } else {
      FractionOf(t, -d);
      assert t * -d == -(t * d);
    }
  }

  lemma CrossBetween(s: Seg, sy: real)
    requires Sign(s, sy) != 0
    ensures Min(s.x0, s.x1) <= CrossX(s, sy) <= Max(s.x0, s.x1)
  {
    var d, u, v := s.x1 - s.x0, sy - s.y0, s.y1 - s.y0;
    ScaledWithin(d, u, v);
    var moved := u * (d / v);
    assert CrossX(s, sy) == s.x0 + moved;
    assert d >= 0.0 ==> 0.0 <= moved <= d;
    assert d < 0.0 ==> d <= moved <= 0.0;
  }

  lemma {:induction false} NoneReached(segs: seq<Seg>, sy: real, x: real)
    requires forall t :: 0 <= t < |segs| ==> Sign(segs[t], sy) != 0 ==> x < segs[t].x0 && x < segs[t].x1
    ensures Winding(segs, sy, Upto(x)) == 0
  {
    if segs == [] {
    } else {
      NoneReached(segs[..|segs| - 1], sy, x);
      var s := segs[|segs| - 1];
      if Sign(s, sy) != 0 { CrossBetween(s, sy); }
    }
  }

  lemma {:induction false} AllReached(segs: seq<Seg>, sy: real, x: real)
    requires forall t :: 0 <= t < |segs| ==> segs[t].x0 <= x && segs[t].x1 <= x
    ensures Winding(segs, sy, Upto(x)) == Winding(segs, sy, Everywhere)
  {
    if segs == [] {
    } else {
      AllReached(segs[..|segs| - 1], sy, x);
      var s := segs[|segs| - 1];
      if Sign(s, sy) != 0 { CrossBetween(s, sy); }
    }
  }

  /** Outside the segments' bounds nothing is covered. */
  lemma OutsideBounds(segs: seq<Seg>, rule: Rule, minX: real, minY: real, maxX: real, maxY: real, px: int, py: int)
    requires Balanced(segs) && Covers(segs, minX, minY, maxX, maxY)
    requires px as real + 1.0 <= minX || maxX <= px as real || py as real + 1.0 <= minY || maxY <= py as real
    ensures Coverage(segs, rule, px, py) == 0.0
  {
    hide Winding, Lengths, Sign;
    forall k, x: real | 0 <= k < SUB && px as real < x < px as real + 1.0
      ensures !Inside(segs, rule, SubY(py, k), x)
    {
      var sy := SubY(py, k);
      if maxX <= px as real {
        AllReached(segs, sy, x);
      } else {
        forall t | 0 <= t < |segs| && Sign(segs[t], sy) != 0 ensures x < segs[t].x0 && x < segs[t].x1 {
          NotOffRow(segs[t], sy, minY, maxY);
        }
        NoneReached(segs, sy, x);
      }
    }
    NothingCovered(segs, rule, px, py, SUB);
  }

  lemma NotOffRow(s: Seg, sy: real, minY: real, maxY: real)
    requires minY <= s.y0 <= maxY && minY <= s.y1 <= maxY && Sign(s, sy) != 0
    ensures minY <= sy < maxY
  {
  }

  ghost predicate RowIs(row: seq<int>, segs: seq<Seg>, rule: Rule, x0: int, W: nat, y: int)
  {
    |row| == W && forall i: nat :: i < W ==> row[i] == Alpha(Coverage(segs, rule, x0 + i, y))
  }

  predicate Blank(row: seq<int>, W: nat) { |row| == W && forall i :: 0 <= i < W ==> row[i] == 0 }

  /** A row no edge reaches stays as it is: zero. */
  lemma EmptyRow(row: seq<int>, segs: seq<Seg>, rule: Rule, x0: int, W: nat, y: int)
    requires Blank(row, W)
    requires forall sy: real, limit :: y as real <= sy < y as real + 1.0 ==> Winding(segs, sy, limit) == 0
    ensures RowIs(row, segs, rule, x0, W, y)
  {
    hide Winding, Lengths;
    forall i: nat | i < W ensures row[i] == Alpha(Coverage(segs, rule, x0 + i, y)) {
      NothingCovered(segs, rule, x0 + i, y, SUB);
    }
  }

  lemma RowWinding(act: seq<Active>, rest: seq<Edge>, segs: seq<Seg>, y: int, y1: int)
    requires y < y1 && Carried(act, rest, segs, y, y1)
    requires forall t :: 0 <= t < |rest| ==> rest[t].top >= y as real + 1.0
    ensures CrossLikeRow(act, segs, y)
  {
    hide ActSum, EdgeSum, Winding;
    forall sy: real, limit | y as real <= sy < y as real + 1.0 ensures ActSum(act, sy, limit) == Winding(segs, sy, limit) {
      NotYet(rest, sy, limit);
    }
  }

  lemma NoActive(row: seq<int>, segs: seq<Seg>, rule: Rule, x0: int, W: nat, y: int)
    requires Blank(row, W) && CrossLikeRow([], segs, y)
    ensures RowIs(row, segs, rule, x0, W, y)
  {
    hide Winding;
    forall sy: real, limit | y as real <= sy < y as real + 1.0 ensures Winding(segs, sy, limit) == 0 {
      assert ActSum([], sy, limit) == 0;
    }
    EmptyRow(row, segs, rule, x0, W, y);
  }

  /** Nothing active and nothing to come: no later row is reached. */
  lemma NoMoreRows(row: seq<int>, segs: seq<Seg>, rule: Rule, x0: int, W: nat, y: int, y1: int)
    requires Blank(row, W) && Carried([], [], segs, y, y1)
    ensures forall r: int :: y <= r < y1 ==> RowIs(row, segs, rule, x0, W, r)
  {
    hide Winding, RowIs;
    forall r: int | y <= r < y1 ensures RowIs(row, segs, rule, x0, W, r) {
      forall sy: real, limit | r as real <= sy < r as real + 1.0 ensures Winding(segs, sy, limit) == 0 {
        assert ActSum([], sy, limit) == 0 && EdgeSum([], sy, limit) == 0;
      }
      EmptyRow(row, segs, rule, x0, W, r);
    }
  }

  lemma BothZero(c: seq<real>, d: seq<real>)
    requires (forall t :: 0 <= t < |c| ==> c[t] == 0.0) && (forall t :: 0 <= t < |d| ==> d[t] == 0.0)
    ensures AllZero(c) && AllZero(d)
  {
  }

  lemma CarriedAtFirst(table: seq<Edge>, edges: seq<Edge>, segs: seq<Seg>, y0: int, y1: int)
    requires SameWinding(table, segs, y0, y1)
    requires SameSums(edges, table)
    ensures Carried([], edges[0..], segs, y0, y1)
  {
    hide EdgeSum, Winding;
    assert edges[0..] == edges;
    forall sy: real, limit ensures ActSum([], sy, limit) == 0 {}
  }

  /** The same edges in another order, one row further down. */
  lemma CarriedOn(was: seq<Active>, act: seq<Active>, rest: seq<Edge>, segs: seq<Seg>, y: int, y1: int)
    requires Carried(was, rest, segs, y, y1)
    requires forall sy: real, limit :: ActSum(act, sy, limit) == ActSum(was, sy, limit)
    ensures Carried(act, rest, segs, y + 1, y1)
  {
    hide ActSum, EdgeSum, Winding;
  }

  lemma RowTaken(row: seq<int>, c: seq<real>, d: seq<real>, segs: seq<Seg>, rule: Rule, x0: int, W: nat, y: int)
    requires |row| == W && |c| == |d| == W + 2
    requires forall i: nat :: i < W ==> Held(c, d, i) == Coverage(segs, rule, x0 + i, y)
    requires forall i: nat :: i < W ==> row[i] == Alpha(Held(c, d, i))
    ensures RowIs(row, segs, rule, x0, W, y)
  {
    hide Held, Coverage, Alpha;
  }

  /** All rows between `y0` and `y1`. */
  method DrawRows(segs: seq<Seg>, rule: Rule, x0: int, W: nat, y0: int, y1: int) returns (rows: seq<seq<int>>)
    requires Balanced(segs) && y0 < y1
    ensures |rows| == y1 - y0
    ensures forall r: nat :: r < |rows| ==> RowIs(rows[r], segs, rule, x0, W, y0 + r)
  {
    hide Winding, RowIs, Held, Bounded, ActSum, EdgeSum, Coverage, AllZero, Carried, SameWinding, SameSums, CrossLikeRow;
    var table := EdgeTable(segs, y0, y1);
    var edges := SortByTop(table);
    var cov, diff := new real[W + 2](_ => 0.0), new real[W + 2](_ => 0.0);
    assert AllZero(cov[..]) && AllZero(diff[..]) by { BothZero(cov[..], diff[..]); }
    var act: seq<Active>, next: nat := [], 0;
    rows := seq(y1 - y0, _ => seq(W, _ => 0));
    ghost var blank := rows[0];
    assert Carried(act, edges[next..], segs, y0, y1) by { CarriedAtFirst(table, edges, segs, y0, y1); }
    var y := y0;
    while y < y1
      invariant y0 <= y <= y1 && |rows| == y1 - y0
      invariant next <= |edges| && ByTop(edges) && Carried(act, edges[next..], segs, y, y1)
      invariant AllZero(cov[..]) && AllZero(diff[..])
      invariant forall r: nat :: r < y - y0 ==> RowIs(rows[r], segs, rule, x0, W, y0 + r)
      invariant forall r: nat :: y - y0 <= r < |rows| ==> rows[r] == blank
    {
      act, next := NextRow(act, edges, next, segs, y, y1);
      RowWinding(act, edges[next..], segs, y, y1);
      if act == [] {
        NoActive(blank, segs, rule, x0, W, y);
        if next >= |edges| {
          NoMoreRows(blank, segs, rule, x0, W, y, y1);
          y := y1;
          break;
        }
        CarriedOn(act, act, edges[next..], segs, y, y1);
        y := y + 1;
        continue;
      }
      ghost var was := act;
      var lo, hi;
      act, lo, hi := Accumulate(act, segs, rule, y, cov, diff, x0, W);
      CarriedOn(was, act, edges[next..], segs, y, y1);
      ghost var c, d := cov[..], diff[..];
      var row := TakeRow(cov, diff, W, lo, hi);
      assert RowIs(row, segs, rule, x0, W, y) by { RowTaken(row, c, d, segs, rule, x0, W, y); }
      rows := rows[y - y0 := row];
      y := y + 1;
    }
  }

  /** Every pixel of the clip is painted with its coverage, by either rule. */
  method Rasterize(segs: seq<Seg>, rule: Rule, clip: ClipRect) returns (mask: Mask)
    requires Balanced(segs)
    requires -RANGE <= clip.x0 as real && clip.x1 as real <= RANGE && -RANGE <= clip.y0 as real && clip.y1 as real <= RANGE
    ensures forall px, py :: clip.x0 <= px < clip.x1 && clip.y0 <= py < clip.y1 ==>
      && Painted(mask, px, py) == Alpha(Coverage(segs, rule, px, py))
      && Nearest(Painted(mask, px, py), Coverage(segs, rule, px, py))
  {
    hide Balanced, Covers, Coverage, Alpha, Nearest;
    mask := Mask(0, 0, []);
    var minX, minY, maxX, maxY := Bounds(segs);
    var y0, y1 := MaxInt(clip.y0, Max(minY, -RANGE).Floor), MinInt(clip.y1, Ceil(Min(maxY, RANGE)));
    var x0, x1 := MaxInt(clip.x0, Max(minX, -RANGE).Floor), MinInt(clip.x1, Ceil(Min(maxX, RANGE)));
    NothingIsClear();
    forall px, py ensures Nearest(Alpha(Coverage(segs, rule, px, py)), Coverage(segs, rule, px, py)) {
      CoverageWithin(segs, rule, px, py);
      AlphaIsNearest(Coverage(segs, rule, px, py));
    }
    forall px, py | clip.x0 <= px < clip.x1 && clip.y0 <= py < clip.y1 && !(x0 <= px < x1 && y0 <= py < y1)
      ensures Alpha(Coverage(segs, rule, px, py)) == 0
    {
      OutsideBounds(segs, rule, minX, minY, maxX, maxY, px, py);
    }
    if segs == [] || x1 <= x0 || y1 <= y0 {
      if segs == [] { NoSegments(rule, clip); }
      return;
    }
    var rows := DrawRows(segs, rule, x0, x1 - x0, y0, y1);
    mask := Mask(x0, y0, rows);
    forall px, py | x0 <= px < x1 && y0 <= py < y1
      ensures Painted(mask, px, py) == Alpha(Coverage(segs, rule, px, py))
    {
      RowAt(rows[py - y0], segs, rule, x0, x1 - x0, py, px);
    }
  }

  function MaxInt(a: int, b: int): int { if a < b then b else a }

  function MinInt(a: int, b: int): int { if a < b then a else b }

  lemma NothingIsClear()
    ensures Alpha(0.0) == 0
  {
  }

  lemma NoSegments(rule: Rule, clip: ClipRect)
    ensures forall px, py :: Alpha(Coverage([], rule, px, py)) == 0
  {
    forall px: int, py: int ensures Coverage([], rule, px, py) == 0.0 { NothingCovered([], rule, px, py, SUB); }
  }

  lemma RowAt(row: seq<int>, segs: seq<Seg>, rule: Rule, x0: int, W: nat, y: int, px: int)
    requires RowIs(row, segs, rule, x0, W, y) && x0 <= px < x0 + W
    ensures |row| == W && row[px - x0] == Alpha(Coverage(segs, rule, px, y))
  {
    hide Coverage, Alpha;
    assert x0 + (px - x0) == px;
  }

  /** Filling closed polygons. */
  method FillPolygons(polys: seq<seq<Point>>, rule: Rule, clip: ClipRect) returns (mask: Mask)
    requires -RANGE <= clip.x0 as real && clip.x1 as real <= RANGE && -RANGE <= clip.y0 as real && clip.y1 as real <= RANGE
    ensures forall px, py :: clip.x0 <= px < clip.x1 && clip.y0 <= py < clip.y1 ==>
      && Painted(mask, px, py) == Alpha(Coverage(AllSides(polys), rule, px, py))
      && Nearest(Painted(mask, px, py), Coverage(AllSides(polys), rule, px, py))
  {
    var segs := FillSegs(polys);
    ClosedPolygonsBalance(polys);
    mask := Rasterize(segs, rule, clip);
  }

  // ---- A rectangle ----

  function Rectangle(l: real, t: real, r: real, b: real): seq<Point> { [Point(l, t), Point(r, t), Point(r, b), Point(l, b)] }

  /** How much of pixel column `px` lies between `l` and `r`. */
  function WidthWithin(l: real, r: real, px: int): real
  {
    var a, b := if l < px as real then px as real else l, if r > px as real + 1.0 then px as real + 1.0 else r;
    if a < b then b - a else 0.0
  }

  /** How many of the first `k` sixteenths of pixel row `py` have their middle between `t` and `b`. */
  function RowsBetween(t: real, b: real, py: int, k: nat): nat
  {
    if k == 0 then 0
    else RowsBetween(t, b, py, k - 1) + if t <= py as real + (2.0 * (k - 1) as real + 1.0) / 32.0 < b then 1 else 0
  }

  lemma RectangleSides(l: real, t: real, r: real, b: real)
    requires t < b
    ensures AllSides([Rectangle(l, t, r, b)]) == [Seg(r, t, r, b), Seg(l, b, l, t)]
  {
    var q := Rectangle(l, t, r, b);
    assert Sides(q, 0) == [];
    assert Sides(q, 1) == [];
    assert Sides(q, 2) == [Seg(r, t, r, b)];
    assert Sides(q, 3) == [Seg(r, t, r, b)];
    assert Sides(q, 4) == [Seg(r, t, r, b), Seg(l, b, l, t)];
    assert [q][..0] == [];
  }

  lemma RectangleInside(l: real, t: real, r: real, b: real, rule: Rule, sy: real, x: real)
    requires l <= r && t < b
    ensures Inside([Seg(r, t, r, b), Seg(l, b, l, t)], rule, sy, x) <==> t <= sy < b && l <= x < r
  {
    var right, left := Seg(r, t, r, b), Seg(l, b, l, t);
    TwoTurns(right, left, sy, Upto(x));
    if t <= sy < b {
      assert CrossX(right, sy) == r && CrossX(left, sy) == l;
    }
  }

  lemma TwoTurns(a: Seg, b: Seg, sy: real, limit: Limit)
    ensures Winding([a, b], sy, limit) == Turn(a, sy, limit) + Turn(b, sy, limit)
  {
    hide Turn;
    assert [a][..0] == [] && [a, b][..1] == [a];
    assert Winding([a], sy, limit) == Winding([], sy, limit) + Turn(a, sy, limit);
    assert Winding([a, b], sy, limit) == Winding([a], sy, limit) + Turn(b, sy, limit);
  }

  lemma RectangleLength(l: real, t: real, r: real, b: real, rule: Rule, sy: real, px: int)
    requires l <= r && t < b
    ensures Length([Seg(r, t, r, b), Seg(l, b, l, t)], rule, sy, px as real, px as real + 1.0)
            == if t <= sy < b then WidthWithin(l, r, px) else 0.0
  {
    hide Inside, Length;
    var segs := [Seg(r, t, r, b), Seg(l, b, l, t)];
    var x0, x1 := px as real, px as real + 1.0;
    forall x: real ensures Inside(segs, rule, sy, x) <==> t <= sy < b && l <= x < r { RectangleInside(l, t, r, b, rule, sy, x); }
    var p, q := if l < x0 then x0 else if l > x1 then x1 else l, if r < x0 then x0 else if r > x1 then x1 else r;
    var marks, v := [x0, p, q, x1], [false, t <= sy < b, false];
    assert Steps(segs, rule, sy, marks, v);
    ThreePieces(x0, p, q, x1, t <= sy < b);
    assert Measures(segs, rule, sy, x0, x1, if t <= sy < b then q - p else 0.0, marks, v);
    LengthIs(segs, rule, sy, x0, x1, if t <= sy < b then q - p else 0.0);
  }

  lemma ThreePieces(a: real, p: real, q: real, b: real, inside: bool)
    ensures Total([a, p, q, b], [false, inside, false]) == if inside then q - p else 0.0
  {
    var m, v := [a, p, q, b], [false, inside, false];
    assert m[..3] == [a, p, q] && v[..2] == [false, inside] && m[..3][..2] == [a, p] && v[..2][..1] == [false];
    assert [a, p][..1] == [a] && [false][..0] == [];
    assert Total([a], []) == 0.0;
    assert Total([a, p], [false]) == 0.0;
    assert Total([a, p, q], [false, inside]) == if inside then q - p else 0.0;
  }

  lemma {:induction false} RectangleLengths(l: real, t: real, r: real, b: real, rule: Rule, px: int, py: int, k: nat)
    requires l <= r && t < b
    ensures Lengths([Seg(r, t, r, b), Seg(l, b, l, t)], rule, px, py, k) == RowsBetween(t, b, py, k) as real * WidthWithin(l, r, px)
  {
    hide Length, WidthWithin;
    if k == 0 {
    } else {
      RectangleLengths(l, t, r, b, rule, px, py, k - 1);
      RectangleLength(l, t, r, b, rule, SubY(py, k - 1), px);
      assert SubY(py, k - 1) == py as real + (2.0 * (k - 1) as real + 1.0) / 32.0;
    }
  }

  /** A rectangle covers of a pixel its share of the width, for each sixteenth of the height whose middle it reaches. */
  lemma RectangleCovers(l: real, t: real, r: real, b: real, rule: Rule, px: int, py: int)
    requires l <= r && t < b
    ensures Coverage(AllSides([Rectangle(l, t, r, b)]), rule, px, py) == RowsBetween(t, b, py, 16) as real * WidthWithin(l, r, px) / 16.0
  {
    RectangleSides(l, t, r, b);
    RectangleLengths(l, t, r, b, rule, px, py, SUB);
  }
}
