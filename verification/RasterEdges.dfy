/**
 * From closed polygons to the sorted crossings of one sub-scanline
 * (src/gfx/raster.cpp fillSegs; src/gfx/blend.cpp edge table and active edges).
 */
module RasterEdges {
  import opened RasterSpec

  // ---- Closed polygons ----

  datatype Point = Point(x: real, y: real)

  /** The first `n` sides of a closed polygon, level ones left out. */
  function Sides(q: seq<Point>, n: nat): seq<Seg>
    requires n <= |q|
  {
    if n == 0 then []
    else
      var a, b := q[n - 1], q[n % |q|];
      Sides(q, n - 1) + if a.y != b.y then [Seg(a.x, a.y, b.x, b.y)] else []
  }

  function AllSides(polys: seq<seq<Point>>): seq<Seg>
  {
    if polys == [] then [] else AllSides(polys[..|polys| - 1]) + Sides(polys[|polys| - 1], |polys[|polys| - 1]|)
  }

  method FillSegs(polys: seq<seq<Point>>) returns (segs: seq<Seg>)
    ensures segs == AllSides(polys)
  {
    segs := [];
    var k: nat := 0;
    while k < |polys|
      invariant k <= |polys| && segs == AllSides(polys[..k])
    {
      var q := polys[k];
      ghost var before := segs;
      var i: nat := 0;
      while i < |q|
        invariant i <= |q| && segs == before + Sides(q, i)
      {
        var a, b := q[i], q[(i + 1) % |q|];
        if a.y != b.y { segs := segs + [Seg(a.x, a.y, b.x, b.y)]; }
        i := i + 1;
      }
      assert polys[..k + 1][..k] == polys[..k];
      k := k + 1;
    }
    assert polys[..k] == polys;
  }

  lemma {:induction false} WindingConcat(a: seq<Seg>, b: seq<Seg>, sy: real, limit: Limit)
    ensures Winding(a + b, sy, limit) == Winding(a, sy, limit) + Winding(b, sy, limit)
  {
    if b == [] {
      assert a + b == a;
    } else {
      WindingConcat(a, b[..|b| - 1], sy, limit);
      assert (a + b)[..|a + b| - 1] == a + b[..|b| - 1];
    }
  }

  function Below(p: Point, sy: real): int { if p.y > sy then 1 else 0 }

  lemma SideTurn(a: Point, b: Point, sy: real)
    requires a.y != b.y
    ensures Winding([Seg(a.x, a.y, b.x, b.y)], sy, Everywhere) == Below(b, sy) - Below(a, sy)
  {
    var s := Seg(a.x, a.y, b.x, b.y);
    assert [s][..0] == [];
  }

  lemma OneMoreSide(q: seq<Point>, n: nat, sy: real)
    requires 0 < n <= |q|
    ensures Winding(Sides(q, n), sy, Everywhere)
            == Winding(Sides(q, n - 1), sy, Everywhere) + Below(q[n % |q|], sy) - Below(q[n - 1], sy)
  {
    hide Winding;
    var a, b := q[n - 1], q[n % |q|];
    if a.y != b.y {
      WindingConcat(Sides(q, n - 1), [Seg(a.x, a.y, b.x, b.y)], sy, Everywhere);
      SideTurn(a, b, sy);
    } else {
      assert Sides(q, n) == Sides(q, n - 1);
    }
  }

  lemma {:induction false} SidesWinding(q: seq<Point>, n: nat, sy: real)
    requires 0 < |q| && n <= |q|
    ensures Winding(Sides(q, n), sy, Everywhere) == Below(q[n % |q|], sy) - Below(q[0], sy)
  {
    hide Winding, Below;
    if n == 0 {
      SmallRemainder(0, |q|);
      NoSides(sy);
    } else {
      hide Sides;
      SidesWinding(q, n - 1, sy);
      OneMoreSide(q, n, sy);
      SmallRemainder(n - 1, |q|);
    }
  }

  lemma SmallRemainder(a: nat, b: nat)
    requires a < b
    ensures a % b == a
  {
  }

  lemma NoSides(sy: real)
    ensures Winding([], sy, Everywhere) == 0
  {
  }

  /** Every line is crossed as often downwards as upwards. */
  lemma {:induction false} ClosedPolygonsBalance(polys: seq<seq<Point>>)
    ensures Balanced(AllSides(polys))
  {
    if polys == [] {
    } else {
      var rest, q := polys[..|polys| - 1], polys[|polys| - 1];
      ClosedPolygonsBalance(rest);
      forall sy: real ensures Winding(AllSides(polys), sy, Everywhere) == 0 {
        WindingConcat(AllSides(rest), Sides(q, |q|), sy, Everywhere);
        if q != [] { SidesWinding(q, |q|, sy); }
      }
    }
  }

  // ---- Edges ----

  /** A segment turned to run down: `x` at `top`, `dxdy` per unit of y. */
  datatype Edge = Edge(x: real, dxdy: real, top: real, bot: real, dir: int)

  predicate Spans(e: Edge, sy: real) { e.top <= sy < e.bot }

  function EdgeX(e: Edge, sy: real): real { e.x + (sy - e.top) * e.dxdy }

  function EdgeTurn(e: Edge, sy: real, limit: Limit): int
  {
    if Spans(e, sy) && Reaches(EdgeX(e, sy), limit) then e.dir else 0
  }

  function EdgeSum(edges: seq<Edge>, sy: real, limit: Limit): int
  {
    if edges == [] then 0
    else EdgeSum(edges[..|edges| - 1], sy, limit) + EdgeTurn(edges[|edges| - 1], sy, limit)
  }

  function EdgeOf(s: Seg): Edge
    requires s.y0 != s.y1
  {
    var down := s.y1 > s.y0;
    var (ax, ay) := if down then (s.x0, s.y0) else (s.x1, s.y1);
    var (bx, bot) := if down then (s.x1, s.y1) else (s.x0, s.y0);
    Edge(ax, (bx - ax) / (bot - ay), ay, bot, if down then 1 else -1)
  }

  lemma SlopeFromEitherEnd(x0: real, y0: real, x1: real, y1: real, sy: real)
    requires y0 != y1
    ensures (x0 - x1) / (y0 - y1) == (x1 - x0) / (y1 - y0)
    ensures x1 + (sy - y1) * ((x0 - x1) / (y0 - y1)) == x0 + (sy - y0) * ((x1 - x0) / (y1 - y0))
  {
    var d := (x1 - x0) / (y1 - y0);
    assert d * (y1 - y0) == x1 - x0;
    assert d * (y0 - y1) == x0 - x1;
    assert (x0 - x1) / (y0 - y1) == d;
    assert (sy - y1) * d == (sy - y0) * d - (y1 - y0) * d;
  }

  lemma EdgeOfTurns(s: Seg, sy: real, limit: Limit)
    requires s.y0 != s.y1
    ensures EdgeTurn(EdgeOf(s), sy, limit) == Turn(s, sy, limit)
  {
    var e := EdgeOf(s);
    assert Spans(e, sy) <==> Sign(s, sy) != 0;
    if Sign(s, sy) != 0 {
      EdgeOnSegment(s, sy);
      assert e.dir == Sign(s, sy);
    }
  }

  lemma EdgeOnSegment(s: Seg, sy: real)
    requires Sign(s, sy) != 0
    ensures EdgeX(EdgeOf(s), sy) == CrossX(s, sy)
  {
    if s.y1 <= s.y0 { SlopeFromEitherEnd(s.x0, s.y0, s.x1, s.y1, sy); }
  }

  /** The table crosses every line of the rows like the segments. */
  ghost predicate SameWinding(edges: seq<Edge>, segs: seq<Seg>, y0: int, y1: int)
  {
    forall sy: real, limit :: y0 as real <= sy < y1 as real ==> EdgeSum(edges, sy, limit) == Winding(segs, sy, limit)
  }

  predicate OffRows(s: Seg, y0: int, y1: int)
  {
    s.y0 == s.y1 || BottomOf(s) <= y0 as real || TopOf(s) >= y1 as real
  }

  lemma OffSide(edges: seq<Edge>, segs: seq<Seg>, s: Seg, y0: int, y1: int)
    requires SameWinding(edges, segs, y0, y1) && OffRows(s, y0, y1)
    ensures SameWinding(edges, segs + [s], y0, y1)
  {
    hide EdgeSum, CrossX;
    assert (segs + [s])[..|segs|] == segs;
    forall sy: real, limit | y0 as real <= sy < y1 as real
      ensures EdgeSum(edges, sy, limit) == Winding(segs + [s], sy, limit)
    {
      assert Sign(s, sy) == 0;
    }
  }

  lemma OnSide(edges: seq<Edge>, segs: seq<Seg>, s: Seg, y0: int, y1: int)
    requires SameWinding(edges, segs, y0, y1) && s.y0 != s.y1
    ensures SameWinding(edges + [EdgeOf(s)], segs + [s], y0, y1)
  {
    hide EdgeOf, EdgeTurn, Turn;
    assert (segs + [s])[..|segs|] == segs && (edges + [EdgeOf(s)])[..|edges|] == edges;
    forall sy: real, limit | y0 as real <= sy < y1 as real
      ensures EdgeSum(edges + [EdgeOf(s)], sy, limit) == Winding(segs + [s], sy, limit)
    {
      EdgeOfTurns(s, sy, limit);
    }
  }

  method EdgeTable(segs: seq<Seg>, y0: int, y1: int) returns (edges: seq<Edge>)
    ensures SameWinding(edges, segs, y0, y1)
  {
    hide EdgeSum, Winding, SameWinding;
    edges := [];
    var i: nat := 0;
    assert SameWinding([], segs[..0], y0, y1) by { NoneYet(y0, y1); }
    while i < |segs|
      invariant i <= |segs| && SameWinding(edges, segs[..i], y0, y1)
    {
      var s := segs[i];
      assert segs[..i + 1] == segs[..i] + [s];
      i := i + 1;
      if s.y0 == s.y1 { OffSide(edges, segs[..i - 1], s, y0, y1); continue; }
      var down := s.y1 > s.y0;
      var ax, ay := if down then s.x0 else s.x1, if down then s.y0 else s.y1;
      var bx, bot := if down then s.x1 else s.x0, if down then s.y1 else s.y0;
      if bot <= y0 as real || ay >= y1 as real { OffSide(edges, segs[..i - 1], s, y0, y1); continue; }
      OnSide(edges, segs[..i - 1], s, y0, y1);
      edges := edges + [Edge(ax, (bx - ax) / (bot - ay), ay, bot, if down then 1 else -1)];
    }
    assert segs[..i] == segs;
  }

  lemma NoneYet(y0: int, y1: int)
    ensures SameWinding([], [], y0, y1)
  {
  }

  function TopOf(s: Seg): real { if s.y1 > s.y0 then s.y0 else s.y1 }

  function BottomOf(s: Seg): real { if s.y1 > s.y0 then s.y1 else s.y0 }

  lemma {:induction false} EdgeSumConcat(a: seq<Edge>, b: seq<Edge>, sy: real, limit: Limit)
    ensures EdgeSum(a + b, sy, limit) == EdgeSum(a, sy, limit) + EdgeSum(b, sy, limit)
  {
    hide EdgeTurn;
    if b == [] {
      assert a + b == a;
    } else {
      EdgeSumConcat(a, b[..|b| - 1], sy, limit);
      assert (a + b)[..|a + b| - 1] == a + b[..|b| - 1];
    }
  }

  lemma EdgeSumInsert(a: seq<Edge>, e: Edge, b: seq<Edge>, sy: real, limit: Limit)
    ensures EdgeSum(a + [e] + b, sy, limit) == EdgeSum(a + b, sy, limit) + EdgeTurn(e, sy, limit)
    ensures EdgeSum([e] + b, sy, limit) == EdgeTurn(e, sy, limit) + EdgeSum(b, sy, limit)
  {
    hide EdgeTurn;
    EdgeSumConcat(a + [e], b, sy, limit);
    EdgeSumConcat(a, [e], sy, limit);
    EdgeSumConcat([e], b, sy, limit);
    EdgeSumConcat(a, b, sy, limit);
    assert EdgeSum([e], sy, limit) == EdgeTurn(e, sy, limit) by { assert [e][..0] == []; }
  }

  predicate ByTop(edges: seq<Edge>)
  {
    forall i, j :: 0 <= i < j < |edges| ==> edges[i].top <= edges[j].top
  }

  ghost predicate SameSums(a: seq<Edge>, b: seq<Edge>)
  {
    forall sy: real, limit :: EdgeSum(a, sy, limit) == EdgeSum(b, sy, limit)
  }

  lemma SameSumsInserted(a: seq<Edge>, e: Edge, b: seq<Edge>, done: seq<Edge>)
    requires SameSums(a + b, done)
    ensures SameSums(a + [e] + b, done + [e])
  {
    hide EdgeSum, EdgeTurn;
    assert done + [e] + [] == done + [e] && done + [] == done;
    forall sy: real, limit ensures EdgeSum(a + [e] + b, sy, limit) == EdgeSum(done + [e], sy, limit) {
      EdgeSumInsert(a, e, b, sy, limit);
      EdgeSumInsert(done, e, [], sy, limit);
    }
  }

  /** Stands for the C library's qsort with the comparison by top. */
  method SortByTop(edges: seq<Edge>) returns (sorted: seq<Edge>)
    ensures ByTop(sorted) && multiset(sorted) == multiset(edges) && SameSums(sorted, edges)
  {
    hide EdgeSum, ByTop, SameSums;
    sorted := [];
    var i: nat := 0;
    assert edges[..0] == [];
    assert ByTop([]) && SameSums([], []) by { EmptySorted(); }
    while i < |edges|
      invariant i <= |edges| && ByTop(sorted)
      invariant multiset(sorted) == multiset(edges[..i])
      invariant SameSums(sorted, edges[..i])
    {
      var e, j: nat := edges[i], |sorted|;
      while j > 0 && sorted[j - 1].top > e.top
        invariant j <= |sorted| && forall k :: j <= k < |sorted| ==> sorted[k].top > e.top
      {
        j := j - 1;
      }
      var a, b := sorted[..j], sorted[j..];
      assert a + b == sorted;
      assert edges[..i + 1] == edges[..i] + [e];
      SameSumsInserted(a, e, b, edges[..i]);
      Inserted(a, e, b);
      sorted := a + [e] + b;
      i := i + 1;
    }
    assert edges[..i] == edges;
  }

  lemma EmptySorted()
    ensures ByTop([]) && SameSums([], [])
  {
  }

  lemma Inserted(a: seq<Edge>, e: Edge, b: seq<Edge>)
    requires ByTop(a + b) && (a != [] ==> a[|a| - 1].top <= e.top) && (forall k :: 0 <= k < |b| ==> b[k].top > e.top)
    ensures ByTop(a + [e] + b)
  {
    var s, t := a + b, a + [e] + b;
    forall i | 0 <= i < |a| ensures t[i].top <= e.top {
      assert s[i] == a[i] && s[|a| - 1] == a[|a| - 1];
    }
    forall i, j | 0 <= i < j < |t| ensures t[i].top <= t[j].top {
      if i != |a| && j != |a| {
        assert t[i] == s[if i < |a| then i else i - 1] && t[j] == s[if j < |a| then j else j - 1];
      }
    }
  }

  // ---- Active edges ----

  /** An edge in use on a row; `on` false stands for the source's infinite `cx`. */
  datatype Active = Active(on: bool, cx: real, e: Edge)

  function ActSum(act: seq<Active>, sy: real, limit: Limit): int
  {
    if act == [] then 0
    else ActSum(act[..|act| - 1], sy, limit) + EdgeTurn(act[|act| - 1].e, sy, limit)
  }

  lemma {:induction false} ActSumConcat(a: seq<Active>, b: seq<Active>, sy: real, limit: Limit)
    ensures ActSum(a + b, sy, limit) == ActSum(a, sy, limit) + ActSum(b, sy, limit)
  {
    hide EdgeTurn;
    if b == [] {
      assert a + b == a;
    } else {
      ActSumConcat(a, b[..|b| - 1], sy, limit);
      assert (a + b)[..|a + b| - 1] == a + b[..|b| - 1];
    }
  }

  /** On and below row `y`, active edges and those to come cross like the segments. */
  ghost predicate Carried(act: seq<Active>, rest: seq<Edge>, segs: seq<Seg>, y: int, y1: int)
  {
    forall sy: real, limit :: y as real <= sy < y1 as real ==>
      ActSum(act, sy, limit) + EdgeSum(rest, sy, limit) == Winding(segs, sy, limit)
  }

  method DropEnded(act0: seq<Active>, y: int) returns (act: seq<Active>)
    ensures forall sy: real, limit :: y as real <= sy ==> ActSum(act, sy, limit) == ActSum(act0, sy, limit)
    ensures forall t :: 0 <= t < |act| ==> act[t].e.bot > y as real
  {
    hide ActSum;
    act := act0;
    var n: nat, i: nat := 0, 0;
    assert act[..0] == act0[..0];
    while i < |act|
      invariant n <= i <= |act| == |act0|
      invariant forall t :: i <= t < |act| ==> act[t] == act0[t]
      invariant forall sy: real, limit :: y as real <= sy ==> ActSum(act[..n], sy, limit) == ActSum(act0[..i], sy, limit)
      invariant forall t :: 0 <= t < n ==> act[t].e.bot > y as real
    {
      ghost var kept := act[..n];
      forall sy: real, limit | y as real <= sy
        ensures ActSum(act0[..i + 1], sy, limit) == ActSum(act0[..i], sy, limit) + EdgeTurn(act0[i].e, sy, limit)
        ensures ActSum(kept + [act0[i]], sy, limit) == ActSum(kept, sy, limit) + EdgeTurn(act0[i].e, sy, limit)
      {
        assert act0[..i + 1] == act0[..i] + [act0[i]];
        ActSumPush(act0[..i], act0[i], sy, limit);
        ActSumPush(kept, act0[i], sy, limit);
      }
      if act[i].e.bot > y as real {
        act := act[n := act[i]];
        n := n + 1;
        assert act[..n] == kept + [act0[i]];
      }
      i := i + 1;
    }
    assert act0[..i] == act0;
    act := act[..n];
  }

  lemma ActSumPush(a: seq<Active>, v: Active, sy: real, limit: Limit)
    ensures ActSum(a + [v], sy, limit) == ActSum(a, sy, limit) + EdgeTurn(v.e, sy, limit)
  {
    hide EdgeTurn;
    assert (a + [v])[..|a|] == a;
  }

  /** Row `y` begins: ended edges leave, those that start before its end come in. */
  method NextRow(act0: seq<Active>, edges: seq<Edge>, next0: nat, segs: seq<Seg>, y: int, y1: int)
    returns (act: seq<Active>, next: nat)
    requires next0 <= |edges| && ByTop(edges) && Carried(act0, edges[next0..], segs, y, y1)
    ensures next <= |edges| && Carried(act, edges[next..], segs, y, y1)
    ensures forall t :: next <= t < |edges| ==> edges[t].top >= y as real + 1.0
  {
    hide ActSum, EdgeSum, EdgeTurn;
    act := DropEnded(act0, y);
    next := next0;
    while next < |edges| && edges[next].top < y as real + 1.0
      invariant next <= |edges| && Carried(act, edges[next..], segs, y, y1)
    {
      var e := edges[next];
      assert edges[next..] == [e] + edges[next + 1..];
      forall sy: real, limit
        ensures ActSum(act + [Active(false, 0.0, e)], sy, limit) + EdgeSum(edges[next + 1..], sy, limit)
                == ActSum(act, sy, limit) + EdgeSum(edges[next..], sy, limit)
      {
        ActSumPush(act, Active(false, 0.0, e), sy, limit);
        EdgeSumInsert([], e, edges[next + 1..], sy, limit);
      }
      act := act + [Active(false, 0.0, e)];
      next := next + 1;
    }
  }

  lemma {:induction false} NotYet(rest: seq<Edge>, sy: real, limit: Limit)
    requires forall t :: 0 <= t < |rest| ==> rest[t].top > sy
    ensures EdgeSum(rest, sy, limit) == 0
  {
    if rest == [] {
    } else {
      NotYet(rest[..|rest| - 1], sy, limit);
    }
  }

  // ---- The crossings of a line, from left to right ----

  predicate Placed(a: Active, sy: real)
  {
    a.on == Spans(a.e, sy) && (a.on ==> a.cx == EdgeX(a.e, sy))
  }

  predicate NotAfter(a: Active, b: Active) { !b.on || (a.on && a.cx <= b.cx) }

  predicate ByX(act: seq<Active>, n: nat)
    requires n <= |act|
  {
    forall i, j :: 0 <= i < j < n ==> NotAfter(act[i], act[j])
  }

  method PlaceAll(act0: seq<Active>, sy: real) returns (act: seq<Active>)
    ensures |act| == |act0|
    ensures forall t :: 0 <= t < |act| ==> act[t].e == act0[t].e && Placed(act[t], sy)
  {
    act := act0;
    var i: nat := 0;
    while i < |act|
      invariant i <= |act| == |act0|
      invariant forall t :: 0 <= t < |act| ==> act[t].e == act0[t].e
      invariant forall t :: 0 <= t < i ==> Placed(act[t], sy)
    {
      var e := act[i].e;
      act := act[i := if sy >= e.top && sy < e.bot then Active(true, e.x + (sy - e.top) * e.dxdy, e) else Active(false, 0.0, e)];
      i := i + 1;
    }
  }

  lemma {:induction false} SameEdgesSameSum(a: seq<Active>, b: seq<Active>, sy: real, limit: Limit)
    requires |a| == |b| && forall t :: 0 <= t < |a| ==> a[t].e == b[t].e
    ensures ActSum(a, sy, limit) == ActSum(b, sy, limit)
  {
    hide EdgeTurn;
    if a == [] {
    } else {
      SameEdgesSameSum(a[..|a| - 1], b[..|b| - 1], sy, limit);
    }
  }

  /** `act` with its element `i` moved down to `j`. */
  function Moved(act: seq<Active>, j: nat, i: nat): seq<Active>
    requires j <= i < |act|
  {
    act[..j] + [act[i]] + act[j..i] + act[i + 1..]
  }

  method InsertDown(act0: seq<Active>, i: nat) returns (act: seq<Active>, ghost j: nat)
    requires i < |act0| && ByX(act0, i)
    ensures j <= i && act == Moved(act0, j, i) && ByX(act, i + 1)
  {
    act := act0;
    if i == 0 || NotAfter(act[i - 1], act[i]) {
      j := i;
      assert act == Moved(act0, i, i);
      return;
    }
    var v := act[i];
    var k: nat := i;
    while k > 0 && !NotAfter(act[k - 1], v)
      invariant k <= i && |act| == |act0|
      invariant forall t :: 0 <= t < k || i < t < |act| ==> act[t] == act0[t]
      invariant forall t :: k < t <= i ==> act[t] == act0[t - 1] && NotAfter(v, act[t])
    {
      act := act[k := act[k - 1]];
      k := k - 1;
    }
    act := act[k := v];
    j := k;
    assert act == Moved(act0, k, i);
  }

  lemma MovedSameSum(act: seq<Active>, j: nat, i: nat, sy: real, limit: Limit)
    requires j <= i < |act|
    ensures ActSum(Moved(act, j, i), sy, limit) == ActSum(act, sy, limit)
  {
    hide ActSum;
    var a, v, b, c := act[..j], [act[i]], act[j..i], act[i + 1..];
    assert act == a + b + v + c;
    ActSumConcat(a + v + b, c, sy, limit);
    ActSumConcat(a + v, b, sy, limit);
    ActSumConcat(a, v, sy, limit);
    ActSumConcat(a + b + v, c, sy, limit);
    ActSumConcat(a + b, v, sy, limit);
    ActSumConcat(a, b, sy, limit);
  }

  lemma MovedPlaced(act: seq<Active>, j: nat, i: nat, sy: real)
    requires j <= i < |act| && forall t :: 0 <= t < |act| ==> Placed(act[t], sy)
    ensures |Moved(act, j, i)| == |act| && forall t :: 0 <= t < |act| ==> Placed(Moved(act, j, i)[t], sy)
    ensures multiset(Moved(act, j, i)) == multiset(act)
  {
    hide Placed;
    assert act == act[..j] + act[j..i] + [act[i]] + act[i + 1..];
  }

  /** The line at `sy`: crossings in order of x, edges it misses after them. */
  method Crossings(act0: seq<Active>, sy: real) returns (act: seq<Active>)
    ensures |act| == |act0| && ByX(act, |act|) && forall t :: 0 <= t < |act| ==> Placed(act[t], sy)
    ensures forall s: real, limit :: ActSum(act, s, limit) == ActSum(act0, s, limit)
  {
    hide ActSum, NotAfter, Placed;
    act := PlaceAll(act0, sy);
    forall s: real, limit ensures ActSum(act, s, limit) == ActSum(act0, s, limit) { SameEdgesSameSum(act, act0, s, limit); }
    var i: nat := 0;
    while i < |act|
      invariant i <= |act| == |act0| && ByX(act, i)
      invariant forall t :: 0 <= t < |act| ==> Placed(act[t], sy)
      invariant forall s: real, limit :: ActSum(act, s, limit) == ActSum(act0, s, limit)
    {
      ghost var was := act;
      ghost var j: nat;
      act, j := InsertDown(act, i);
      MovedPlaced(was, j, i, sy);
      forall s: real, limit ensures ActSum(act, s, limit) == ActSum(was, s, limit) { MovedSameSum(was, j, i, s, limit); }
      i := i + 1;
    }
  }
}
