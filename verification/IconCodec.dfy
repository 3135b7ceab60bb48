/**
 * Icon data: the encoder (src/tools/icons.py, encode) and the decoder
 * (src/gfx/icons.cpp, Reader and the loop of paintIcon). Coordinates, widths and
 * radii are the encoder's rounded ones.
 */
module IconCodec {
  import opened Wrappers
  import U = Utf8
  import opened Varints

  type byte = U.byte

  datatype Color = Current | Fixed(argb: nat)

  datatype Point = Point(x: int, y: int)

  datatype Op = Move(a: Point) | Line(a: Point) | Cubic(a: Point, b: Point, c: Point) | Close | Circle(a: Point, r: nat)

  datatype Item = Item(fill: Option<Color>, stroke: Option<Color>, width: nat, ops: seq<Op>)

  /** One painted path: one colour, filled, stroked or both. */
  datatype Part = Part(filled: bool, stroked: bool, width: nat, color: Color, ops: seq<Op>)

  const HALF := 0x8000_0000
  const ORIGIN := Point(0, 0)

  /** The range of the decoder's pen. */
  predicate Fits(v: int) { -HALF <= v < HALF }

  predicate PointFits(p: Point) { Fits(p.x) && Fits(p.y) }

  // ---- What is drawn ----

  /** Fill and stroke share a part only when their colours agree. */
  function PartsOf(item: Item): seq<Part>
  {
    match (item.fill, item.stroke)
    case (None, None) => []
    case (Some(f), None) => [Part(true, false, 0, f, item.ops)]
    case (None, Some(s)) => [Part(false, true, item.width, s, item.ops)]
    case (Some(f), Some(s)) =>
      if f == s then [Part(true, true, item.width, f, item.ops)]
      else [Part(true, false, 0, f, item.ops), Part(false, true, item.width, s, item.ops)]
  }

  /**
   * An item's parts: at most one is filled and one stroked, the filled one
   * first, each just when the item is, in its colour, at its width, and with all
   * its operations.
   */
  lemma PartsDraw(item: Item)
    ensures var ps := PartsOf(item);
            && |ps| <= 2 && (|ps| == 2 ==> ps[0].filled && !ps[0].stroked && !ps[1].filled && ps[1].stroked)
            && (item.fill.Some? <==> exists k :: 0 <= k < |ps| && ps[k].filled)
            && (item.stroke.Some? <==> exists k :: 0 <= k < |ps| && ps[k].stroked)
            && (|ps| == 1 <==> (item.fill.Some? != item.stroke.Some?) || (item.fill.Some? && item.fill == item.stroke))
            && forall k :: 0 <= k < |ps| ==>
                 && ps[k].ops == item.ops && (ps[k].filled || ps[k].stroked)
                 && (ps[k].filled ==> item.fill == Some(ps[k].color))
                 && (ps[k].stroked ==> item.stroke == Some(ps[k].color) && ps[k].width == item.width)
  {
    var ps := PartsOf(item);
    if item.fill.Some? { assert ps[0].filled; }
    if item.stroke.Some? { assert ps[|ps| - 1].stroked; }
  }

  function AllParts(items: seq<Item>): seq<Part>
  {
    if items == [] then [] else AllParts(items[..|items| - 1]) + PartsOf(items[|items| - 1])
  }

  // ---- Encoding ----

  function Points(op: Op): seq<Point>
  {
    match op
    case Move(a) => [a]
    case Line(a) => [a]
    case Cubic(a, b, c) => [a, b, c]
    case Close => []
    case Circle(a, _) => [a]
  }

  function PointsOf(ops: seq<Op>): seq<Point>
  {
    if ops == [] then [] else Points(ops[0]) + PointsOf(ops[1..])
  }

  function Last(pts: seq<Point>, pen: Point): Point { if pts == [] then pen else pts[|pts| - 1] }

  /** A difference with its sign in the lowest bit. */
  function Zigzag(d: int): nat { if d < 0 then -2 * d - 1 else 2 * d }

  function PointBytes(pen: Point, p: Point): bytes { Varint(Zigzag(p.x - pen.x)) + Varint(Zigzag(p.y - pen.y)) }

  function PointsBytes(pts: seq<Point>, pen: Point): bytes
  {
    if pts == [] then [] else PointBytes(pen, pts[0]) + PointsBytes(pts[1..], pts[0])
  }

  predicate Repeats(op: Op) { op.Line? || op.Cubic? }

  /** How many operations of one kind follow each other, up to `max`. */
  function RunOf(ops: seq<Op>, max: nat): (n: nat)
    requires ops != [] && max > 0
    ensures 1 <= n <= max && n <= |ops| && forall k :: 0 <= k < n ==> ops[k].Line? == ops[0].Line? && ops[k].Cubic? == ops[0].Cubic?
  {
    if max > 1 && |ops| > 1 && Repeats(ops[0]) && ops[1].Line? == ops[0].Line? && ops[1].Cubic? == ops[0].Cubic?
    then 1 + RunOf(ops[1..], max - 1) else 1
  }

  function Code(op: Op): nat
  {
    match op case Move(_) => 0 case Line(_) => 1 case Cubic(_, _, _) => 2 case Close => 3 case Circle(_, _) => 4
  }

  /** Operations, runs of lines and curves under one header of up to 32, and the end mark. */
  function OpsBytes(ops: seq<Op>, pen: Point): bytes
    decreases |ops|
  {
    if ops == [] then [5]
    else if Repeats(ops[0]) then
      var n := RunOf(ops, 32);
      var pts := PointsOf(ops[..n]);
      [Code(ops[0]) + 8 * (n - 1)] + PointsBytes(pts, pen) + OpsBytes(ops[n..], Last(pts, pen))
    else
      [Code(ops[0])] + PointsBytes(Points(ops[0]), pen)
      + (if ops[0].Circle? then Varint(ops[0].r) else []) + OpsBytes(ops[1..], Last(Points(ops[0]), pen))
  }

  function ColorBytes(c: Color): bytes
  {
    if c.Fixed? then [c.argb / 0x100_0000 % 0x100, c.argb / 0x1_0000 % 0x100, c.argb / 0x100 % 0x100, c.argb % 0x100] else []
  }

  function PartBytes(p: Part, pen: Point): bytes
  {
    [(if p.filled then 1 else 0) + (if p.stroked then 2 else 0) + (if p.color.Fixed? then 4 else 0)]
    + (if p.stroked then Varint(p.width) else []) + ColorBytes(p.color) + OpsBytes(p.ops, pen)
  }

  function PartsBytes(parts: seq<Part>, pen: Point): bytes
  {
    if parts == [] then [] else PartBytes(parts[0], pen) + PartsBytes(parts[1..], Last(PointsOf(parts[0].ops), pen))
  }

  function Encoded(w: nat, h: nat, items: seq<Item>): bytes
  {
    Varint(w) + Varint(h) + PartsBytes(AllParts(items), ORIGIN)
  }

  // ---- Decoding ----

  datatype Read<T> = Read(value: T, rest: bytes, ok: bool)

  function Take7(v: nat, b: byte, k: nat): nat { (v + b % 0x80 * Pow128(k)) % WORD }

  function ReadU(d: bytes, k: nat, v: nat): (r: Read<nat>)
    requires k <= 5
    ensures |r.rest| <= |d|
    decreases 5 - k
  {
    if k == 5 then Read(v, d, false)
    else if d == [] then Read(0, d, false)
    else if d[0] < 0x80 then Read(Take7(v, d[0], k), d[1..], true)
    else ReadU(d[1..], k + 1, Take7(v, d[0], k))
  }

  function Unzigzag(v: nat): int { if v % 2 == 1 then -((v + 1) % WORD / 2) else v / 2 }

  function ReadDelta(d: bytes): (r: Read<int>)
    ensures |r.rest| <= |d|
  {
    var u := ReadU(d, 0, 0);
    Read(Unzigzag(u.value), u.rest, u.ok)
  }

  /** What a 32-bit sum holds. */
  function Wrap(v: int): (w: int)
    ensures Fits(w) && (Fits(v) ==> w == v)
  {
    (v + HALF) % WORD - HALF
  }

  function ReadPoint(d: bytes, pen: Point): (r: Read<Point>)
    ensures |r.rest| <= |d|
  {
    var x := ReadDelta(d);
    var y := ReadDelta(x.rest);
    Read(Point(Wrap(pen.x + x.value), Wrap(pen.y + y.value)), y.rest, x.ok && y.ok)
  }

  function ReadPoints(d: bytes, pen: Point, n: nat): (r: Read<seq<Point>>)
    ensures |r.rest| <= |d| && |r.value| == n
    decreases n
  {
    if n == 0 then Read([], d, true)
    else
      var p := ReadPoint(d, pen);
      var more := ReadPoints(p.rest, p.value, n - 1);
      Read([p.value] + more.value, more.rest, p.ok && more.ok)
  }

  function Lines(pts: seq<Point>): (r: seq<Op>)
    ensures |r| == |pts|
  {
    seq(|pts|, i requires 0 <= i < |pts| => Line(pts[i]))
  }

  function Cubics(pts: seq<Point>, n: nat): (r: seq<Op>)
    requires |pts| == 3 * n
    ensures |r| == n
  {
    seq(n, i requires 0 <= i < n => Cubic(pts[3 * i], pts[3 * i + 1], pts[3 * i + 2]))
  }

  /** One operation code and what belongs to it; none for the end. */
  function ReadOp(d: bytes, pen: Point): (r: Read<(seq<Op>, Point, bool)>)
    requires d != []
    ensures |r.rest| < |d|
  {
    var code, n := d[0] % 8, d[0] / 8 + 1;
    if code == 0 then
      var p := ReadPoint(d[1..], pen);
      Read(([Move(p.value)], p.value, true), p.rest, p.ok)
    else if code == 1 then
      var p := ReadPoints(d[1..], pen, n);
      Read((Lines(p.value), Last(p.value, pen), true), p.rest, p.ok)
    else if code == 2 then
      var p := ReadPoints(d[1..], pen, 3 * n);
      Read((Cubics(p.value, n), Last(p.value, pen), true), p.rest, p.ok)
    else if code == 3 then Read(([Close], pen, true), d[1..], true)
    else if code == 4 then
      var p := ReadPoint(d[1..], pen);
      var u := ReadU(p.rest, 0, 0);
      Read(([Circle(p.value, u.value)], p.value, true), u.rest, p.ok && u.ok)
    else Read(([], pen, false), d[1..], true)
  }

  function ReadOps(d: bytes, pen: Point): (r: Read<(seq<Op>, Point)>)
    ensures |r.rest| <= |d| && (r.ok ==> |r.rest| < |d|)
    decreases |d|
  {
    if d == [] then Read(([], pen), d, false)
    else
      var o := ReadOp(d, pen);
      var (ops, pen1, more) := o.value;
      if !o.ok || !more then Read((ops, pen1), o.rest, o.ok)
      else
        var r := ReadOps(o.rest, pen1);
        Read((ops + r.value.0, r.value.1), r.rest, r.ok)
  }

  function ReadColor(d: bytes): Read<nat>
  {
    if |d| < 4 then Read(0, [], false)
    else
      var a: int, r: int, g: int, b: int := d[0], d[1], d[2], d[3];
      Read(((a * 0x100 + r) * 0x100 + g) * 0x100 + b, d[4..], true)
  }

  function ReadPart(d: bytes, pen: Point): (r: Read<(Part, Point)>)
    requires d != []
    ensures r.ok ==> |r.rest| < |d|
  {
    var filled, stroked, fixed := d[0] % 2 == 1, d[0] / 2 % 2 == 1, d[0] / 4 % 2 == 1;
    var w := if stroked then ReadU(d[1..], 0, 0) else Read(0, d[1..], true);
    var c := if fixed then ReadColor(w.rest) else Read(0, w.rest, true);
    var o := ReadOps(c.rest, pen);
    Read((Part(filled, stroked, w.value, if fixed then Fixed(c.value) else Current, o.value.0), o.value.1), o.rest,
         w.ok && c.ok && o.ok)
  }

  /** The parts up to the first that cannot be read. */
  function ReadParts(d: bytes, pen: Point): Read<seq<Part>>
    decreases |d|
  {
    if d == [] then Read([], d, true)
    else
      var p := ReadPart(d, pen);
      if !p.ok then Read([], p.rest, false)
      else
        var more := ReadParts(p.rest, p.value.1);
        Read([p.value.0] + more.value, more.rest, more.ok)
  }

  /** The viewBox and the parts. */
  function Decoded(d: bytes): (nat, nat, Read<seq<Part>>)
  {
    var w := ReadU(d, 0, 0);
    var h := ReadU(w.rest, 0, 0);
    (w.value, h.value, if w.ok && h.ok then ReadParts(h.rest, ORIGIN) else Read([], h.rest, false))
  }

  // ---- Numbers and points ----

  /** A number of up to five digits is read modulo 2^32. */
  lemma {:induction false} UReadsBack(v: nat, k: nat, low: nat, rest: bytes)
    requires k < 5 && low < WORD && v * Pow128(k) < Pow128(5)
    ensures ReadU(Varint(v) + rest, k, low) == Read((low + v * Pow128(k)) % WORD, rest, true)
    decreases v
  {
    hide Pow128;
    VarintBytes(v);
    var w := Varint(v);
    var d := w + rest;
    assert d[0] == w[0] && d[1..] == w[1..] + rest;
    if v < 0x80 {
      assert w[1..] + rest == rest;
    } else {
      hide ReadU, Varint, Take7;
      UStep(d, k, low);
      DigitsModulo(k, low, v);
      UReadsBack(v / 0x80, k + 1, (low + v % 0x80 * Pow128(k)) % WORD, rest);
    }
  }

  lemma UStep(d: bytes, k: nat, low: nat)
    requires k < 5 && d != [] && d[0] >= 0x80
    ensures ReadU(d, k, low) == ReadU(d[1..], k + 1, (low + (d[0] - 0x80) * Pow128(k)) % WORD)
  {
    hide Pow128;
    assert d[0] % 0x80 == d[0] - 0x80;
  }

  lemma {:induction false} UWithin(d: bytes, k: nat, v: nat)
    requires k <= 5 && v < WORD
    ensures ReadU(d, k, v).value < WORD
    decreases 5 - k
  {
    hide Pow128;
    if k < 5 && d != [] && d[0] >= 0x80 { UWithin(d[1..], k + 1, Take7(v, d[0], k)); }
  }

  /** A number is read back exactly when it fits 32 bits. */
  lemma NumberRoundTrip(v: nat, rest: bytes)
    ensures var r := ReadU(Varint(v) + rest, 0, 0);
            if v < WORD then r == Read(v, rest, true) else r.value != v
  {
    hide ReadU, Varint;
    if v < WORD { UReadsModulo(v, rest); } else { UWithin(Varint(v) + rest, 0, 0); }
  }

  lemma UReadsModulo(v: nat, rest: bytes)
    requires v < 8 * WORD
    ensures ReadU(Varint(v) + rest, 0, 0) == Read(v % WORD, rest, true)
  {
    PowUpTo5();
    UReadsBack(v, 0, 0, rest);
  }

  predicate Near(d: int) { -HALF < d < HALF }

  lemma UnzigzagWithin(v: nat)
    requires v < WORD
    ensures Near(Unzigzag(v))
  {
  }

  /** A difference is read back exactly when its size is less than 2^31. */
  lemma DeltaRoundTrip(d: int, rest: bytes)
    ensures var r := ReadDelta(Varint(Zigzag(d)) + rest);
            if Near(d) then r == Read(d, rest, true) else r.value != d
  {
    hide ReadU, Varint;
    NumberRoundTrip(Zigzag(d), rest);
    if Near(d) {
      assert Unzigzag(Zigzag(d)) == d;
    } else {
      UWithin(Varint(Zigzag(d)) + rest, 0, 0);
      UnzigzagWithin(ReadU(Varint(Zigzag(d)) + rest, 0, 0).value);
    }
  }

  /** The difference no 32-bit code has room for: it is read back as 0. */
  lemma SmallestDelta(rest: bytes)
    ensures ReadDelta(Varint(Zigzag(-HALF)) + rest) == Read(0, rest, true)
  {
    hide ReadU, Varint;
    UReadsModulo(Zigzag(-HALF), rest);
  }

  /** A coordinate is read back exactly when it and its difference from the pen fit. */
  lemma CoordReadsBack(v: int, pen: int, rest: bytes)
    requires Fits(pen)
    ensures var r := ReadDelta(Varint(Zigzag(v - pen)) + rest);
            if Fits(v) && Near(v - pen) then Wrap(pen + r.value) == v && r.rest == rest && r.ok else Wrap(pen + r.value) != v
  {
    hide ReadU, Varint;
    var d := v - pen;
    if Near(d) {
      DeltaRoundTrip(d, rest);
    } else if Fits(v) {
      UReadsModulo(Zigzag(d), rest);
      LostBit(d, pen);
    }
  }

  /** A difference of 2^31 or more comes back 2^31 nearer to 0. */
  lemma LostBit(d: int, pen: int)
    requires Fits(pen) && Fits(pen + d) && !Near(d)
    ensures Wrap(pen + Unzigzag(Zigzag(d) % WORD)) != pen + d
  {
    if d >= HALF {
      assert Zigzag(d) % WORD == 2 * (d - HALF);
      assert pen + (d - HALF) < HALF;
    } else if d == -HALF {
      assert Zigzag(d) % WORD == WORD - 1;
    } else {
      assert Zigzag(d) % WORD == 2 * (-d - HALF) - 1;
      assert Unzigzag(Zigzag(d) % WORD) == d + HALF;
    }
  }

  /** A point in the pen's range, at a distance from the pen that can be coded. */
  predicate NearPoint(pen: Point, p: Point) { PointFits(p) && Near(p.x - pen.x) && Near(p.y - pen.y) }

  predicate NearPoints(pts: seq<Point>, pen: Point)
  {
    pts == [] || (NearPoint(pen, pts[0]) && NearPoints(pts[1..], pts[0]))
  }

  lemma {:induction false} LastFits(pts: seq<Point>, pen: Point)
    requires PointFits(pen) && NearPoints(pts, pen)
    ensures PointFits(Last(pts, pen))
  {
    if pts == [] {
    } else {
      LastFits(pts[1..], pts[0]);
    }
  }

  lemma PointReadsBack(p: Point, pen: Point, rest: bytes)
    requires PointFits(pen)
    ensures var r := ReadPoint(PointBytes(pen, p) + rest, pen);
            if NearPoint(pen, p) then r == Read(p, rest, true) else r.value != p
  {
    hide ReadDelta, Varint, Zigzag, Wrap;
    var x, y := Varint(Zigzag(p.x - pen.x)), Varint(Zigzag(p.y - pen.y));
    assert x + y + rest == x + (y + rest);
    CoordReadsBack(p.x, pen.x, y + rest);
    CoordReadsBack(p.y, pen.y, rest);
  }

  lemma {:induction false} PointsReadBack(pts: seq<Point>, pen: Point, rest: bytes)
    requires PointFits(pen)
    ensures var r := ReadPoints(PointsBytes(pts, pen) + rest, pen, |pts|);
            if NearPoints(pts, pen) then r == Read(pts, rest, true) else r.value != pts
  {
    hide ReadPoint, PointBytes, Wrap, Fits;
    if pts == [] {
      assert PointsBytes(pts, pen) + rest == rest;
    } else {
      var a, b := PointBytes(pen, pts[0]), PointsBytes(pts[1..], pts[0]);
      assert a + b + rest == a + (b + rest);
      PointReadsBack(pts[0], pen, b + rest);
      if NearPoint(pen, pts[0]) { PointsReadBack(pts[1..], pts[0], rest); }
      assert pts == [pts[0]] + pts[1..];
    }
  }

  // ---- Operations ----

  /** Every point and every difference from the pen fits, and so does every radius. */
  predicate GoodOps(ops: seq<Op>, pen: Point)
  {
    ops == []
    || (&& NearPoints(Points(ops[0]), pen) && (ops[0].Circle? ==> ops[0].r < WORD)
        && GoodOps(ops[1..], Last(Points(ops[0]), pen)))
  }

  lemma {:induction false} NearConcat(a: seq<Point>, b: seq<Point>, pen: Point)
    ensures NearPoints(a + b, pen) <==> NearPoints(a, pen) && NearPoints(b, Last(a, pen))
    ensures Last(a + b, pen) == Last(b, Last(a, pen))
  {
    if a == [] {
      assert a + b == b;
    } else {
      NearConcat(a[1..], b, a[0]);
      assert (a + b)[1..] == a[1..] + b;
    }
  }

  /** A run is good when its points are. */
  lemma {:induction false} RunIsGood(ops: seq<Op>, n: nat, pen: Point)
    requires n <= |ops| && forall k :: 0 <= k < n ==> Repeats(ops[k])
    ensures var pts := PointsOf(ops[..n]);
            GoodOps(ops, pen) <==> NearPoints(pts, pen) && GoodOps(ops[n..], Last(pts, pen))
    ensures Last(PointsOf(ops), pen) == Last(PointsOf(ops[n..]), Last(PointsOf(ops[..n]), pen))
    decreases n
  {
    hide NearPoints, Last;
    if n == 0 {
      assert ops[..0] == [] && ops[0..] == ops;
      NoPoints(pen);
    } else {
      var head, pts := Points(ops[0]), PointsOf(ops[1..][..n - 1]);
      RunIsGood(ops[1..], n - 1, Last(head, pen));
      assert ops[..n][1..] == ops[1..][..n - 1] && ops[1..][n - 1..] == ops[n..];
      NearConcat(head, pts, pen);
      NearConcat(head, PointsOf(ops[1..]), pen);
    }
  }

  lemma NoPoints(pen: Point)
    ensures NearPoints([], pen) && Last([], pen) == pen
  {
  }

  lemma {:induction false} LinesAgain(ops: seq<Op>)
    requires forall k :: 0 <= k < |ops| ==> ops[k].Line?
    ensures |PointsOf(ops)| == |ops| && Lines(PointsOf(ops)) == ops
  {
    if ops == [] {
      assert Lines([]) == [];
    } else {
      LinesAgain(ops[1..]);
      assert PointsOf(ops) == [ops[0].a] + PointsOf(ops[1..]);
      forall i | 0 <= i < |ops| ensures Lines(PointsOf(ops))[i] == ops[i] {
        if i > 0 { assert ops[i] == ops[1..][i - 1] == Lines(PointsOf(ops[1..]))[i - 1]; }
      }
    }
  }

  lemma {:induction false} CubicsAgain(ops: seq<Op>)
    requires forall k :: 0 <= k < |ops| ==> ops[k].Cubic?
    ensures |PointsOf(ops)| == 3 * |ops| && Cubics(PointsOf(ops), |ops|) == ops
  {
    if ops == [] {
      assert Cubics([], 0) == [];
    } else {
      CubicsAgain(ops[1..]);
      var p, q := PointsOf(ops), PointsOf(ops[1..]);
      assert p == [ops[0].a, ops[0].b, ops[0].c] + q;
      forall i | 0 <= i < |ops| ensures Cubics(p, |ops|)[i] == ops[i] {
        if i > 0 {
          assert ops[i] == ops[1..][i - 1] == Cubics(q, |ops| - 1)[i - 1];
          assert p[3 * i] == q[3 * (i - 1)] && p[3 * i + 1] == q[3 * (i - 1) + 1] && p[3 * i + 2] == q[3 * (i - 1) + 2];
        }
      }
    }
  }

  lemma LinesDiffer(a: seq<Point>, b: seq<Point>)
    requires |a| == |b| && a != b
    ensures Lines(a) != Lines(b)
  {
    var i :| 0 <= i < |a| && a[i] != b[i];
    assert Lines(a)[i] != Lines(b)[i];
  }

  lemma CubicsDiffer(a: seq<Point>, b: seq<Point>, n: nat)
    requires |a| == |b| == 3 * n && a != b
    ensures Cubics(a, n) != Cubics(b, n)
  {
    var i :| 0 <= i < |a| && a[i] != b[i];
    assert Cubics(a, n)[i / 3] != Cubics(b, n)[i / 3];
  }

  /** What reading the first `n` operations, one code's worth, must give. */
  ghost predicate ReadsOp(d: bytes, ops: seq<Op>, n: nat, good: bool, pen: Point, pen1: Point, rest: bytes)
    requires n <= |ops| && d != []
  {
    var r := ReadOp(d, pen);
    && r.value.2 && |r.value.0| == n
    && if good then r == Read((ops[..n], pen1, true), rest, true) else r.ok ==> r.value.0 != ops[..n]
  }

  lemma RunReadsBack(ops: seq<Op>, pen: Point, rest: bytes)
    requires PointFits(pen)
    requires ops != [] && Repeats(ops[0])
    ensures var n := RunOf(ops, 32);
            var pts := PointsOf(ops[..n]);
            ReadsOp([Code(ops[0]) + 8 * (n - 1)] + PointsBytes(pts, pen) + rest, ops, n, NearPoints(pts, pen), pen, Last(pts, pen), rest)
  {
    hide ReadPoints, PointsBytes, NearPoints, PointsOf, RunOf, PointFits, Last, ReadsOp;
    var n := RunOf(ops, 32);
    var run, pts := ops[..n], PointsOf(ops[..n]);
    var head := Code(ops[0]) + 8 * (n - 1);
    var coded := PointsBytes(pts, pen) + rest;
    assert [head] + PointsBytes(pts, pen) + rest == [head] + coded;
    PointsReadBack(pts, pen, rest);
    if ops[0].Line? {
      LinesAgain(run);
      LinesRead(pts, pen, coded, ops, rest);
    } else {
      CubicsAgain(run);
      CubicsRead(pts, pen, coded, ops, n, rest);
    }
  }

  lemma LinesRead(pts: seq<Point>, pen: Point, coded: bytes, ops: seq<Op>, rest: bytes)
    requires 0 < |pts| <= 32 && |pts| <= |ops| && Lines(pts) == ops[..|pts|]
    requires var r := ReadPoints(coded, pen, |pts|); if NearPoints(pts, pen) then r == Read(pts, rest, true) else r.value != pts
    ensures ReadsOp([1 + 8 * (|pts| - 1)] + coded, ops, |pts|, NearPoints(pts, pen), pen, Last(pts, pen), rest)
  {
    hide ReadPoints, NearPoints, Lines, Last;
    var head := 1 + 8 * (|pts| - 1);
    var d := [head] + coded;
    assert d[0] == head && d[1..] == coded && head % 8 == 1 && head / 8 + 1 == |pts|;
    var r := ReadPoints(coded, pen, |pts|);
    assert ReadOp(d, pen) == Read((Lines(r.value), Last(r.value, pen), true), r.rest, r.ok);
    hide ReadOp;
    if !NearPoints(pts, pen) { LinesDiffer(r.value, pts); }
  }

  lemma CubicsRead(pts: seq<Point>, pen: Point, coded: bytes, ops: seq<Op>, n: nat, rest: bytes)
    requires 0 < n <= 32 && |pts| == 3 * n && n <= |ops| && Cubics(pts, n) == ops[..n]
    requires var r := ReadPoints(coded, pen, |pts|); if NearPoints(pts, pen) then r == Read(pts, rest, true) else r.value != pts
    ensures ReadsOp([2 + 8 * (n - 1)] + coded, ops, n, NearPoints(pts, pen), pen, Last(pts, pen), rest)
  {
    hide ReadPoints, NearPoints, Cubics, Last;
    var head := 2 + 8 * (n - 1);
    var d := [head] + coded;
    assert d[0] == head && d[1..] == coded && head % 8 == 2 && head / 8 + 1 == n;
    var r := ReadPoints(coded, pen, |pts|);
    assert ReadOp(d, pen) == Read((Cubics(r.value, n), Last(r.value, pen), true), r.rest, r.ok);
    hide ReadOp;
    if !NearPoints(pts, pen) { CubicsDiffer(r.value, pts, n); }
  }

  /** An operation that does not repeat: a move, a close or a circle. */
  lemma SingleReadsBack(op: Op, ops: seq<Op>, pen: Point, rest: bytes)
    requires PointFits(pen)
    requires ops != [] && ops[0] == op && !Repeats(op)
    ensures var d := [Code(op)] + PointsBytes(Points(op), pen) + (if op.Circle? then Varint(op.r) else []) + rest;
            ReadsOp(d, ops, 1, NearPoints(Points(op), pen) && (op.Circle? ==> op.r < WORD), pen, Last(Points(op), pen), rest)
  {
    hide ReadU, Varint, PointBytes;
    var none: bytes := [];
    assert ops[..1] == [op];
    if op.Close? {
      assert [3] + none + none + rest == [3] + rest;
    } else {
      OnePoint(op.a, pen);
      var code, p, r := [Code(op)], PointBytes(pen, op.a), if op.Circle? then Varint(op.r) else none;
      var d := code + p + r + rest;
      assert d[1..] == p + (r + rest);
      PointReadsBack(op.a, pen, r + rest);
      if op.Circle? {
        NumberRoundTrip(op.r, rest);
      } else {
        assert r + rest == rest;
      }
    }
  }

  lemma OnePoint(p: Point, pen: Point)
    ensures PointsBytes([p], pen) == PointBytes(pen, p) && (NearPoints([p], pen) <==> NearPoint(pen, p))
  {
    assert [p][1..] == [];
  }

  lemma ReadOpsStep(d: bytes, pen: Point, ops: seq<Op>, n: nat, good: bool, pen1: Point, more: bytes)
    requires d != [] && n <= |ops| && ReadsOp(d, ops, n, good, pen, pen1, more)
    ensures var r := ReadOps(d, pen);
            if good then var r1 := ReadOps(more, pen1); r == Read((ops[..n] + r1.value.0, r1.value.1), r1.rest, r1.ok)
            else r.ok ==> |r.value.0| >= n && r.value.0[..n] != ops[..n]
  {
    hide ReadOp;
    var o := ReadOp(d, pen);
    if o.ok {
      var r1 := ReadOps(o.rest, o.value.1);
      assert ReadOps(d, pen).value.0 == o.value.0 + r1.value.0;
      assert (o.value.0 + r1.value.0)[..n] == o.value.0;
    }
  }

  /** Operations are read back, with the pen where they leave it, exactly when every point, difference and radius fits. */
  lemma {:induction false} OpsReadBack(ops: seq<Op>, pen: Point, rest: bytes)
    requires PointFits(pen)
    ensures var r := ReadOps(OpsBytes(ops, pen) + rest, pen);
            if GoodOps(ops, pen) then r == Read((ops, Last(PointsOf(ops), pen)), rest, true) && PointFits(r.value.1)
            else r.ok ==> r.value.0 != ops
    decreases |ops|
  {
    hide ReadOp, ReadOps, GoodOps, PointsBytes, NearPoints, PointsOf, Points, RunOf, Varint, ReadsOp;
    var d := OpsBytes(ops, pen) + rest;
    if ops == [] {
      EndReadsBack(pen, rest);
    } else {
      var n := if Repeats(ops[0]) then RunOf(ops, 32) else 1;
      var pts := PointsOf(ops[..n]);
      var tail := OpsBytes(ops[n..], Last(pts, pen)) + rest;
      var good := FirstReadsBack(ops, n, pen, rest, tail);
      if good { OpsReadBack(ops[n..], Last(pts, pen), rest); }
      ReadOpsStep(d, pen, ops, n, good, Last(pts, pen), tail);
      assert ops == ops[..n] + ops[n..];
      if good && !GoodOps(ops, pen) {
        var r1 := ReadOps(tail, Last(pts, pen));
        assert r1.ok ==> (ops[..n] + r1.value.0)[n..] != ops[n..];
      }
    }
  }

  lemma EndReadsBack(pen: Point, rest: bytes)
    ensures ReadOps([5] + rest, pen) == Read(([], pen), rest, true)
    ensures GoodOps([], pen) && PointsOf([]) == []
  {
    hide ReadU, ReadPoint, ReadPoints, Lines, Cubics;
    assert ([5] + rest)[1..] == rest;
  }

  /** The first code's worth of the operations. */
  lemma FirstReadsBack(ops: seq<Op>, n: nat, pen: Point, rest: bytes, tail: bytes) returns (good: bool)
    requires PointFits(pen)
    requires ops != [] && n == (if Repeats(ops[0]) then RunOf(ops, 32) else 1)
    requires tail == OpsBytes(ops[n..], Last(PointsOf(ops[..n]), pen)) + rest
    ensures var d := OpsBytes(ops, pen) + rest;
            d != [] && ReadsOp(d, ops, n, good, pen, Last(PointsOf(ops[..n]), pen), tail)
    ensures GoodOps(ops, pen) <==> good && GoodOps(ops[n..], Last(PointsOf(ops[..n]), pen))
    ensures good ==> PointFits(Last(PointsOf(ops[..n]), pen))
    ensures Last(PointsOf(ops), pen) == Last(PointsOf(ops[n..]), Last(PointsOf(ops[..n]), pen))
  {
    hide ReadOp, PointsBytes, NearPoints, RunOf, Varint, ReadsOp;
    var pts := PointsOf(ops[..n]);
    if Repeats(ops[0]) {
      hide GoodOps;
      RunReadsBack(ops, pen, tail);
      RunIsGood(ops, n, pen);
      good := NearPoints(pts, pen);
      if good { LastFits(pts, pen); }
      Splice([Code(ops[0]) + 8 * (n - 1)] + PointsBytes(pts, pen), OpsBytes(ops[n..], Last(pts, pen)), rest);
    } else {
      var op := ops[0];
      SingleReadsBack(op, ops, pen, tail);
      SinglePoints(ops, pen);
      good := NearPoints(Points(op), pen) && (op.Circle? ==> op.r < WORD);
      if good { LastFits(Points(op), pen); }
      Splice([Code(op)] + PointsBytes(Points(op), pen) + (if op.Circle? then Varint(op.r) else []),
             OpsBytes(ops[1..], Last(Points(op), pen)), rest);
    }
  }

  lemma Splice(a: bytes, b: bytes, c: bytes)
    ensures a + b + c == a + (b + c)
  {
  }

  lemma SinglePoints(ops: seq<Op>, pen: Point)
    requires ops != []
    ensures PointsOf(ops[..1]) == Points(ops[0])
    ensures Last(PointsOf(ops), pen) == Last(PointsOf(ops[1..]), Last(Points(ops[0]), pen))
  {
    assert ops[..1][1..] == [];
    NearConcat(Points(ops[0]), PointsOf(ops[1..]), pen);
  }

  // ---- Parts ----

  predicate ColorFits(c: Color) { c.Fixed? ==> c.argb < WORD }

  predicate GoodPart(p: Part, pen: Point) { (p.stroked ==> p.width < WORD) && GoodOps(p.ops, pen) }

  predicate GoodParts(parts: seq<Part>, pen: Point)
  {
    parts == [] || (GoodPart(parts[0], pen) && GoodParts(parts[1..], Last(PointsOf(parts[0].ops), pen)))
  }

  /** A part that is not stroked has no width; its colour has 32 bits. */
  predicate PartFits(p: Part) { (!p.stroked ==> p.width == 0) && ColorFits(p.color) }

  lemma ColorReadsBack(c: Color, rest: bytes)
    requires c.Fixed? && ColorFits(c)
    ensures ReadColor(ColorBytes(c) + rest) == Read(c.argb, rest, true)
  {
    var d, v := ColorBytes(c) + rest, c.argb;
    assert d[4..] == rest;
    FourBytes(v);
    var a: int, r: int, g: int, b: int := d[0], d[1], d[2], d[3];
    assert a == v / 0x100_0000 % 0x100 && r == v / 0x1_0000 % 0x100 && g == v / 0x100 % 0x100 && b == v % 0x100;
  }

  lemma FourBytes(v: nat)
    requires v < WORD
    ensures ((v / 0x100_0000 % 0x100 * 0x100 + v / 0x1_0000 % 0x100) * 0x100 + v / 0x100 % 0x100) * 0x100 + v % 0x100 == v
  {
    Shifted(v);
    Shifted(v / 0x100);
    Shifted(v / 0x1_0000);
    assert v / 0x100_0000 % 0x100 == v / 0x100_0000;
  }

  lemma Shifted(v: nat)
    ensures v / 0x100 * 0x100 + v % 0x100 == v && v / 0x100 / 0x100 == v / 0x1_0000 && v / 0x1_0000 / 0x100 == v / 0x100_0000
  {
  }

  lemma PartReadsBack(p: Part, pen: Point, rest: bytes)
    requires PartFits(p) && PointFits(pen)
    ensures var d := PartBytes(p, pen) + rest;
            d != [] && var r := ReadPart(d, pen);
            if GoodPart(p, pen) then r == Read((p, Last(PointsOf(p.ops), pen)), rest, true) && PointFits(r.value.1)
            else r.ok ==> r.value.0 != p
  {
    hide ReadU, ReadOps, OpsBytes, Varint, GoodOps, ReadColor, ColorBytes, PointsOf, Last;
    var none: bytes := [];
    var flags := (if p.filled then 1 else 0) + (if p.stroked then 2 else 0) + (if p.color.Fixed? then 4 else 0);
    var w, c, ops := if p.stroked then Varint(p.width) else none, ColorBytes(p.color), OpsBytes(p.ops, pen);
    var d := PartBytes(p, pen) + rest;
    FourPieces(flags, w, c, ops, rest);
    assert d == [flags] + w + c + ops + rest;
    assert d[0] == flags && d[1..] == w + (c + (ops + rest));
    assert flags % 2 == 1 <==> p.filled;
    assert flags / 2 % 2 == 1 <==> p.stroked;
    assert flags / 4 % 2 == 1 <==> p.color.Fixed?;
    NumberRoundTrip(p.width, c + (ops + rest));
    if p.color.Fixed? { ColorReadsBack(p.color, ops + rest); } else { NoColor(p.color, ops + rest); }
    assert none + (c + (ops + rest)) == c + (ops + rest);
    OpsReadBack(p.ops, pen, rest);
  }

  lemma FourPieces(flags: byte, w: bytes, c: bytes, ops: bytes, rest: bytes)
    ensures [flags] + w + c + ops + rest == [flags] + (w + (c + (ops + rest)))
  {
  }

  lemma NoColor(c: Color, rest: bytes)
    requires !c.Fixed?
    ensures ColorBytes(c) == [] && ColorBytes(c) + rest == rest
  {
  }

  lemma {:induction false} PartsReadBack(parts: seq<Part>, pen: Point)
    requires PointFits(pen)
    requires forall k :: 0 <= k < |parts| ==> PartFits(parts[k])
    ensures var r := ReadParts(PartsBytes(parts, pen), pen);
            if GoodParts(parts, pen) then r == Read(parts, [], true) else !(r.ok && r.value == parts)
    decreases |parts|
  {
    hide ReadPart, PartBytes, GoodPart, PointsOf, Last;
    if parts == [] {
    } else {
      var p, pen1 := parts[0], Last(PointsOf(parts[0].ops), pen);
      var rest := PartsBytes(parts[1..], pen1);
      PartReadsBack(p, pen, rest);
      if GoodPart(p, pen) { PartsReadBack(parts[1..], pen1); }
      assert parts == [p] + parts[1..];
    }
  }

  lemma {:induction false} PartsFit(items: seq<Item>)
    requires forall k :: 0 <= k < |items| ==> ItemFits(items[k])
    ensures forall k :: 0 <= k < |AllParts(items)| ==> PartFits(AllParts(items)[k])
  {
    if items == [] {
      assert AllParts(items) == [];
    } else {
      PartsFit(items[..|items| - 1]);
    }
  }

  /** What the encoder itself asks for: colours of 32 bits. */
  predicate ItemFits(i: Item)
  {
    (i.fill.Some? ==> ColorFits(i.fill.value)) && (i.stroke.Some? ==> ColorFits(i.stroke.value))
  }

  /**
   * The decoder gives back the viewBox and every part, in order, with nothing
   * left over, exactly when each number fits: sizes, widths and radii in 32
   * bits, every coordinate in the pen's 32 signed bits, every difference from
   * the pen below 2^31 in size.
   */
  lemma IconRoundTrip(w: nat, h: nat, items: seq<Item>)
    requires forall k :: 0 <= k < |items| ==> ItemFits(items[k])
    ensures Decoded(Encoded(w, h, items)) == (w, h, Read(AllParts(items), [], true))
            <==> w < WORD && h < WORD && GoodParts(AllParts(items), ORIGIN)
  {
    hide ReadU, Varint, ReadParts, PartsBytes, GoodParts, AllParts, PartFits;
    PartsFit(items);
    var body := PartsBytes(AllParts(items), ORIGIN);
    Splice(Varint(w), Varint(h), body);
    NumberRoundTrip(w, Varint(h) + body);
    NumberRoundTrip(h, body);
    PartsReadBack(AllParts(items), ORIGIN);
  }

  /** Two differences that can be coded, to a coordinate the decoder's pen has no room for. */
  lemma PenOverflows(rest: bytes)
    ensures var a, b := Point(HALF - 1, 0), Point(HALF, 0);
            && Near(a.x - ORIGIN.x) && Near(b.x - a.x)
            && var r := ReadOps(OpsBytes([Move(a), Line(b)], ORIGIN) + rest, ORIGIN);
               r.ok ==> r.value.0 != [Move(a), Line(b)]
  {
    var a, b := Point(HALF - 1, 0), Point(HALF, 0);
    var ops := [Move(a), Line(b)];
    OpsReadBack(ops, ORIGIN, rest);
    assert ops[1..] == [Line(b)];
    assert !GoodOps(ops[1..], a);
  }
}
