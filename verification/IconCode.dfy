/**
 * The icon encoder's loops over its output and its pen (src/tools/icons.py) and
 * the decoder's over its reader (src/gfx/icons.cpp).
 */
module IconCode {
  import opened Wrappers
  import opened Varints
  import opened IconCodec

  // ---- The encoder ----

  class Encoder {
    var out: bytes
    var pen: Point

    constructor ()
      ensures out == [] && pen == ORIGIN
    {
      out, pen := [], ORIGIN;
    }

    method PutNumber(v: nat)
      modifies this`out
      ensures out == old(out) + Varint(v)
    {
      out := PutVarint(out, v);
    }

    method PutPoint(p: Point)
      modifies this
      ensures out == old(out) + PointBytes(old(pen), p) && pen == p
    {
      PutNumber(Zigzag(p.x - pen.x));
      PutNumber(Zigzag(p.y - pen.y));
      pen := p;
    }

    method PutPoints(pts: seq<Point>)
      modifies this
      ensures out == old(out) + PointsBytes(pts, old(pen)) && pen == Last(pts, old(pen))
    {
      hide PointBytes;
      var i: nat := 0;
      assert pts[0..] == pts;
      while i < |pts|
        invariant i <= |pts|
        invariant out + PointsBytes(pts[i..], pen) == old(out) + PointsBytes(pts, old(pen))
        invariant pen == Last(pts[..i], old(pen))
      {
        assert pts[i..][1..] == pts[i + 1..];
        Splice(out, PointBytes(pen, pts[i]), PointsBytes(pts[i + 1..], pts[i]));
        PutPoint(pts[i]);
        i := i + 1;
      }
      assert pts[..i] == pts && out + [] == out;
    }

    /** The points of a run of operations. */
    method PutRun(run: seq<Op>)
      modifies this
      ensures out == old(out) + PointsBytes(PointsOf(run), old(pen)) && pen == Last(PointsOf(run), old(pen))
    {
      hide PointsBytes, Points, PointsOf, Last;
      ghost var out0, pen0 := out, pen;
      var i: nat := 0;
      NoneDone(pen0);
      assert run[..0] == [] && out + [] == out;
      while i < |run|
        invariant i <= |run|
        invariant out == out0 + PointsBytes(PointsOf(run[..i]), pen0) && pen == Last(PointsOf(run[..i]), pen0)
      {
        OneMore(run, i, pen0);
        PutPoints(Points(run[i]));
        i := i + 1;
      }
      assert run[..i] == run;
    }

    /** How many operations the header at `j` stands for. */
    static method CountRun(ops: seq<Op>, j: nat) returns (n: nat)
      requires j < |ops| && Repeats(ops[j])
      ensures n == RunOf(ops[j..], 32)
    {
      n := 1;
      assert ops[j..][0..] == ops[j..];
      while j + n < |ops| && ops[j + n].Line? == ops[j].Line? && ops[j + n].Cubic? == ops[j].Cubic? && n < 32
        invariant 1 <= n <= 32 && j + n <= |ops|
        invariant ops[j + n - 1].Line? == ops[j].Line? && ops[j + n - 1].Cubic? == ops[j].Cubic?
        invariant RunOf(ops[j..], 32) == n - 1 + RunOf(ops[j + n - 1..], 33 - n)
      {
        assert ops[j + n - 1..][1..] == ops[j + n..];
        n := n + 1;
      }
    }

    method PutOps(ops: seq<Op>)
      modifies this
      ensures out == old(out) + OpsBytes(ops, old(pen)) && pen == Last(PointsOf(ops), old(pen))
    {
      hide OpsBytes, PointsBytes, PointsOf, Last, RunOf, Varint;
      ghost var out0, pen0 := out, pen;
      var j: nat := 0;
      assert ops[0..] == ops;
      while j < |ops|
        invariant j <= |ops| && out + OpsBytes(ops[j..], pen) == out0 + OpsBytes(ops, pen0)
        invariant Last(PointsOf(ops[j..]), pen) == Last(PointsOf(ops), pen0)
      {
        ghost var rest := ops[j..];
        var n := 1;
        if Repeats(ops[j]) {
          n := CountRun(ops, j);
          assert ops[j..j + n] == rest[..n];
          RunStep(rest, n, pen, out);
          out := out + [Code(ops[j]) + 8 * (n - 1)];
          PutRun(ops[j..j + n]);
        } else {
          SingleStep(rest, pen, out);
          out := out + [Code(ops[j])];
          PutPoints(Points(ops[j]));
          if ops[j].Circle? { PutNumber(ops[j].r); }
        }
        assert rest[n..] == ops[j + n..];
        j := j + n;
      }
      assert ops[j..] == [];
      EndStep(pen, out);
      out := out + [5];
    }

    method PutPart(p: Part)
      modifies this
      ensures out == old(out) + PartBytes(p, old(pen)) && pen == Last(PointsOf(p.ops), old(pen))
    {
      hide OpsBytes, PointsOf, Last, Varint;
      ghost var out0, none: bytes := out, [];
      var flags := (if p.filled then 1 else 0) + (if p.stroked then 2 else 0) + (if p.color.Fixed? then 4 else 0);
      ghost var w, c := if p.stroked then Varint(p.width) else none, ColorBytes(p.color);
      out := out + [flags];
      if p.stroked { PutNumber(p.width); }
      assert out == out0 + [flags] + w;
      if p.color.Fixed? { out := out + ColorBytes(p.color); }
      assert out == out0 + [flags] + w + c;
      ghost var ops := OpsBytes(p.ops, pen);
      PutOps(p.ops);
      FivePieces(out0, [flags], w, c, ops);
    }

    method PutItem(item: Item)
      modifies this
      ensures out == old(out) + PartsBytes(PartsOf(item), old(pen)) && pen == After(PartsOf(item), old(pen))
    {
      hide PartBytes, PartsBytes, PointsOf, Last;
      ghost var out0, pen0 := out, pen;
      var parts := PartsOf(item);
      var k: nat := 0;
      assert parts[0..] == parts;
      while k < |parts|
        invariant k <= |parts| && out + PartsBytes(parts[k..], pen) == out0 + PartsBytes(parts, pen0)
        invariant After(parts[k..], pen) == After(parts, pen0)
      {
        PartStep(parts, k, pen, out);
        PutPart(parts[k]);
        k := k + 1;
      }
      AllPut(pen, out);
    }
  }

  /** The pen after all parts. */
  function After(parts: seq<Part>, pen: Point): Point
  {
    if parts == [] then pen else After(parts[1..], Last(PointsOf(parts[0].ops), pen))
  }

  lemma NoneDone(pen: Point)
    ensures PointsBytes(PointsOf([]), pen) == [] && Last(PointsOf([]), pen) == pen
  {
  }

  lemma {:induction false} PointsBytesConcat(a: seq<Point>, b: seq<Point>, pen: Point)
    ensures PointsBytes(a + b, pen) == PointsBytes(a, pen) + PointsBytes(b, Last(a, pen))
    ensures Last(a + b, pen) == Last(b, Last(a, pen))
  {
    hide PointBytes;
    if a == [] {
      assert a + b == b;
    } else {
      PointsBytesConcat(a[1..], b, a[0]);
      assert (a + b)[1..] == a[1..] + b;
      Splice(PointBytes(pen, a[0]), PointsBytes(a[1..], a[0]), PointsBytes(b, Last(a[1..], a[0])));
    }
  }

  lemma PointsOfCons(op: Op, ops: seq<Op>)
    ensures PointsOf([op] + ops) == Points(op) + PointsOf(ops)
  {
    hide Points;
    assert ([op] + ops)[1..] == ops;
  }

  lemma ConsConcat<T>(x: T, a: seq<T>, b: seq<T>)
    ensures [x] + a + b == [x] + (a + b)
  {
  }

  lemma Associative<T>(a: seq<T>, b: seq<T>, c: seq<T>)
    ensures a + b + c == a + (b + c)
  {
  }

  lemma {:induction false} PointsOfConcat(a: seq<Op>, b: seq<Op>)
    ensures PointsOf(a + b) == PointsOf(a) + PointsOf(b)
  {
    if a == [] {
      assert a + b == b;
    } else {
      hide PointsOf, Points;
      PointsOfConcat(a[1..], b);
      assert a == [a[0]] + a[1..];
      ConsConcat(a[0], a[1..], b);
      PointsOfCons(a[0], a[1..]);
      PointsOfCons(a[0], a[1..] + b);
      Associative(Points(a[0]), PointsOf(a[1..]), PointsOf(b));
    }
  }

  lemma OneMore(run: seq<Op>, i: nat, pen: Point)
    requires i < |run|
    ensures var done, next := PointsOf(run[..i]), Points(run[i]);
            && PointsBytes(PointsOf(run[..i + 1]), pen) == PointsBytes(done, pen) + PointsBytes(next, Last(done, pen))
            && Last(PointsOf(run[..i + 1]), pen) == Last(next, Last(done, pen))
  {
    hide Points, PointsBytes, Last;
    assert run[..i + 1] == run[..i] + [run[i]];
    PointsOfConcat(run[..i], [run[i]]);
    assert [run[i]][1..] == [];
    assert Points(run[i]) + [] == Points(run[i]);
    PointsBytesConcat(PointsOf(run[..i]), Points(run[i]), pen);
  }

  lemma RunStep(ops: seq<Op>, n: nat, pen: Point, out: bytes)
    requires ops != [] && Repeats(ops[0]) && n == RunOf(ops, 32)
    ensures var pts := PointsOf(ops[..n]);
            && out + OpsBytes(ops, pen)
               == out + [Code(ops[0]) + 8 * (n - 1)] + PointsBytes(pts, pen) + OpsBytes(ops[n..], Last(pts, pen))
            && Last(PointsOf(ops), pen) == Last(PointsOf(ops[n..]), Last(pts, pen))
  {
    hide RunOf, PointsBytes, GoodOps, PointsOf, Last, NearPoints;
    RunIsGood(ops, n, pen);
  }

  lemma SingleStep(ops: seq<Op>, pen: Point, out: bytes)
    requires ops != [] && !Repeats(ops[0])
    ensures var pts := Points(ops[0]);
            && out + OpsBytes(ops, pen)
               == out + [Code(ops[0])] + PointsBytes(pts, pen) + (if ops[0].Circle? then Varint(ops[0].r) else [])
                  + OpsBytes(ops[1..], Last(pts, pen))
            && Last(PointsOf(ops), pen) == Last(PointsOf(ops[1..]), Last(pts, pen))
  {
    hide PointsBytes, Varint, OpsBytes, PointsOf, Points, Last;
    var pts, r := Points(ops[0]), if ops[0].Circle? then Varint(ops[0].r) else [];
    SingleBytes(ops, pen);
    SinglePoints(ops, pen);
    FivePieces(out, [Code(ops[0])], PointsBytes(pts, pen), r, OpsBytes(ops[1..], Last(pts, pen)));
  }

  lemma SingleBytes(ops: seq<Op>, pen: Point)
    requires ops != [] && !Repeats(ops[0])
    ensures var pts := Points(ops[0]);
            OpsBytes(ops, pen) == [Code(ops[0])] + PointsBytes(pts, pen) + (if ops[0].Circle? then Varint(ops[0].r) else [])
                                  + OpsBytes(ops[1..], Last(pts, pen))
  {
    hide PointsBytes, Varint, Points, Last;
  }

  lemma EndStep(pen: Point, out: bytes)
    ensures out + OpsBytes([], pen) == out + [5] && Last(PointsOf([]), pen) == pen
  {
  }

  lemma FivePieces(out: bytes, f: bytes, w: bytes, c: bytes, ops: bytes)
    ensures out + (f + w + c + ops) == out + f + w + c + ops
  {
  }

  lemma PartStep(parts: seq<Part>, k: nat, pen: Point, out: bytes)
    requires k < |parts|
    ensures var pen1 := Last(PointsOf(parts[k].ops), pen);
            && out + PartsBytes(parts[k..], pen) == out + PartBytes(parts[k], pen) + PartsBytes(parts[k + 1..], pen1)
            && After(parts[k..], pen) == After(parts[k + 1..], pen1)
  {
    hide PartBytes, PointsOf, Last;
    assert parts[k..][1..] == parts[k + 1..];
  }

  lemma AllPut(pen: Point, out: bytes)
    ensures out + PartsBytes([], pen) == out && After([], pen) == pen
  {
  }

  lemma {:induction false} PartsConcat(a: seq<Part>, b: seq<Part>, pen: Point)
    ensures PartsBytes(a + b, pen) == PartsBytes(a, pen) + PartsBytes(b, After(a, pen))
    ensures After(a + b, pen) == After(b, After(a, pen))
    decreases |a|
  {
    hide PartBytes, PointsOf, Last;
    if a == [] {
      assert a + b == b;
    } else {
      var pen1 := Last(PointsOf(a[0].ops), pen);
      PartsConcat(a[1..], b, pen1);
      assert (a + b)[1..] == a[1..] + b;
      Splice(PartBytes(a[0], pen), PartsBytes(a[1..], pen1), PartsBytes(b, After(a[1..], pen1)));
    }
  }

  /** The whole icon. */
  method Encode(w: nat, h: nat, items: seq<Item>) returns (out: bytes)
    ensures out == Encoded(w, h, items)
  {
    hide PartsBytes, PartsOf, Varint;
    var e := new Encoder();
    e.PutNumber(w);
    e.PutNumber(h);
    ghost var head := Varint(w) + Varint(h);
    assert e.out == head;
    var i: nat := 0;
    assert items[..0] == [];
    AllPut(ORIGIN, head);
    while i < |items|
      invariant fresh(e) && i <= |items|
      invariant e.out == head + PartsBytes(AllParts(items[..i]), ORIGIN) && e.pen == After(AllParts(items[..i]), ORIGIN)
    {
      assert items[..i + 1][..i] == items[..i];
      PartsConcat(AllParts(items[..i]), PartsOf(items[i]), ORIGIN);
      ghost var a, b := PartsBytes(AllParts(items[..i]), ORIGIN), PartsBytes(PartsOf(items[i]), e.pen);
      Splice(head, a, b);
      e.PutItem(items[i]);
      i := i + 1;
    }
    assert items[..i] == items;
    out := e.out;
  }

  // ---- The decoder ----

  class Reader {
    const data: bytes
    var p: nat
    var ok: bool

    constructor (d: bytes)
      ensures data == d && p == 0 && ok
    {
      data, p, ok := d, 0, true;
    }

    ghost predicate Valid()
      reads this
    {
      p <= |data|
    }

    ghost function Rest(): bytes
      requires Valid()
      reads this
    {
      data[p..]
    }

    method U() returns (v: nat)
      requires Valid()
      modifies this
      ensures Valid() && var r := ReadU(old(Rest()), 0, 0); v == r.value && Rest() == r.rest && ok == (old(ok) && r.ok)
    {
      hide Take7;
      v := 0;
      var k: nat := 0;
      while k < 5
        invariant k <= 5 && Valid() && ok == old(ok)
        invariant ReadU(old(Rest()), 0, 0) == ReadU(Rest(), k, v)
      {
        if p >= |data| {
          ok := false;
          return 0;
        }
        var b := data[p];
        assert Rest()[0] == b && Rest()[1..] == data[p + 1..];
        p := p + 1;
        v := Take7(v, b, k);
        if b < 0x80 { return; }
        k := k + 1;
      }
      ok := false;
    }

    method Delta() returns (d: int)
      requires Valid()
      modifies this
      ensures Valid() && var r := ReadDelta(old(Rest())); d == r.value && Rest() == r.rest && ok == (old(ok) && r.ok)
    {
      hide ReadU;
      var v := U();
      d := if v % 2 == 1 then -((v + 1) % WORD / 2) else v / 2;
    }

    method Byte() returns (b: IconCodec.byte)
      requires Valid()
      modifies this
      ensures Valid()
      ensures if old(Rest()) == [] then b == 0 && !ok && Rest() == [] else b == old(Rest())[0] && Rest() == old(Rest())[1..] && ok == old(ok)
    {
      if p >= |data| {
        ok := false;
        return 0;
      }
      b := data[p];
      p := p + 1;
    }

    method PointAt(pen: Point) returns (q: Point)
      requires Valid()
      modifies this
      ensures Valid() && var r := ReadPoint(old(Rest()), pen); q == r.value && Rest() == r.rest && ok == (old(ok) && r.ok)
    {
      hide ReadDelta;
      var dx := Delta();
      var dy := Delta();
      q := Point(Wrap(pen.x + dx), Wrap(pen.y + dy));
    }

    method PointsAt(pen: Point, n: nat) returns (pts: seq<Point>)
      requires Valid()
      modifies this
      ensures Valid()
      ensures var r := ReadPoints(old(Rest()), pen, n); pts == r.value && Rest() == r.rest && ok == (old(ok) && r.ok)
    {
      hide ReadPoint;
      ghost var d, ok0 := Rest(), ok;
      pts := [];
      var i: nat, at := 0, pen;
      while i < n
        invariant i <= n && |pts| == i && at == Last(pts, pen) && Valid()
        invariant var r := ReadPoints(Rest(), at, n - i);
                  var all := ReadPoints(d, pen, n);
                  all.value == pts + r.value && all.rest == r.rest && (ok0 && all.ok) == (ok && r.ok)
      {
        var q := PointAt(at);
        pts, at := pts + [q], q;
        i := i + 1;
      }
    }

    /** One operation code and what belongs to it; `more` is false at the end mark. */
    method OpAt(pen: Point) returns (ops: seq<Op>, pen1: Point, more: bool)
      requires Valid()
      modifies this
      ensures Valid() && |Rest()| <= |old(Rest())|
      ensures if old(Rest()) == [] then !ok
              else var r := ReadOp(old(Rest()), pen); (ops, pen1, more) == r.value && Rest() == r.rest && ok == (old(ok) && r.ok)
    {
      hide ReadPoint, ReadPoints, ReadU;
      var ob := Byte();
      var op, n := ob % 8, ob / 8 + 1;
      ops, pen1, more := [], pen, true;
      if op == 0 {
        pen1 := PointAt(pen);
        ops := [Move(pen1)];
      } else if op == 1 {
        var pts := PointsAt(pen, n);
        ops, pen1 := Lines(pts), Last(pts, pen);
      } else if op == 2 {
        var pts := PointsAt(pen, 3 * n);
        ops, pen1 := Cubics(pts, n), Last(pts, pen);
      } else if op == 3 {
        ops := [Close];
      } else if op == 4 {
        pen1 := PointAt(pen);
        var r := U();
        ops := [Circle(pen1, r)];
      } else {
        more := false;
      }
    }

    method OpsAt(pen0: Point) returns (ops: seq<Op>, pen: Point)
      requires Valid() && ok
      modifies this
      ensures Valid()
      ensures var r := ReadOps(old(Rest()), pen0); ok == r.ok && (ok ==> (ops, pen) == r.value && Rest() == r.rest)
      ensures ok ==> |Rest()| < |old(Rest())|
    {
      hide ReadOp, ReadOps;
      ghost var d := Rest();
      ops, pen := [], pen0;
      var more := true;
      assert [] + ReadOps(d, pen0).value.0 == ReadOps(d, pen0).value.0;
      while more && ok
        invariant Valid() && |Rest()| <= |d| && (!more && ok ==> |Rest()| < |d|)
        invariant var all := ReadOps(d, pen0);
                  if !ok then !all.ok
                  else if !more then all == Read((ops, pen), Rest(), true)
                  else var r := ReadOps(Rest(), pen); all.ok == r.ok && (r.ok ==> all == Read((ops + r.value.0, r.value.1), r.rest, true))
        decreases if ok then 1 else 0, if more then 1 else 0, |Rest()|
      {
        OpsStep(Rest(), pen, ops);
        var got, pen1, again := OpAt(pen);
        ops, pen, more := ops + got, pen1, again;
      }
    }

    method ColorAt() returns (c: nat)
      requires Valid() && ok
      modifies this
      ensures Valid()
      ensures var r := ReadColor(old(Rest())); ok == r.ok && (ok ==> c == r.value && Rest() == r.rest)
    {
      ghost var d := Rest();
      c := 0;
      var b := Byte();
      c := c * 0x100 + b;
      b := Byte();
      c := c * 0x100 + b;
      b := Byte();
      c := c * 0x100 + b;
      b := Byte();
      c := c * 0x100 + b;
      if ok { assert Rest() == d[1..][1..][1..][1..] == d[4..]; }
    }

    method PartAt(pen0: Point) returns (part: Part, pen: Point)
      requires Valid() && ok && p < |data|
      modifies this
      ensures Valid()
      ensures var r := ReadPart(old(Rest()), pen0); ok == r.ok && (ok ==> (part, pen) == r.value && Rest() == r.rest)
      ensures ok ==> |Rest()| < |old(Rest())|
    {
      hide ReadU, ReadOps, ReadColor;
      var flags := Byte();
      var w, c, ops := 0, 0, [];
      pen := pen0;
      if flags / 2 % 2 == 1 { w := U(); }
      if ok && flags / 4 % 2 == 1 { c := ColorAt(); }
      if ok { ops, pen := OpsAt(pen0); }
      part := Part(flags % 2 == 1, flags / 2 % 2 == 1, w, if flags / 4 % 2 == 1 then Fixed(c) else Current, ops);
    }

    /** The loop over an icon's parts. */
    method PartsAt(pen0: Point) returns (parts: seq<Part>)
      requires Valid() && ok
      modifies this
      ensures Valid()
      ensures var r := ReadParts(old(Rest()), pen0); ok == r.ok && (ok ==> parts == r.value && Rest() == r.rest)
    {
      hide ReadPart, ReadParts;
      ghost var d := Rest();
      parts := [];
      var pen := pen0;
      assert [] + ReadParts(d, pen0).value == ReadParts(d, pen0).value;
      while ok && p < |data|
        invariant Valid()
        invariant var all, r := ReadParts(d, pen0), ReadParts(Rest(), pen);
                  if !ok then !all.ok
                  else all.ok == r.ok && (r.ok ==> all == Read(parts + r.value, r.rest, true))
        decreases if ok then 1 else 0, |Rest()|
      {
        PartsStep(Rest(), pen, parts);
        var part, pen1 := PartAt(pen);
        parts, pen := parts + [part], pen1;
      }
      if ok {
        assert Rest() == [];
        NoParts(pen);
        assert parts + [] == parts;
      }
    }
  }

  /** One part further, for a reader that has `before` already. */
  lemma PartsStep(d: bytes, pen: Point, before: seq<Part>)
    requires d != []
    ensures var p, r := ReadPart(d, pen), ReadParts(d, pen);
            if !p.ok then !r.ok
            else
              var r1 := ReadParts(p.rest, p.value.1);
              r == Read([p.value.0] + r1.value, r1.rest, r1.ok)
              && before + ([p.value.0] + r1.value) == before + [p.value.0] + r1.value
  {
    hide ReadPart;
  }

  lemma NoParts(pen: Point)
    ensures ReadParts([], pen) == Read([], [], true)
  {
  }

  /** The whole icon. */
  method Decode(d: bytes) returns (w: nat, h: nat, parts: seq<Part>, ok: bool)
    ensures var (w1, h1, r) := Decoded(d);
            w == w1 && h == h1 && ok == r.ok && (ok ==> parts == r.value && r.rest == [])
  {
    hide ReadU;
    var rd := new Reader(d);
    assert d[0..] == d;
    w := rd.U();
    h := rd.U();
    parts := [];
    if rd.ok { parts := rd.PartsAt(ORIGIN); }
    ok := rd.ok;
    if ok { PartsEnd(d); }
  }

  lemma {:induction false} AllRead(d: bytes, pen: Point)
    ensures ReadParts(d, pen).ok ==> ReadParts(d, pen).rest == []
    decreases |d|
  {
    hide ReadPart;
    if d == [] {
    } else {
      var p := ReadPart(d, pen);
      if p.ok { AllRead(p.rest, p.value.1); }
    }
  }

  lemma PartsEnd(d: bytes)
    ensures Decoded(d).2.ok ==> Decoded(d).2.rest == []
  {
    hide ReadU, ReadParts;
    AllRead(ReadU(ReadU(d, 0, 0).rest, 0, 0).rest, ORIGIN);
  }

  /** The decoder run on the encoder's output. */
  method EncodeThenDecode(w: nat, h: nat, items: seq<Item>) returns (same: bool)
    requires forall k :: 0 <= k < |items| ==> ItemFits(items[k])
    ensures same <==> w < WORD && h < WORD && GoodParts(AllParts(items), ORIGIN)
  {
    hide Encoded, Decoded, GoodParts, AllParts;
    var out := Encode(w, h, items);
    var w1, h1, parts, ok := Decode(out);
    IconRoundTrip(w, h, items);
    same := w1 == w && h1 == h && ok && parts == AllParts(items);
    ReadIs(Decoded(out).2);
  }

  lemma ReadIs(r: Read<seq<Part>>)
    ensures r == Read(r.value, r.rest, r.ok)
  {
  }

  /** One code further, for a reader that has `before` already. */
  lemma OpsStep(d: bytes, pen: Point, before: seq<Op>)
    ensures var r := ReadOps(d, pen);
            if d == [] then !r.ok
            else
              var o := ReadOp(d, pen);
              if !o.ok then !r.ok
              else if !o.value.2 then r == Read((o.value.0, o.value.1), o.rest, true)
              else
                var r1 := ReadOps(o.rest, o.value.1);
                r == Read((o.value.0 + r1.value.0, r1.value.1), r1.rest, r1.ok)
                && before + (o.value.0 + r1.value.0) == before + o.value.0 + r1.value.0
  {
    hide ReadOp;
  }
}
