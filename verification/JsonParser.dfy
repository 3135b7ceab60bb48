/**
 * The JSON parser that unescapes inside its own buffer and lays the tree out
 * as a flat node array, and the lookups on that array (src/base/json.cpp).
 */
module JsonParser {
  import opened Utf8
  import opened Ascii
  import opened JsonGrammar

  datatype Kind = KNull | KBool | KInt | KDouble | KString | KArray | KObject

  datatype Payload = Num(i: int) | Real(lexeme: bytes) | Slice(off: nat, len: nat) | Count(n: nat)

  /** `end` is the index after the node's subtree. */
  datatype Node = Node(kind: Kind, end: nat, keyOff: nat, keyLen: nat, v: Payload)

  // ---- What a node array stands for ----

  predicate SliceIs(buf: bytes, lim: nat, off: nat, len: nat, s: bytes)
  {
    off + len <= lim <= |buf| && buf[off..off + len] == s
  }

  /** Node `i` and the nodes up to its `end` are the preorder form of `v`; its bytes lie before `lim`. */
  predicate Encodes(nodes: seq<Node>, buf: bytes, lim: nat, i: nat, v: Value)
    decreases v, 1
  {
    && i < |nodes| && i < nodes[i].end <= |nodes|
    && match v
       case Null => nodes[i].kind == KNull && nodes[i].end == i + 1
       case Bool(b) => nodes[i].kind == KBool && nodes[i].end == i + 1 && nodes[i].v == Num(if b then 1 else 0)
       case Int(n) => nodes[i].kind == KInt && nodes[i].end == i + 1 && nodes[i].v == Num(n)
       case Double(lexeme) => nodes[i].kind == KDouble && nodes[i].end == i + 1 && nodes[i].v == Real(lexeme)
       case Str(s) =>
         && nodes[i].kind == KString && nodes[i].end == i + 1
         && nodes[i].v.Slice? && SliceIs(buf, lim, nodes[i].v.off, nodes[i].v.len, s)
       case Container(obj, kids) =>
         && nodes[i].kind == (if obj then KObject else KArray)
         && nodes[i].v == Count(|kids|)
         && EncodesKids(nodes, buf, lim, kids, i + 1, nodes[i].end)
  }

  /** The nodes `[c, end)` are the forms of `kids` one after the other, each with its key. */
  predicate EncodesKids(nodes: seq<Node>, buf: bytes, lim: nat, kids: seq<Member>, c: nat, end: nat)
    decreases kids, 0
  {
    if kids == [] then c == end
    else
      && c < |nodes| && c < nodes[c].end <= end
      && SliceIs(buf, lim, nodes[c].keyOff, nodes[c].keyLen, kids[0].key)
      && Encodes(nodes, buf, lim, c, kids[0].value)
      && EncodesKids(nodes, buf, lim, kids[1..], nodes[c].end, end)
  }

  /** Nodes added elsewhere and bytes changed past `lim` leave the form intact. */
  lemma {:induction false} EncodesKeeps(nodes: seq<Node>, buf: bytes, lim: nat, i: nat, v: Value, nodes': seq<Node>, buf': bytes, lim': nat)
    requires Encodes(nodes, buf, lim, i, v)
    requires nodes[i].end <= |nodes'| && forall j :: i <= j < nodes[i].end ==> nodes'[j] == nodes[j]
    requires lim <= lim' <= |buf'| && lim <= |buf| && buf'[..lim] == buf[..lim]
    ensures Encodes(nodes', buf', lim', i, v)
    decreases v, 1
  {
    match v
    case Str(s) => SliceKeeps(buf, lim, nodes[i].v.off, nodes[i].v.len, s, buf', lim');
    case Container(obj, kids) =>
      EncodesKidsKeeps(nodes, buf, lim, kids, i + 1, nodes[i].end, nodes', buf', lim');
    case _ =>
  }

  lemma SliceKeeps(buf: bytes, lim: nat, off: nat, len: nat, s: bytes, buf': bytes, lim': nat)
    requires SliceIs(buf, lim, off, len, s) && lim <= lim' <= |buf'| && buf'[..lim] == buf[..lim]
    ensures SliceIs(buf', lim', off, len, s)
  {
    assert buf'[off..off + len] == buf'[..lim][off..off + len] == buf[..lim][off..off + len];
  }

  lemma {:induction false} EncodesKidsKeeps(nodes: seq<Node>, buf: bytes, lim: nat, kids: seq<Member>, c: nat, end: nat,
                                            nodes': seq<Node>, buf': bytes, lim': nat)
    requires EncodesKids(nodes, buf, lim, kids, c, end) && end <= |nodes|
    requires end <= |nodes'| && forall j :: c <= j < end ==> nodes'[j] == nodes[j]
    requires lim <= lim' <= |buf'| && lim <= |buf| && buf'[..lim] == buf[..lim]
    ensures EncodesKids(nodes', buf', lim', kids, c, end)
    decreases kids, 0
  {
    if kids == [] {
    } else {
      SliceKeeps(buf, lim, nodes[c].keyOff, nodes[c].keyLen, kids[0].key, buf', lim');
      EncodesKeeps(nodes, buf, lim, c, kids[0].value, nodes', buf', lim');
      EncodesKidsKeeps(nodes, buf, lim, kids[1..], nodes[c].end, end, nodes', buf', lim');
    }
  }

  lemma {:induction false} EncodesKidsPush(nodes: seq<Node>, buf: bytes, lim: nat, kids: seq<Member>, c: nat, e: nat, m: Member)
    requires EncodesKids(nodes, buf, lim, kids, c, e) && e < |nodes|
    requires SliceIs(buf, lim, nodes[e].keyOff, nodes[e].keyLen, m.key) && Encodes(nodes, buf, lim, e, m.value)
    ensures EncodesKids(nodes, buf, lim, kids + [m], c, nodes[e].end)
    decreases kids
  {
    if kids == [] {
      assert [m][1..] == [];
      assert kids + [m] == [m];
    } else {
      EncodesKidsPush(nodes, buf, lim, kids[1..], nodes[c].end, e, m);
      assert (kids + [m])[1..] == kids[1..] + [m];
    }
  }

  // ---- Unescaping ----

  predicate IsRunByte(b: byte) { b >= 0x20 && b != QUOTE && b != BACKSLASH }

  lemma {:induction false} RunUnescapes(t: bytes, k: nat)
    requires k <= |t| && forall i :: 0 <= i < k ==> IsRunByte(t[i])
    ensures Unescape(t) == Before(t[..k], Unescape(t[k..]))
    decreases k
  {
    if k == 0 {
      assert t[0..] == t;
      BeforeNothing(Unescape(t));
    } else {
      RunUnescapes(t[1..], k - 1);
      assert t[1..][k - 1..] == t[k..];
      assert [t[0]] + t[1..][..k - 1] == t[..k];
      BeforeTwice([t[0]], t[1..][..k - 1], Unescape(t[k..]));
    }
  }

  /** What the next byte decides. */
  lemma UnescapeStep(t: bytes, done: bytes)
    ensures t == [] || t[0] < 0x20 ==> Before(done, Unescape(t)).Fail?
    ensures t != [] && t[0] == QUOTE ==> Before(done, Unescape(t)) == Done(done, t[1..])
    ensures t != [] && t[0] == BACKSLASH ==>
              Before(done, Unescape(t)) == if Escape(t[1..]).Fail? then Fail
                                           else Before(done + Escape(t[1..]).value, Unescape(Escape(t[1..]).rest))
  {
    if t != [] && t[0] == BACKSLASH && Escape(t[1..]).Done? {
      BeforeTwice(done, Escape(t[1..]).value, Unescape(Escape(t[1..]).rest));
    }
    assert done + [] == done;
  }

  lemma BeforeNothing(r: Parse<bytes>)
    ensures Before([], r) == r
  {
    if r.Done? { assert [] + r.value == r.value; }
  }

  lemma BeforeTwice(a: bytes, b: bytes, r: Parse<bytes>)
    ensures Before(a, Before(b, r)) == Before(a + b, r)
  {
    if r.Done? { assert a + (b + r.value) == a + b + r.value; }
  }

  class Parser {
    var buf: bytes
    var p: nat
    var nodes: seq<Node>

    constructor (text: bytes)
      ensures buf == text && p == 0 && nodes == []
    {
      buf, p, nodes := text, 0, [];
    }

    /** The text still to be read. */
    function Rest(): bytes
      reads this
      requires p <= |buf|
    {
      buf[p..]
    }

    method SkipSpace()
      requires p <= |buf|
      modifies `p
      ensures old(p) <= p <= |buf| && Rest() == SkipWs(old(Rest()))
    {
      while p < |buf| && IsWs(buf[p])
        invariant old(p) <= p <= |buf| && SkipWs(Rest()) == SkipWs(old(Rest()))
      {
        assert Rest()[1..] == buf[p + 1..];
        p := p + 1;
      }
    }

    method ReadHex4() returns (ok: bool, out: nat)
      requires p <= |buf|
      modifies `p
      ensures ok <==> Hex4(old(Rest())).Done?
      ensures ok ==> p == old(p) + 4 <= |buf| && Hex4(old(Rest())) == Done(out, Rest())
      ensures !ok ==> p == old(p)
    {
      out := 0;
      if |buf| - p < 4 { return false, out; }
      ghost var t := Rest();
      var k := 0;
      while k < 4
        invariant 0 <= k <= 4
        invariant forall j :: 0 <= j < k ==> HexDigit(t[j]) >= 0
        invariant out == HexPrefix(t, k)
      {
        var h := HexDigit(buf[p + k]);
        assert buf[p + k] == t[k];
        if h < 0 { return false, out; }
        out := out * 16 + h;
        k := k + 1;
      }
      assert t[4..] == buf[p + 4..];
      assert HexPrefix(t, 1) == HexDigit(t[0]) && HexPrefix(t, 2) == HexPrefix(t, 1) * 16 + HexDigit(t[1]);
      p := p + 4;
      ok := true;
    }

    /** A unicode escape after its `u`, with its low half when it has one. */
    method ReadUnicode() returns (ok: bool, cp: nat)
      requires p <= |buf|
      modifies `p
      ensures old(p) <= p <= |buf| && (ok <==> UnicodeEscape(old(Rest())).Done?)
      ensures ok ==> old(p) <= p <= |buf| && UnicodeEscape(old(Rest())) == Done(cp, Rest())
    {
      ok, cp := ReadHex4();
      if !ok { return; }
      if 0xD800 <= cp <= 0xDBFF {
        if |buf| - p >= 6 && buf[p] == BACKSLASH && buf[p + 1] == 0x75 {
          var save := p;
          assert Rest()[2..] == buf[p + 2..];
          p := p + 2;
          var lo;
          ok, lo := ReadHex4();
          if !ok { return; }
          if 0xDC00 <= lo <= 0xDFFF {
            cp := 0x10000 + (cp - 0xD800) * 1024 + (lo - 0xDC00);
          } else {
            cp := REPLACEMENT;
            p := save;
          }
        } else {
          cp := REPLACEMENT;
        }
      } else if 0xDC00 <= cp <= 0xDFFF {
        cp := REPLACEMENT;
      }
    }

    /** One escape after its backslash: the bytes it stands for. */
    method ReadEscape() returns (ok: bool, decoded: bytes)
      requires p <= |buf|
      modifies `p
      ensures old(p) <= p <= |buf| && (ok <==> Escape(old(Rest())).Done?)
      ensures ok ==> old(p) < p <= |buf| && Escape(old(Rest())) == Done(decoded, Rest())
    {
      hide UnicodeEscape, Encode;
      decoded := [];
      if p >= |buf| { return false, decoded; }
      var e := buf[p];
      assert Rest()[1..] == buf[p + 1..];
      p := p + 1;
      if SimpleEscape(e) >= 0 {
        decoded := [SimpleEscape(e)];
      } else if e == 0x75 {
        var got, cp := ReadUnicode();
        if !got { return false, decoded; }
        decoded := Encode(cp);
      } else {
        p := p - 1;
        return false, decoded;
      }
      ok := true;
    }

    /** Writes `s` at the write cursor, which it moves; all the read cursor has passed may be overwritten. */
    method Put(ghost start: nat, w: nat, s: bytes) returns (w': nat)
      requires start <= w && w + |s| <= p <= |buf|
      modifies `buf
      ensures |buf| == old(|buf|) && w' == w + |s|
      ensures buf[..start] == old(buf)[..start] && buf[start..w'] == old(buf)[start..w] + s && Rest() == old(Rest())
    {
      Splice(buf, start, w, p, s);
      buf := buf[..w] + s + buf[w + |s|..];
      w' := w + |s|;
    }

    /** Moves a run of plain bytes down to the write cursor; before any escape it is already there. */
    method CopyRun(ghost start: nat, w: nat) returns (w': nat)
      requires start <= w <= p < |buf| && IsRunByte(buf[p])
      modifies `buf, `p
      ensures |buf| == old(|buf|) && old(p) < p <= |buf| && start <= w <= w' <= p
      ensures buf[..start] == old(buf)[..start] && Rest() == old(buf)[p..]
      ensures buf[start..w'] == old(buf)[start..w] + old(buf)[old(p)..p]
      ensures Before(old(buf)[start..w], Unescape(old(Rest()))) == Before(buf[start..w'], Unescape(Rest()))
    {
      hide Unescape, Before;
      ghost var t, done := Rest(), buf[start..w];
      var run := p;
      p := p + 1;
      while p < |buf| && IsRunByte(buf[p])
        invariant buf == old(buf) && run < p <= |buf| && forall i :: run <= i < p ==> IsRunByte(buf[i])
      {
        p := p + 1;
      }
      RunUnescapes(t, p - run);
      assert t[..p - run] == buf[run..p] && t[p - run..] == Rest();
      BeforeTwice(done, buf[run..p], Unescape(Rest()));
      w' := w + (p - run);
      if w != run {
        var _ := Put(start, w, buf[run..p]);
      } else {
        assert buf[start..p] == buf[start..w] + buf[run..p];
      }
    }

    /**
     * A string from its opening quote, unescaped in place: the write cursor
     * stays behind the read cursor, so what is still to be read, and all that
     * lies before the string, is as it was.
     */
    method ParseString() returns (ok: bool, off: nat, len: nat)
      requires p < |buf|
      modifies `buf, `p
      ensures |buf| == old(|buf|) && old(p) < p <= |buf| && buf[..old(p)] == old(buf)[..old(p)]
      ensures ok <==> Unescape(old(buf)[old(p) + 1..]).Done?
      ensures ok ==> var u := Unescape(old(buf)[old(p) + 1..]); Rest() == u.rest && SliceIs(buf, p, off, len, u.value)
    {
      hide Unescape, Escape, Before, Encode;
      p := p + 1;
      var start, w := p, p;
      off, len := 0, 0;
      assert buf[start..w] == [];
      BeforeNothing(Unescape(Rest()));
      while true
        invariant |buf| == old(|buf|) && old(p) + 1 == start <= w <= p <= |buf|
        invariant buf[..start] == old(buf)[..start]
        invariant Unescape(old(buf)[start..]) == Before(buf[start..w], Unescape(Rest()))
        decreases |buf| - p
      {
        ghost var t, done := Rest(), buf[start..w];
        UnescapeStep(t, done);
        if p >= |buf| { return false, off, len; }
        var c := buf[p];
        assert t[0] == c && t[1..] == buf[p + 1..];
        if c == QUOTE {
          p := p + 1;
          break;
        }
        if c < 0x20 { return false, off, len; }
        if c != BACKSLASH {
          w := CopyRun(start, w);
          continue;
        }
        p := p + 1;
        var got, decoded := ReadEscape();
        if !got { return false, off, len; }
        w := Put(start, w, decoded);
      }
      off, len := start, w - start;
      ok := true;
    }

    method SkipDigitRun()
      requires p <= |buf|
      modifies `p
      ensures old(p) <= p <= |buf| && Rest() == SkipDigits(old(Rest()))
    {
      while p < |buf| && IsDigit(buf[p])
        invariant old(p) <= p <= |buf| && SkipDigits(Rest()) == SkipDigits(old(Rest()))
      {
        assert Rest()[1..] == buf[p + 1..];
        p := p + 1;
      }
    }

    method ReadIntegerPart() returns (ok: bool)
      requires p < |buf|
      modifies `p
      ensures old(p) <= p <= |buf| && (ok <==> IntegerPart(old(Rest())).Done?)
      ensures ok ==> old(p) < p <= |buf| && Rest() == IntegerPart(old(Rest())).rest
    {
      ghost var t := Rest();
      if buf[p] == MINUS {
        assert t[1..] == buf[p + 1..];
        p := p + 1;
      }
      if p >= |buf| { return false; }
      assert Rest()[1..] == buf[p + 1..];
      if buf[p] == ZERO {
        p := p + 1;
        ok := !(p < |buf| && IsDigit(buf[p]));
      } else if IsDigit(buf[p]) {
        SkipDigitRun();
        ok := true;
      } else {
        ok := false;
      }
    }

    method ReadFraction() returns (ok: bool, some: bool)
      requires p <= |buf|
      modifies `p
      ensures old(p) <= p <= |buf| && (ok <==> Fraction(old(Rest())).Done?)
      ensures ok ==> old(p) <= p <= |buf| && Fraction(old(Rest())) == Done(some, Rest())
    {
      ok, some := true, false;
      if p < |buf| && buf[p] == DOT {
        some := true;
        assert Rest()[1..] == buf[p + 1..];
        p := p + 1;
        if p >= |buf| || !IsDigit(buf[p]) { return false, some; }
        SkipDigitRun();
      }
    }

    method ReadExponent() returns (ok: bool, some: bool)
      requires p <= |buf|
      modifies `p
      ensures old(p) <= p <= |buf| && (ok <==> Exponent(old(Rest())).Done?)
      ensures ok ==> old(p) <= p <= |buf| && Exponent(old(Rest())) == Done(some, Rest())
    {
      ok, some := true, false;
      if p < |buf| && (buf[p] == 0x65 || buf[p] == 0x45) {
        some := true;
        assert Rest()[1..] == buf[p + 1..];
        assert p + 2 <= |buf| ==> Rest()[2..] == buf[p + 2..];
        p := p + 1;
        if p < |buf| && (buf[p] == PLUS || buf[p] == MINUS) { p := p + 1; }
        if p >= |buf| || !IsDigit(buf[p]) { return false, some; }
        SkipDigitRun();
      }
    }

    /** Fills in node `i` from a number's lexeme. */
    method ParseNumber(i: nat) returns (ok: bool)
      requires p < |buf| && i < |nodes|
      modifies `p, `nodes
      ensures old(p) <= p <= |buf| && (ok <==> Number(old(Rest())).Done?)
      ensures ok ==> old(p) < p <= |buf| && Rest() == Number(old(Rest())).rest
      ensures |nodes| == |old(nodes)| && (!ok ==> nodes == old(nodes))
      ensures ok ==> nodes == old(nodes)[i := WithNumber(old(nodes)[i], Number(old(Rest())).value)]
    {
      hide IntegerPart, Fraction, Exponent, NumberValue, WithNumber;
      ghost var t := Rest();
      var start := p;
      ok := ReadIntegerPart();
      if !ok { return; }
      var frac, exp;
      ok, frac := ReadFraction();
      if !ok { return; }
      ok, exp := ReadExponent();
      if !ok { return; }
      var lexeme := buf[start..p];
      assert lexeme == t[..p - start];
      nodes := nodes[i := WithNumber(nodes[i], NumberValue(lexeme, !frac && !exp))];
    }

    method ReadLiteral(word: bytes) returns (ok: bool)
      requires p <= |buf|
      modifies `p
      ensures ok <==> word <= old(Rest())
      ensures ok ==> p == old(p) + |word| <= |buf| && Rest() == old(Rest())[|word|..]
      ensures !ok ==> p == old(p)
    {
      if |buf| - p >= |word| { assert Rest()[..|word|] == buf[p..p + |word|]; }
      if |buf| - p < |word| || buf[p..p + |word|] != word { return false; }
      p := p + |word|;
      ok := true;
    }

    /** A node of the given kind, its subtree not closed yet. */
    method Push(kind: Kind, keyOff: nat, keyLen: nat) returns (i: nat)
      modifies `nodes
      ensures i == |old(nodes)| && nodes == old(nodes) + [Node(kind, 0, keyOff, keyLen, Num(0))]
    {
      i := |nodes|;
      nodes := nodes + [Node(kind, 0, keyOff, keyLen, Num(0))];
    }

    /**
     * One value: its nodes go after those already there, its strings are left
     * in the stretch of the buffer it was read from, and neither what lies
     * before nor what is still to be read changes.
     */
    method ParseValue(depth: nat, keyOff: nat, keyLen: nat) returns (ok: bool)
      requires p <= |buf|
      modifies this
      ensures |buf| == old(|buf|) && old(p) <= p <= |buf| && buf[..old(p)] == old(buf)[..old(p)]
      ensures |old(nodes)| <= |nodes| && nodes[..|old(nodes)|] == old(nodes)
      ensures ok <==> JsonGrammar.ParseValue(old(Rest()), depth).Done?
      ensures ok ==> var r, i := JsonGrammar.ParseValue(old(Rest()), depth), |old(nodes)|;
                     && Rest() == r.rest && old(p) < p
                     && Encodes(nodes, buf, p, i, r.value)
                     && nodes[i].end == |nodes| && nodes[i].keyOff == keyOff && nodes[i].keyLen == keyLen
      decreases |buf| - p, 1
    {
      if p >= |buf| { return false; }
      var c := buf[p];
      if c == LBRACE || c == LBRACKET {
        if depth >= MAX_DEPTH { return false; }
        ok := ParseContainer(depth, keyOff, keyLen);
      } else if c == QUOTE {
        var i := Push(KString, keyOff, keyLen);
        assert Rest()[1..] == buf[p + 1..];
        var off, len;
        ok, off, len := ParseString();
        if ok { nodes := nodes[i := nodes[i].(v := Slice(off, len), end := |nodes|)]; }
        assert nodes[..i] == old(nodes);
      } else {
        ok := ParseScalar(depth, keyOff, keyLen);
      }
    }

    /** A literal or a number. */
    method ParseScalar(ghost depth: nat, keyOff: nat, keyLen: nat) returns (ok: bool)
      requires p < |buf| && buf[p] != LBRACE && buf[p] != LBRACKET && buf[p] != QUOTE
      modifies `p, `nodes
      ensures old(p) <= p <= |buf|
      ensures |old(nodes)| <= |nodes| && nodes[..|old(nodes)|] == old(nodes)
      ensures ok <==> JsonGrammar.ParseValue(old(Rest()), depth).Done?
      ensures ok ==> var r, i := JsonGrammar.ParseValue(old(Rest()), depth), |old(nodes)|;
                     && Rest() == r.rest && old(p) < p
                     && Encodes(nodes, buf, p, i, r.value)
                     && nodes[i].end == |nodes| && nodes[i].keyOff == keyOff && nodes[i].keyLen == keyLen
    {
      var c := buf[p];
      var i;
      if c == 0x74 {
        i := Push(KBool, keyOff, keyLen);
        ok := ReadLiteral(TRUE_WORD);
        if ok { nodes := nodes[i := nodes[i].(v := Num(1), end := |nodes|)]; }
      } else if c == 0x66 {
        i := Push(KBool, keyOff, keyLen);
        ok := ReadLiteral(FALSE_WORD);
        if ok { nodes := nodes[i := nodes[i].(end := |nodes|)]; }
      } else if c == 0x6E {
        i := Push(KNull, keyOff, keyLen);
        ok := ReadLiteral(NULL_WORD);
        if ok { nodes := nodes[i := nodes[i].(end := |nodes|)]; }
      } else if c == MINUS || IsDigit(c) {
        i := Push(KInt, keyOff, keyLen);
        ok := ParseNumber(i);
        if ok { nodes := nodes[i := nodes[i].(end := |nodes|)]; }
      } else {
        return false;
      }
      assert nodes[..i] == old(nodes);
    }

    method ParseContainer(depth: nat, keyOff: nat, keyLen: nat) returns (ok: bool)
      requires p < |buf| && (buf[p] == LBRACE || buf[p] == LBRACKET) && depth < MAX_DEPTH
      modifies this
      ensures |buf| == old(|buf|) && old(p) <= p <= |buf| && buf[..old(p)] == old(buf)[..old(p)]
      ensures |old(nodes)| <= |nodes| && nodes[..|old(nodes)|] == old(nodes)
      ensures ok <==> JsonGrammar.ParseValue(old(Rest()), depth).Done?
      ensures ok ==> var r, i := JsonGrammar.ParseValue(old(Rest()), depth), |old(nodes)|;
                     && Rest() == r.rest && old(p) < p
                     && Encodes(nodes, buf, p, i, r.value)
                     && nodes[i].end == |nodes| && nodes[i].keyOff == keyOff && nodes[i].keyLen == keyLen
      decreases |buf| - p, 0
    {
      hide ParseMembers, SkipWs, Encodes, EncodesKids, JsonGrammar.ParseValue;
      ContainerValue(Rest(), depth);
      var obj := buf[p] == LBRACE;
      var i := Push(if obj then KObject else KArray, keyOff, keyLen);
      assert Rest()[1..] == buf[p + 1..];
      p := p + 1;
      SkipSpace();
      var count: nat := 0;
      ghost var kids: seq<Member> := [];
      if p < |buf| && buf[p] == CloseOf(obj) {
        assert Rest()[1..] == buf[p + 1..];
        p := p + 1;
        NoKids(nodes, buf, p);
      } else {
        ok, count, kids := ParseKids(depth, obj);
        if !ok { return; }
      }
      ghost var laid := nodes;
      assert laid[..i + 1][i] == laid[i];
      nodes := nodes[i := nodes[i].(v := Count(count), end := |nodes|)];
      assert nodes[..i] == laid[..i + 1][..i] == old(nodes);
      ContainerEncoded(laid, nodes, buf, p, i, obj, kids);
      ok := true;
    }

    /** The members of a container after its opening bracket, up to and including the closing one. */
    method ParseKids(depth: nat, obj: bool) returns (ok: bool, count: nat, ghost kids: seq<Member>)
      requires p <= |buf|
      modifies this
      ensures |buf| == old(|buf|) && old(p) <= p <= |buf| && buf[..old(p)] == old(buf)[..old(p)]
      ensures |old(nodes)| <= |nodes| && nodes[..|old(nodes)|] == old(nodes)
      ensures ok <==> ParseMembers(old(Rest()), depth, obj).Done?
      ensures ok ==> ParseMembers(old(Rest()), depth, obj) == Done(kids, Rest()) && count == |kids|
      ensures ok ==> EncodesKids(nodes, buf, p, kids, |old(nodes)|, |nodes|)
      decreases |buf| - p, 3
    {
      hide SkipWs, Encodes, EncodesKids, ParseMembers, MemberKey, JsonGrammar.ParseValue;
      count, kids := 0, [];
      NoKids(nodes, buf, p);
      while true
        invariant |buf| == old(|buf|) && old(p) <= p <= |buf| && buf[..old(p)] == old(buf)[..old(p)]
        invariant |old(nodes)| <= |nodes| && nodes[..|old(nodes)|] == old(nodes)
        invariant ParseMembers(old(Rest()), depth, obj) == Prepend(kids, ParseMembers(Rest(), depth, obj))
        invariant count == |kids| && EncodesKids(nodes, buf, p, kids, |old(nodes)|, |nodes|)
        decreases |buf| - p
      {
        ghost var t := Rest();
        ghost var m: Member;
        ok, m := ParseMember(depth, obj, kids, |old(nodes)|);
        MembersStep(t, depth, obj, kids);
        if !ok { return; }
        count, kids := count + 1, kids + [m];
        ghost var lim := p;
        var more;
        more, ok := Separator(obj);
        if !more && !ok { return; }
        EncodesKidsKeeps(nodes, buf, lim, kids, |old(nodes)|, |nodes|, nodes, buf, p);
        if !more { return; }
      }
    }

    /** What follows a member: a comma, and space up to the next one, or the closing bracket. */
    method Separator(obj: bool) returns (more: bool, closed: bool)
      requires p <= |buf|
      modifies `p
      ensures old(p) <= p <= |buf| && !(more && closed) && (more || closed ==> old(p) < p)
      ensures var u := SkipWs(old(Rest()));
              if u != [] && u[0] == COMMA then more && Rest() == SkipWs(u[1..])
              else if u != [] && u[0] == CloseOf(obj) then closed && Rest() == u[1..]
              else !more && !closed
    {
      hide SkipWs;
      SkipSpace();
      more, closed := false, false;
      if p < |buf| && buf[p] == COMMA {
        assert Rest()[1..] == buf[p + 1..];
        p, more := p + 1, true;
        SkipSpace();
      } else if p < |buf| && buf[p] == CloseOf(obj) {
        assert Rest()[1..] == buf[p + 1..];
        p, closed := p + 1, true;
      }
    }

    /** One member, laid out after the ones already there. */
    method ParseMember(depth: nat, obj: bool, ghost kids: seq<Member>, ghost first: nat) returns (ok: bool, ghost m: Member)
      requires p <= |buf| && EncodesKids(nodes, buf, p, kids, first, |nodes|)
      modifies this
      ensures |buf| == old(|buf|) && old(p) <= p <= |buf| && buf[..old(p)] == old(buf)[..old(p)]
      ensures |old(nodes)| <= |nodes| && nodes[..|old(nodes)|] == old(nodes)
      ensures var k := MemberKey(old(Rest()), obj);
              && (ok <==> k.Done? && JsonGrammar.ParseValue(k.rest, depth + 1).Done?)
              && (ok ==> var v := JsonGrammar.ParseValue(k.rest, depth + 1);
                         m == Member(k.value, v.value) && Rest() == v.rest && old(p) < p)
      ensures ok ==> EncodesKids(nodes, buf, p, kids + [m], first, |nodes|)
      decreases |buf| - p, 2
    {
      hide JsonGrammar.ParseValue, MemberKey;
      m := Member([], Null);
      ghost var laid, was, lim := nodes, buf, p;
      var ko, kl;
      ok, ko, kl := ReadKey(obj);
      if !ok { return; }
      ghost var key, keyEnd, keyed := MemberKey(old(Rest()), obj), p, buf;
      ok := ParseValue(depth + 1, ko, kl);
      if !ok { return; }
      m := Member(key.value, JsonGrammar.ParseValue(key.rest, depth + 1).value);
      SliceKeeps(keyed, keyEnd, ko, kl, key.value, buf, p);
      assert buf[..lim] == buf[..keyEnd][..lim] == keyed[..keyEnd][..lim] == was[..lim];
      forall j | first <= j < |laid| ensures nodes[j] == laid[j] { assert nodes[..|laid|][j] == laid[j]; }
      EncodesKidsKeeps(laid, was, lim, kids, first, |laid|, nodes, buf, p);
      EncodesKidsPush(nodes, buf, p, kids, first, |laid|, m);
    }

    /** A member's name with its colon; in an array, nothing. */
    method ReadKey(obj: bool) returns (ok: bool, ko: nat, kl: nat)
      requires p <= |buf|
      modifies `buf, `p
      ensures |buf| == old(|buf|) && old(p) <= p <= |buf| && buf[..old(p)] == old(buf)[..old(p)]
      ensures ok <==> MemberKey(old(Rest()), obj).Done?
      ensures ok ==> var k := MemberKey(old(Rest()), obj); Rest() == k.rest && SliceIs(buf, p, ko, kl, k.value)
    {
      hide Unescape, SkipWs;
      ko, kl := 0, 0;
      if !obj { return true, ko, kl; }
      if p >= |buf| || buf[p] != QUOTE { return false, ko, kl; }
      assert Rest()[1..] == buf[p + 1..];
      ok, ko, kl := ParseString();
      if !ok { return; }
      SkipSpace();
      if p >= |buf| || buf[p] != COLON { return false, ko, kl; }
      assert Rest()[1..] == buf[p + 1..];
      p := p + 1;
      SkipSpace();
    }
  }

  lemma ContainerValue(t: bytes, depth: nat)
    requires t != [] && (t[0] == LBRACE || t[0] == LBRACKET) && depth < MAX_DEPTH
    ensures var obj, u := t[0] == LBRACE, SkipWs(t[1..]);
            if u != [] && u[0] == CloseOf(obj) then JsonGrammar.ParseValue(t, depth) == Done(Container(obj, []), u[1..])
            else if ParseMembers(u, depth, obj).Fail? then JsonGrammar.ParseValue(t, depth).Fail?
            else JsonGrammar.ParseValue(t, depth)
                 == Done(Container(obj, ParseMembers(u, depth, obj).value), ParseMembers(u, depth, obj).rest)
  {
  }

  /** Filling in a container's node over its laid-out members completes it. */
  lemma ContainerEncoded(laid: seq<Node>, nodes: seq<Node>, buf: bytes, lim: nat, i: nat, obj: bool, kids: seq<Member>)
    requires i < |laid| && laid[i].kind == (if obj then KObject else KArray) && lim <= |buf|
    requires EncodesKids(laid, buf, lim, kids, i + 1, |laid|)
    requires nodes == laid[i := laid[i].(v := Count(|kids|), end := |laid|)]
    ensures Encodes(nodes, buf, lim, i, Container(obj, kids))
  {
    EncodesKidsKeeps(laid, buf, lim, kids, i + 1, |laid|, nodes, buf, lim);
  }

  lemma NoKids(nodes: seq<Node>, buf: bytes, lim: nat)
    ensures EncodesKids(nodes, buf, lim, [], |nodes|, |nodes|)
    ensures forall r :: Prepend([], r) == r
  {
    forall r: Parse<seq<Member>> ensures Prepend([], r) == r {
      if r.Done? { assert [] + r.value == r.value; }
    }
  }

  /** One round of the member loop, on what is left to read. */
  lemma MembersStep(t: bytes, depth: nat, obj: bool, kids: seq<Member>)
    ensures var k := MemberKey(t, obj);
            if k.Fail? || JsonGrammar.ParseValue(k.rest, depth + 1).Fail? then ParseMembers(t, depth, obj).Fail?
            else
              var v := JsonGrammar.ParseValue(k.rest, depth + 1);
              var m, u := Member(k.value, v.value), SkipWs(v.rest);
              if u != [] && u[0] == COMMA then
                Prepend(kids, ParseMembers(t, depth, obj)) == Prepend(kids + [m], ParseMembers(SkipWs(u[1..]), depth, obj))
              else if u != [] && u[0] == CloseOf(obj) then
                Prepend(kids, ParseMembers(t, depth, obj)) == Done(kids + [m], u[1..])
              else ParseMembers(t, depth, obj).Fail?
  {
    var k := MemberKey(t, obj);
    if k.Done? && JsonGrammar.ParseValue(k.rest, depth + 1).Done? {
      var v := JsonGrammar.ParseValue(k.rest, depth + 1);
      var m, u := Member(k.value, v.value), SkipWs(v.rest);
      if u != [] && u[0] == COMMA {
        var more := ParseMembers(SkipWs(u[1..]), depth, obj);
        if more.Done? { assert kids + ([m] + more.value) == kids + [m] + more.value; }
      }
    }
  }

  function WithNumber(n: Node, v: Value): Node
  {
    match v
    case Int(i) => n.(kind := KInt, v := Num(i))
    case Double(lexeme) => n.(kind := KDouble, v := Real(lexeme))
    case _ => n
  }

  function HexPrefix(t: bytes, k: nat): int
    requires k <= |t|
  {
    if k == 0 then 0 else HexPrefix(t, k - 1) * 16 + HexDigit(t[k - 1])
  }

  /** Writing `s` at the write cursor extends what is written and touches nothing from the read cursor on. */
  lemma Splice(buf: bytes, start: nat, w: nat, p: nat, s: bytes)
    requires start <= w && w + |s| <= p <= |buf|
    ensures var b := buf[..w] + s + buf[w + |s|..];
            |b| == |buf| && b[..start] == buf[..start] && b[start..w + |s|] == buf[start..w] + s && b[p..] == buf[p..]
    ensures buf[w..w + |s|] == s ==> buf[..w] + s + buf[w + |s|..] == buf
  {
  }
}
