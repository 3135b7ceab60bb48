/**
 * The streaming JSON writer (src/base/json.cpp) and what parsing gives back
 * of what it wrote.
 */
module JsonWriter {
  import opened Utf8
  import opened Ascii
  import opened JsonGrammar

  // ---- What is written ----

  predicate IsPlain(c: byte) { c >= 0x20 && c != QUOTE && c != BACKSLASH }

  function EscapeByte(c: byte): (r: bytes)
    ensures r != []
  {
    if IsPlain(c) then [c]
    else if c == QUOTE || c == BACKSLASH then [BACKSLASH, c]
    else if c == 0x0A then [BACKSLASH, 0x6E]
    else if c == 0x0D then [BACKSLASH, 0x72]
    else if c == 0x09 then [BACKSLASH, 0x74]
    else if c == 0x08 then [BACKSLASH, 0x62]
    else if c == 0x0C then [BACKSLASH, 0x66]
    else [BACKSLASH, 0x75, ZERO, ZERO, LowerHex(c / 16), LowerHex(c % 16)]
  }

  function EscapeText(s: bytes): bytes
  {
    if s == [] then [] else EscapeByte(s[0]) + EscapeText(s[1..])
  }

  function Quoted(s: bytes): bytes { [QUOTE] + EscapeText(s) + [QUOTE] }

  function NatText(n: nat): (r: bytes)
    ensures r != []
  {
    if n < 10 then [ZERO + n] else NatText(n / 10) + [ZERO + n % 10]
  }

  function IntText(n: int): (r: bytes)
    ensures r != []
  {
    if n < 0 then [MINUS] + NatText(-n) else NatText(n)
  }

  function Spaces(n: nat): bytes { seq(n, _ => SPACE) }

  function NewLine(pretty: bool, level: nat): bytes { if pretty then [LF] + Spaces(2 * level) else [] }

  /** No doubles, 64-bit integers, and no names in arrays. */
  predicate Writable(v: Value)
    decreases v
  {
    match v
    case Int(n) => InInt64(n)
    case Double(_) => false
    case Container(obj, kids) =>
      (forall k :: 0 <= k < |kids| ==> Writable(kids[k].value)) && (obj || forall k :: 0 <= k < |kids| ==> kids[k].key == [])
    case _ => true
  }

  function Render(v: Value, pretty: bool, level: nat): bytes
    requires Writable(v)
    decreases v
  {
    match v
    case Null => NULL_WORD
    case Bool(b) => if b then TRUE_WORD else FALSE_WORD
    case Int(n) => IntText(n)
    case Str(s) => Quoted(s)
    case Container(obj, kids) =>
      [OpenOf(obj)] + RenderKids(v, 0, pretty, level + 1) + CloseText(obj, kids == [], pretty, level)
  }

  function CloseText(obj: bool, empty: bool, pretty: bool, level: nat): bytes
  {
    (if empty then [] else NewLine(pretty, level)) + [CloseOf(obj)]
  }

  /** The container's members from the i-th on, with the commas between them. */
  function RenderKids(v: Value, i: nat, pretty: bool, level: nat): bytes
    requires v.Container? && Writable(v) && i <= |v.kids|
    decreases v, |v.kids| - i
  {
    if i == |v.kids| then []
    else (if i == 0 then [] else [COMMA]) + RenderMember(v, i, pretty, level) + RenderKids(v, i + 1, pretty, level)
  }

  function RenderMember(v: Value, i: nat, pretty: bool, level: nat): bytes
    requires v.Container? && Writable(v) && i < |v.kids|
    decreases v, 0, 0
  {
    NewLine(pretty, level) + KeyText(v.obj, v.kids[i].key, pretty) + Render(v.kids[i].value, pretty, level)
  }

  function KeyText(obj: bool, key: bytes, pretty: bool): bytes
  {
    if !obj then [] else Quoted(key) + if pretty then [COLON, SPACE] else [COLON]
  }

  // ---- The writer ----

  /** Appends `s` as a string literal, copying unescaped runs whole. */
  method EscapeString(out0: bytes, s: bytes) returns (out: bytes)
    ensures out == out0 + Quoted(s)
  {
    hide EscapeByte, EscapeText;
    EscapeNothing(s);
    out := out0 + [QUOTE];
    var run, i := 0, 0;
    while i < |s|
      invariant 0 <= run <= i <= |s|
      invariant forall k :: run <= k < i ==> IsPlain(s[k])
      invariant out == out0 + [QUOTE] + EscapeText(s[..run])
    {
      var c := s[i];
      if !IsPlain(c) {
        PlainRun(s, run, i);
        out := out + s[run..i];
        EscapePush(s[..i], c);
        assert s[..i + 1] == s[..i] + [c];
        run := i + 1;
        out := out + EscapeByte(c);
      }
      i := i + 1;
    }
    PlainRun(s, run, |s|);
    assert s[..|s|] == s;
    out := out + s[run..] + [QUOTE];
  }

  lemma EscapeNothing(s: bytes)
    ensures EscapeText(s[..0]) == []
  {
  }

  lemma {:induction false} EscapePush(a: bytes, c: byte)
    ensures EscapeText(a + [c]) == EscapeText(a) + EscapeByte(c)
  {
    if a == [] {
      assert EscapeText([c]) == EscapeByte(c) + EscapeText([]);
    } else {
      assert (a + [c])[1..] == a[1..] + [c];
      EscapePush(a[1..], c);
    }
  }

  lemma {:induction false} PlainRun(s: bytes, run: nat, i: nat)
    requires run <= i <= |s| && forall k :: run <= k < i ==> IsPlain(s[k])
    ensures EscapeText(s[..i]) == EscapeText(s[..run]) + s[run..i]
    decreases i - run
  {
    if run < i {
      PlainRun(s, run, i - 1);
      EscapePush(s[..i - 1], s[i - 1]);
      assert s[..i] == s[..i - 1] + [s[i - 1]];
      assert s[run..i] == s[run..i - 1] + [s[i - 1]];
    }
  }

  class Writer {
    const pretty: bool
    var out: bytes
    /** Per open container: whether nothing is written in it yet. */
    var first: seq<bool>
    var afterKey: bool

    constructor (pretty: bool)
      ensures this.pretty == pretty && out == [] && first == [] && !afterKey
    {
      this.pretty, out, first, afterKey := pretty, [], [], false;
    }

    /** What goes before the next value. */
    function Separator(): bytes
      reads this
    {
      if afterKey || first == [] then []
      else (if first[|first| - 1] then [] else [COMMA]) + NewLine(pretty, |first|)
    }

    /** The open containers once a value has been started. */
    function Started(): seq<bool>
      reads this
    {
      if afterKey || first == [] then first else first[|first| - 1 := false]
    }

    method Prefix()
      modifies this
      ensures out == old(out) + old(Separator()) && first == old(Started()) && !afterKey
    {
      if afterKey {
        afterKey := false;
        return;
      }
      if first == [] { return; }
      if !first[|first| - 1] { out := out + [COMMA]; }
      first := first[|first| - 1 := false];
      if pretty { out := out + [LF] + Spaces(2 * |first|); }
    }

    method Open(obj: bool)
      modifies this
      ensures out == old(out) + old(Separator()) + [OpenOf(obj)] && first == old(Started()) + [true] && !afterKey
    {
      Prefix();
      out := out + [OpenOf(obj)];
      first := first + [true];
    }

    method Close(obj: bool)
      modifies this
      ensures old(first) == [] ==> out == old(out) + [CloseOf(obj)] && first == []
      ensures old(first) != [] ==>
                && first == old(first)[..|old(first)| - 1]
                && out == old(out) + CloseText(obj, old(first)[|old(first)| - 1], pretty, |first|)
      ensures afterKey == old(afterKey)
    {
      var empty := first == [] || first[|first| - 1];
      if first != [] { first := first[..|first| - 1]; }
      if pretty && !empty { out := out + [LF] + Spaces(2 * |first|); }
      out := out + [CloseOf(obj)];
    }

    method Key(k: bytes)
      modifies this
      ensures out == old(out) + old(Separator()) + KeyText(true, k, pretty) && first == old(Started()) && afterKey
    {
      Prefix();
      out := EscapeString(out, k);
      out := out + if pretty then [COLON, SPACE] else [COLON];
      afterKey := true;
    }

    /** Copies a value, recursively. */
    method Write(v: Value)
      requires Writable(v)
      modifies this
      ensures out == old(out) + old(Separator()) + Render(v, pretty, |first|) && first == old(Started()) && !afterKey
      decreases v, 1
    {
      hide RenderKids;
      match v
      case Null =>
        Prefix();
        out := out + NULL_WORD;
      case Bool(b) =>
        Prefix();
        out := out + if b then TRUE_WORD else FALSE_WORD;
      case Int(n) =>
        Prefix();
        out := out + IntText(n);
      case Str(s) =>
        Prefix();
        out := EscapeString(out, s);
      case Container(_, _) =>
        WriteContainer(v);
    }

    method WriteKid(v: Value, i: nat, ghost outer: seq<bool>)
      requires v.Container? && Writable(v) && i < |v.kids| && first == outer + [i == 0] && !afterKey
      modifies this
      ensures first == outer + [false] && !afterKey
      ensures out + RenderKids(v, i + 1, pretty, |first|) == old(out) + RenderKids(v, i, pretty, |first|)
      decreases v, 0, 0
    {
      hide Render, RenderKids, KeyText, Writable, NewLine;
      KidWritable(v, i);
      if v.obj { Key(v.kids[i].key); }
      Write(v.kids[i].value);
      KidStep(v, i, pretty, |first|, old(out));
    }

    method WriteContainer(v: Value)
      requires Writable(v) && v.Container?
      modifies this
      ensures out == old(out) + old(Separator()) + Render(v, pretty, |first|) && first == old(Started()) && !afterKey
      decreases v, 0, 2
    {
      hide Render, RenderKids, KeyText, Writable, NewLine, CloseText;
      Open(v.obj);
      ghost var level := |first|;
      ghost var start := out;
      WriteKids(v, first[..level - 1]);
      Close(v.obj);
      RenderClosed(v, pretty, level - 1, old(out) + old(Separator()), start);
    }

    method WriteKids(v: Value, ghost outer: seq<bool>)
      requires v.Container? && Writable(v) && first == outer + [true] && !afterKey
      modifies this
      ensures first == outer + [v.kids == []] && !afterKey
      ensures out + RenderKids(v, |v.kids|, pretty, |first|) == old(out) + RenderKids(v, 0, pretty, |first|)
      decreases v, 0, 1
    {
      hide Render, RenderKids, Writable;
      var i := 0;
      while i < |v.kids|
        invariant 0 <= i <= |v.kids|
        invariant first == outer + [i == 0] && !afterKey
        invariant out + RenderKids(v, i, pretty, |first|) == old(out) + RenderKids(v, 0, pretty, |first|)
      {
        WriteKid(v, i, outer);
        i := i + 1;
      }
    }
  }

  lemma Regroup(out: bytes, sep: bytes, line: bytes, key: bytes, value: bytes, rest: bytes)
    ensures out + (sep + (line + key + value) + rest) == out + (sep + line) + key + [] + value + rest
    ensures out + (sep + (line + [] + value) + rest) == out + (sep + line) + value + rest
  {
  }

  lemma KidStep(v: Value, i: nat, pretty: bool, level: nat, out: bytes)
    requires v.Container? && Writable(v) && i < |v.kids|
    ensures Writable(v.kids[i].value)
    ensures var separated := out + ((if i == 0 then [] else [COMMA]) + NewLine(pretty, level));
            out + RenderKids(v, i, pretty, level)
            == (if v.obj then separated + KeyText(true, v.kids[i].key, pretty) + [] + Render(v.kids[i].value, pretty, level)
                else separated + Render(v.kids[i].value, pretty, level))
               + RenderKids(v, i + 1, pretty, level)
  {
    hide Render, NewLine;
    Regroup(out, if i == 0 then [] else [COMMA], NewLine(pretty, level), KeyText(v.obj, v.kids[i].key, pretty),
            Render(v.kids[i].value, pretty, level), RenderKids(v, i + 1, pretty, level));
  }

  lemma KidWritable(v: Value, i: nat)
    requires v.Container? && Writable(v) && i < |v.kids|
    ensures Writable(v.kids[i].value)
  {
  }

  lemma RenderClosed(v: Value, pretty: bool, level: nat, before: bytes, start: bytes)
    requires v.Container? && Writable(v) && start == before + [OpenOf(v.obj)]
    ensures RenderKids(v, |v.kids|, pretty, level + 1) == []
    ensures start + RenderKids(v, 0, pretty, level + 1) + CloseText(v.obj, v.kids == [], pretty, level)
            == before + Render(v, pretty, level)
  {
  }

  method WriteText(v: Value, pretty: bool) returns (text: bytes)
    requires Writable(v)
    ensures text == Render(v, pretty, 0)
    ensures ParseDocument(text) == if Height(v) <= 256 then Done(v, []) else Fail
  {
    var w := new Writer(pretty);
    w.Write(v);
    text := w.out;
    DocumentRoundTrip(v, pretty);
  }

  // ---- Parsing it back ----

  /** How many containers deep the value is. */
  function Height(v: Value): nat
    decreases v
  {
    if v.Container? then 1 + KidsHeight(v, 0) else 0
  }

  function KidsHeight(v: Value, i: nat): nat
    requires v.Container? && i <= |v.kids|
    decreases v, |v.kids| - i
  {
    if i == |v.kids| then 0 else
    var h, more := Height(v.kids[i].value), KidsHeight(v, i + 1);
    if h > more then h else more
  }

  lemma UnescapeByte(c: byte, t: bytes)
    ensures Unescape(EscapeByte(c) + t) == Before([c], Unescape(t))
  {
    var e := EscapeByte(c);
    assert (e + t)[1..] == e[1..] + t;
    if IsPlain(c) {
      assert e[1..] + t == t;
    } else {
      EscapedByte(c, t);
      hide EscapeByte, Escape;
      assert Unescape(e + t) == Before([c], Unescape(t));
    }
  }

  lemma EscapedByte(c: byte, t: bytes)
    requires !IsPlain(c)
    ensures EscapeByte(c)[0] == BACKSLASH && Escape(EscapeByte(c)[1..] + t) == Done([c], t)
  {
    var e := EscapeByte(c);
    if |e| == 2 {
      assert (e[1..] + t)[1..] == t;
    } else {
      hide Escape;
      assert e[1..] == [0x75, ZERO, ZERO, LowerHex(c / 16), LowerHex(c % 16)];
      ControlEscape(c, t);
    }
  }

  lemma ControlEscape(c: byte, t: bytes)
    requires c < 0x20
    ensures Escape([0x75, ZERO, ZERO, LowerHex(c / 16), LowerHex(c % 16)] + t) == Done([c], t)
  {
    var digits := [ZERO, ZERO, LowerHex(c / 16), LowerHex(c % 16)];
    var u := [0x75, ZERO, ZERO, LowerHex(c / 16), LowerHex(c % 16)] + t;
    assert u[1..] == digits + t;
    assert (digits + t)[4..] == t;
    assert Hex4(digits + t) == Done(c, t);
    assert UnicodeEscape(digits + t) == Done(c, t);
    EncodeAscii(c);
  }

  lemma EncodeAscii(c: byte)
    requires c < 0x80
    ensures Encode(c) == [c]
  {
  }

  lemma {:induction false} UnescapeEscaped(s: bytes, rest: bytes)
    ensures Unescape(EscapeText(s) + [QUOTE] + rest) == Done(s, rest)
  {
    if s == [] {
      assert [] + [QUOTE] + rest == [QUOTE] + rest;
      assert ([QUOTE] + rest)[1..] == rest;
    } else {
      var t := EscapeText(s[1..]) + [QUOTE] + rest;
      assert EscapeText(s) + [QUOTE] + rest == EscapeByte(s[0]) + t;
      UnescapeByte(s[0], t);
      UnescapeEscaped(s[1..], rest);
      assert [s[0]] + s[1..] == s;
    }
  }

  predicate AllDigits(d: bytes) { forall k :: 0 <= k < |d| ==> IsDigit(d[k]) }

  lemma {:induction false} NatTextMeans(n: nat)
    ensures AllDigits(NatText(n)) && DigitsValue(NatText(n)) == n
    ensures NatText(n)[0] == ZERO ==> n == 0
    ensures n == 0 ==> NatText(n) == [ZERO]
  {
    if n < 10 {
      assert [ZERO + n][..0] == [];
    } else {
      NatTextMeans(n / 10);
      var d := NatText(n);
      assert d[..|d| - 1] == NatText(n / 10);
    }
  }

  /** What may follow a value: nothing that would read as more of a number. */
  predicate Ends(rest: bytes)
  {
    rest == [] || rest[0] == COMMA || rest[0] == RBRACE || rest[0] == RBRACKET || rest[0] == LF
  }

  lemma {:induction false} SkipDigitsStops(d: bytes, rest: bytes)
    requires AllDigits(d) && Ends(rest)
    ensures SkipDigits(d + rest) == rest
  {
    if d == [] {
      assert d + rest == rest;
    } else {
      assert (d + rest)[1..] == d[1..] + rest;
      SkipDigitsStops(d[1..], rest);
    }
  }

  lemma IntegerLexes(d: bytes, sign: bool, rest: bytes)
    requires d != [] && AllDigits(d) && (d[0] == ZERO ==> d == [ZERO]) && Ends(rest)
    ensures IntegerPart((if sign then [MINUS] else []) + d + rest) == Done((), rest)
  {
    var t := (if sign then [MINUS] else []) + d + rest;
    var u := d + rest;
    assert IsDigit(u[0]) && u[0] == d[0];
    if sign { assert t[1..] == u; } else { assert t == u; }
    SkipDigitsStops(d, rest);
    if d[0] == ZERO { assert u[1..] == rest; }
  }

  lemma NothingAfterInteger(rest: bytes)
    requires Ends(rest)
    ensures Fraction(rest) == Done(false, rest) && Exponent(rest) == Done(false, rest)
  {
  }

  lemma IntegerRoundTrip(n: int, rest: bytes)
    requires InInt64(n) && Ends(rest)
    ensures Number(IntText(n) + rest) == Done(Int(n), rest)
  {
    var d := NatText(if n < 0 then -n else n);
    NatTextMeans(if n < 0 then -n else n);
    IntegerLexes(d, n < 0, rest);
    NothingAfterInteger(rest);
    hide IntegerPart, Fraction, Exponent, AllDigits, Ends;
    var t := IntText(n) + rest;
    assert t == (if n < 0 then [MINUS] else []) + d + rest;
    assert t[..|t| - |rest|] == IntText(n);
    assert n < 0 ==> IntText(n)[1..] == d;
    assert n >= 0 ==> IsDigit(d[0]);
  }

  lemma {:induction false} SkipSpaces(n: nat, t: bytes)
    requires t != [] && !IsWs(t[0])
    ensures SkipWs(Spaces(n) + t) == t
    decreases n
  {
    if n == 0 {
      assert Spaces(0) + t == t;
    } else {
      assert (Spaces(n) + t)[1..] == Spaces(n - 1) + t;
      SkipSpaces(n - 1, t);
    }
  }

  lemma SkipNewLine(pretty: bool, level: nat, t: bytes)
    requires t != [] && !IsWs(t[0])
    ensures SkipWs(NewLine(pretty, level) + t) == t
  {
    SkipSpaces(2 * level, t);
    if pretty {
      assert ([LF] + Spaces(2 * level) + t)[1..] == Spaces(2 * level) + t;
    } else {
      assert [] + t == t;
    }
  }

  lemma RenderStart(v: Value, pretty: bool, level: nat)
    requires Writable(v)
    ensures var r := Render(v, pretty, level);
            r != [] && !IsWs(r[0]) && r[0] != RBRACE && r[0] != RBRACKET
  {
    if v.Int? { NatTextMeans(if v.n < 0 then -v.n else v.n); }
  }

  /** Parsing what was written gives the value back, unless it nests too deep; then it fails. */
  lemma {:induction false} ValueRoundTrip(v: Value, pretty: bool, level: nat, depth: nat, rest: bytes)
    requires Writable(v) && Ends(rest)
    ensures ParseValue(Render(v, pretty, level) + rest, depth)
            == if Height(v) + depth <= MAX_DEPTH || Height(v) == 0 then Done(v, rest) else Fail
    decreases v, |if v.Container? then v.kids else []| + 1, 1
  {
    if v.Container? {
      ContainerRoundTrip(v, pretty, level, depth, rest);
    } else {
      ScalarRoundTrip(v, pretty, level, depth, rest);
    }
  }

  lemma ScalarRoundTrip(v: Value, pretty: bool, level: nat, depth: nat, rest: bytes)
    requires Writable(v) && Ends(rest) && !v.Container?
    ensures ParseValue(Render(v, pretty, level) + rest, depth) == Done(v, rest)
  {
    hide Number, Unescape, IntText, EscapeText;
    var t := Render(v, pretty, level) + rest;
    match v
    case Null => assert t[4..] == rest;
    case Bool(b) => assert t[if b then 4 else 5..] == rest;
    case Int(n) =>
      IntTextStart(n);
      IntegerRoundTrip(n, rest);
    case Str(s) =>
      assert t[1..] == EscapeText(s) + [QUOTE] + rest;
      UnescapeEscaped(s, rest);
  }

  lemma IntTextStart(n: int)
    ensures IntText(n)[0] == MINUS || IsDigit(IntText(n)[0])
  {
    NatTextMeans(if n < 0 then -n else n);
  }

  lemma {:induction false} ContainerRoundTrip(v: Value, pretty: bool, level: nat, depth: nat, rest: bytes)
    requires Writable(v) && Ends(rest) && v.Container?
    ensures ParseValue(Render(v, pretty, level) + rest, depth) == if Height(v) + depth <= MAX_DEPTH then Done(v, rest) else Fail
    decreases v, |v.kids| + 1, 0
  {
    hide ParseMembers, RenderKids, MemberText, NewLine, Writable, CloseText, Ends;
    var t := Render(v, pretty, level) + rest;
    assert t[1..] == RenderKids(v, 0, pretty, level + 1) + CloseText(v.obj, v.kids == [], pretty, level) + rest;
    ContainerInside(v, pretty, level, rest);
    if v.kids != [] && depth < MAX_DEPTH {
      MembersRoundTrip(v, 0, pretty, level + 1, depth, rest);
      assert v.kids[0..] == v.kids;
    }
  }

  /** What follows a container's opening bracket, white space skipped. */
  lemma ContainerInside(v: Value, pretty: bool, level: nat, rest: bytes)
    requires v.Container? && Writable(v)
    ensures var u := RenderKids(v, 0, pretty, level + 1) + CloseText(v.obj, v.kids == [], pretty, level) + rest;
            if v.kids == [] then SkipWs(u) == [CloseOf(v.obj)] + rest
            else var m := MemberText(v, 0, pretty, level + 1, rest); SkipWs(u) == m && m != [] && m[0] != CloseOf(v.obj)
    ensures ([CloseOf(v.obj)] + rest)[1..] == rest
  {
    if v.kids == [] {
      assert RenderKids(v, 0, pretty, level + 1) + CloseText(v.obj, true, pretty, level) + rest == [CloseOf(v.obj)] + rest;
    } else {
      MemberStart(v, 0, pretty, level + 1, rest);
      RegroupInside([], NewLine(pretty, level + 1), KeyText(v.obj, v.kids[0].key, pretty),
                    Render(v.kids[0].value, pretty, level + 1), RenderKids(v, 1, pretty, level + 1),
                    NewLine(pretty, level), [CloseOf(v.obj)], rest);
      assert RenderKids(v, 0, pretty, level + 1) == [] + RenderMember(v, 0, pretty, level + 1) + RenderKids(v, 1, pretty, level + 1);
      assert RenderKids(v, 0, pretty, level + 1) + CloseText(v.obj, false, pretty, level) + rest
             == NewLine(pretty, level + 1) + MemberText(v, 0, pretty, level + 1, rest);
    }
  }

  lemma RegroupInside(sep: bytes, line: bytes, key: bytes, value: bytes, kids: bytes, line': bytes, close: bytes, rest: bytes)
    ensures (sep + (line + key + value) + kids) + (line' + close) + rest == sep + (line + (key + value + (kids + line' + close + rest)))
    ensures (sep + (line + key + value) + kids) + line' + close + rest == sep + (line + (key + value + (kids + line' + close + rest)))
  {
  }

  /** The text from the i-th member's first byte to the end. */
  function MemberText(v: Value, i: nat, pretty: bool, level: nat, rest: bytes): bytes
    requires v.Container? && Writable(v) && i < |v.kids| && level > 0
  {
    KeyText(v.obj, v.kids[i].key, pretty) + Render(v.kids[i].value, pretty, level) + AfterMember(v, i, pretty, level, rest)
  }

  function AfterMember(v: Value, i: nat, pretty: bool, level: nat, rest: bytes): bytes
    requires v.Container? && Writable(v) && i < |v.kids| && level > 0
  {
    RenderKids(v, i + 1, pretty, level) + NewLine(pretty, level - 1) + [CloseOf(v.obj)] + rest
  }

  lemma MemberStart(v: Value, i: nat, pretty: bool, level: nat, rest: bytes)
    requires v.Container? && Writable(v) && i < |v.kids| && level > 0
    ensures var m := MemberText(v, i, pretty, level, rest); m != [] && !IsWs(m[0]) && m[0] != CloseOf(v.obj)
    ensures SkipWs(NewLine(pretty, level) + MemberText(v, i, pretty, level, rest)) == MemberText(v, i, pretty, level, rest)
  {
    RenderStart(v.kids[i].value, pretty, level);
    SkipNewLine(pretty, level, MemberText(v, i, pretty, level, rest));
  }

  lemma ColonSkipped(pretty: bool, t: bytes)
    requires t != [] && !IsWs(t[0])
    ensures var after := (if pretty then [COLON, SPACE] else [COLON]) + t;
            SkipWs(after) == after && after[0] == COLON && SkipWs(after[1..]) == t
  {
    var after := (if pretty then [COLON, SPACE] else [COLON]) + t;
    if pretty {
      assert after[1..] == [SPACE] + t;
      assert ([SPACE] + t)[1..] == t;
    } else {
      assert after[1..] == t;
    }
  }

  lemma KeyRoundTrip(obj: bool, key: bytes, pretty: bool, t: bytes)
    requires t != [] && !IsWs(t[0]) && (obj || key == [])
    ensures MemberKey(KeyText(obj, key, pretty) + t, obj) == Done(key, t)
  {
    hide EscapeText, Unescape, SkipWs, IsWs;
    if obj {
      var colon, u := if pretty then [COLON, SPACE] else [COLON], KeyText(obj, key, pretty) + t;
      assert KeyText(obj, key, pretty) == [QUOTE] + EscapeText(key) + [QUOTE] + colon;
      hide MemberKey, KeyText;
      KeyRegrouped(EscapeText(key), colon, t);
      UnescapeEscaped(key, colon + t);
      ColonSkipped(pretty, t);
      KeyRead(u, key, colon + t, t);
    } else {
      assert [] + t == t;
    }
  }

  lemma KeyRegrouped(text: bytes, colon: bytes, t: bytes)
    ensures var u := [QUOTE] + text + [QUOTE] + colon + t; u[0] == QUOTE && u[1..] == text + [QUOTE] + (colon + t)
  {
  }

  lemma KeyRead(u: bytes, key: bytes, after: bytes, t: bytes)
    requires u != [] && u[0] == QUOTE && Unescape(u[1..]) == Done(key, after)
    requires SkipWs(after) == after && after != [] && after[0] == COLON && SkipWs(after[1..]) == t
    ensures MemberKey(u, true) == Done(key, t)
  {
    hide Unescape, SkipWs;
  }

  lemma {:induction false} MembersRoundTrip(v: Value, i: nat, pretty: bool, level: nat, depth: nat, rest: bytes)
    requires v.Container? && Writable(v) && i < |v.kids| && level > 0 && depth < MAX_DEPTH && Ends(rest)
    ensures ParseMembers(MemberText(v, i, pretty, level, rest), depth, v.obj)
            == if KidsHeight(v, i) + depth + 1 <= MAX_DEPTH then Done(v.kids[i..], rest) else Fail
    decreases v, |v.kids| - i, 0
  {
    hide ParseValue, MemberKey, Render, AfterMember, KeyText, Writable, Ends, SkipWs, NewLine;
    var kid := v.kids[i];
    var after := AfterMember(v, i, pretty, level, rest);
    KidIs(v, i, pretty, level, rest);
    KeyRoundTrip(v.obj, kid.key, pretty, Render(kid.value, pretty, level) + after);
    AfterMemberIs(v, i, pretty, level, rest);
    ValueRoundTrip(kid.value, pretty, level, depth + 1, after);
    assert v.kids[i..] == [kid] + v.kids[i + 1..];
    assert i + 1 == |v.kids| ==> v.kids[i + 1..] == [] && KidsHeight(v, i + 1) == 0;
    if i + 1 < |v.kids| {
      MembersRoundTrip(v, i + 1, pretty, level, depth, rest);
      MemberStart(v, i + 1, pretty, level, rest);
    } else if Height(kid.value) + depth + 1 > MAX_DEPTH {
      assert ParseMembers(MemberText(v, i, pretty, level, rest), depth, v.obj) == Fail;
    } else {
      assert v.kids[i..] == [kid];
    }
  }

  lemma KidIs(v: Value, i: nat, pretty: bool, level: nat, rest: bytes)
    requires v.Container? && Writable(v) && i < |v.kids| && level > 0
    ensures Writable(v.kids[i].value) && (v.obj || v.kids[i].key == [])
    ensures var body := Render(v.kids[i].value, pretty, level) + AfterMember(v, i, pretty, level, rest);
            body != [] && !IsWs(body[0]) && MemberText(v, i, pretty, level, rest) == KeyText(v.obj, v.kids[i].key, pretty) + body
  {
    hide Render, RenderKids, KeyText, AfterMember;
    RenderStart(v.kids[i].value, pretty, level);
    var key, kid, after := KeyText(v.obj, v.kids[i].key, pretty), Render(v.kids[i].value, pretty, level), AfterMember(v, i, pretty, level, rest);
    assert key + kid + after == key + (kid + after);
  }

  lemma EndsAfterLine(pretty: bool, level: nat, t: bytes)
    requires t != [] && Ends(t)
    ensures Ends(NewLine(pretty, level) + t)
  {
    hide Spaces;
    if !pretty { assert [] + t == t; }
  }

  lemma AfterMemberIs(v: Value, i: nat, pretty: bool, level: nat, rest: bytes)
    requires v.Container? && Writable(v) && i < |v.kids| && level > 0
    ensures var after := AfterMember(v, i, pretty, level, rest);
            && Ends(after)
            && (i + 1 < |v.kids| ==>
                  SkipWs(after) == after && after != [] && after[0] == COMMA
                  && after[1..] == NewLine(pretty, level) + MemberText(v, i + 1, pretty, level, rest))
            && (i + 1 == |v.kids| ==> SkipWs(after) == [CloseOf(v.obj)] + rest && ([CloseOf(v.obj)] + rest)[1..] == rest)
  {
    hide Writable, Render, KeyText, RenderMember;
    if i + 1 < |v.kids| {
      hide RenderKids, NewLine, MemberText, AfterMember;
      CommaAfter(v, i, pretty, level, rest);
    } else {
      hide RenderKids;
      var close := [CloseOf(v.obj)] + rest;
      NoMoreKids(v, pretty, level);
      assert AfterMember(v, i, pretty, level, rest) == NewLine(pretty, level - 1) + close;
      hide AfterMember, SkipWs;
      SkipNewLine(pretty, level - 1, close);
      EndsAfterLine(pretty, level - 1, close);
      assert close[1..] == rest;
    }
  }

  lemma NoMoreKids(v: Value, pretty: bool, level: nat)
    requires v.Container? && Writable(v)
    ensures RenderKids(v, |v.kids|, pretty, level) == []
  {
  }

  lemma CommaAfter(v: Value, i: nat, pretty: bool, level: nat, rest: bytes)
    requires v.Container? && Writable(v) && i + 1 < |v.kids| && level > 0
    ensures AfterMember(v, i, pretty, level, rest) == [COMMA] + (NewLine(pretty, level) + MemberText(v, i + 1, pretty, level, rest))
  {
    hide Render, KeyText, NewLine;
    RegroupInside([COMMA], NewLine(pretty, level), KeyText(v.obj, v.kids[i + 1].key, pretty),
                  Render(v.kids[i + 1].value, pretty, level), RenderKids(v, i + 2, pretty, level),
                  NewLine(pretty, level - 1), [CloseOf(v.obj)], rest);
    assert RenderKids(v, i + 1, pretty, level) == [COMMA] + RenderMember(v, i + 1, pretty, level) + RenderKids(v, i + 2, pretty, level);
  }

  /**
   * Writing then parsing is the identity on every value of at most 256 nested
   * containers, compact and pretty; a deeper one is rejected.
   */
  lemma DocumentRoundTrip(v: Value, pretty: bool)
    requires Writable(v)
    ensures ParseDocument(Render(v, pretty, 0)) == if Height(v) <= 256 then Done(v, []) else Fail
  {
    ValueRoundTrip(v, pretty, 0, 0, []);
    RenderStart(v, pretty, 0);
    assert Render(v, pretty, 0) + [] == Render(v, pretty, 0);
  }

  function Nested(n: nat): Value { if n == 0 then Null else Container(false, [Member([], Nested(n - 1))]) }

  lemma {:induction false} NestedHeight(n: nat)
    ensures Writable(Nested(n)) && Height(Nested(n)) == n
  {
    if n == 0 {
      assert Nested(0) == Null;
    } else {
      NestedHeight(n - 1);
      assert KidsHeight(Nested(n), 1) == 0;
      assert KidsHeight(Nested(n), 0) == Height(Nested(n - 1));
    }
  }

  /** Arrays nested one deeper than the parser goes are written and do not read back. */
  lemma TooDeep(pretty: bool)
    ensures Writable(Nested(257)) && ParseDocument(Render(Nested(257), pretty, 0)) == Fail
  {
    NestedHeight(257);
    DocumentRoundTrip(Nested(257), pretty);
  }
}
