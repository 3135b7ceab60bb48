/**
 * What a JSON text means (src/base/json.cpp, RFC 8259), as functions of the
 * text still to be read. A parse yields a value and the text after it.
 */
module JsonGrammar {
  import opened Utf8
  import opened Ascii

  const MAX_DEPTH := 256

  /** A double keeps its lexeme: its value is what strtod makes of that. Array elements have an empty key. */
  datatype Value =
    | Null
    | Bool(b: bool)
    | Int(n: int)
    | Double(lexeme: bytes)
    | Str(s: bytes)
    | Container(obj: bool, kids: seq<Member>)

  datatype Member = Member(key: bytes, value: Value)

  datatype Parse<+T> = Fail | Done(value: T, rest: bytes)

  // ---- Lexical pieces ----

  predicate IsWs(b: byte) { b == SPACE || b == LF || b == CR || b == TAB }

  function SkipWs(t: bytes): (r: bytes)
    ensures |r| <= |t|
  {
    if t != [] && IsWs(t[0]) then SkipWs(t[1..]) else t
  }

  function SkipDigits(t: bytes): (r: bytes)
    ensures |r| <= |t|
    ensures t != [] && IsDigit(t[0]) ==> |r| < |t|
  {
    if t != [] && IsDigit(t[0]) then SkipDigits(t[1..]) else t
  }

  function Hex4(t: bytes): (r: Parse<nat>)
    ensures r.Done? ==> |t| >= 4 && r.value < 0x10000 && r.rest == t[4..]
  {
    if |t| < 4 || HexDigit(t[0]) < 0 || HexDigit(t[1]) < 0 || HexDigit(t[2]) < 0 || HexDigit(t[3]) < 0 then Fail
    else Done(((HexDigit(t[0]) * 16 + HexDigit(t[1])) * 16 + HexDigit(t[2])) * 16 + HexDigit(t[3]), t[4..])
  }

  /** The code point of a \u escape, the text after `\u` given; a surrogate without its half is U+FFFD. */
  function UnicodeEscape(t: bytes): (r: Parse<nat>)
    ensures r.Done? ==> |r.rest| + 4 <= |t|
    ensures r.Done? ==> IsScalar(r.value) && (r.value >= 0x10000 ==> |r.rest| + 10 <= |t|)
  {
    var hi := Hex4(t);
    if hi.Fail? then Fail
    else if 0xD800 <= hi.value <= 0xDBFF then
      if |hi.rest| >= 6 && hi.rest[0] == BACKSLASH && hi.rest[1] == 0x75 then
        var lo := Hex4(hi.rest[2..]);
        if lo.Fail? then Fail
        else if 0xDC00 <= lo.value <= 0xDFFF then
          Done(0x10000 + (hi.value - 0xD800) * 1024 + (lo.value - 0xDC00), lo.rest)
        else Done(REPLACEMENT, hi.rest)
      else Done(REPLACEMENT, hi.rest)
    else if 0xDC00 <= hi.value <= 0xDFFF then Done(REPLACEMENT, hi.rest)
    else hi
  }

  /** The byte a two-character escape stands for; -1 when there is no such escape. */
  function SimpleEscape(e: byte): (r: int)
    ensures -1 <= r < 0x80
  {
    if e == QUOTE then 0x22 else if e == BACKSLASH then 0x5C else if e == SLASH then 0x2F
    else if e == 0x62 then 0x08 else if e == 0x66 then 0x0C else if e == 0x6E then 0x0A
    else if e == 0x72 then 0x0D else if e == 0x74 then 0x09 else -1
  }

  /** One escape, the text after the backslash given. */
  function Escape(t: bytes): (r: Parse<bytes>)
    ensures r.Done? ==> |r.rest| < |t| && |r.value| <= |t| - |r.rest|
  {
    if t == [] then Fail
    else if SimpleEscape(t[0]) >= 0 then Done([SimpleEscape(t[0])], t[1..])
    else if t[0] == 0x75 then
      var u := UnicodeEscape(t[1..]);
      if u.Fail? then Fail else Done(Encode(u.value), u.rest)
    else Fail
  }

  /** A string's bytes, the text after the opening quote given. */
  function Unescape(t: bytes): (r: Parse<bytes>)
    ensures r.Done? ==> |r.rest| < |t| && |r.value| < |t| - |r.rest|
  {
    if t == [] || t[0] < 0x20 then Fail
    else if t[0] == QUOTE then Done([], t[1..])
    else if t[0] != BACKSLASH then Before([t[0]], Unescape(t[1..]))
    else
      var e := Escape(t[1..]);
      if e.Fail? then Fail else Before(e.value, Unescape(e.rest))
  }

  function Before(first: bytes, r: Parse<bytes>): Parse<bytes>
  {
    if r.Fail? then Fail else Done(first + r.value, r.rest)
  }

  // ---- Numbers ----

  function DigitsValue(d: bytes): int
  {
    if d == [] then 0 else DigitsValue(d[..|d| - 1]) * 10 + (d[|d| - 1] as int - 0x30)
  }

  predicate InInt64(n: int) { -0x8000_0000_0000_0000 <= n < 0x8000_0000_0000_0000 }

  function IntegerPart(t: bytes): (r: Parse<()>)
    ensures r.Done? ==> |r.rest| < |t|
  {
    var u := if t != [] && t[0] == MINUS then t[1..] else t;
    if u == [] || !IsDigit(u[0]) then Fail
    else if u[0] == ZERO then
      if |u| > 1 && IsDigit(u[1]) then Fail else Done((), u[1..])
    else Done((), SkipDigits(u))
  }

  function Fraction(t: bytes): (r: Parse<bool>)
    ensures r.Done? ==> |r.rest| <= |t|
  {
    if t == [] || t[0] != DOT then Done(false, t)
    else if |t| < 2 || !IsDigit(t[1]) then Fail
    else Done(true, SkipDigits(t[1..]))
  }

  function Exponent(t: bytes): (r: Parse<bool>)
    ensures r.Done? ==> |r.rest| <= |t|
  {
    if t == [] || (t[0] != 0x65 && t[0] != 0x45) then Done(false, t)
    else
      var u := if |t| > 1 && (t[1] == PLUS || t[1] == MINUS) then t[2..] else t[1..];
      if u == [] || !IsDigit(u[0]) then Fail else Done(true, SkipDigits(u))
  }

  /** The value of a number's lexeme: an integer when it is one that fits 64 bits, else a double. */
  function NumberValue(lexeme: bytes, isInt: bool): Value
  {
    var n := if lexeme != [] && lexeme[0] == MINUS then -DigitsValue(lexeme[1..]) else DigitsValue(lexeme);
    if isInt && InInt64(n) then Int(n) else Double(lexeme)
  }

  function Number(t: bytes): (r: Parse<Value>)
    ensures r.Done? ==> |r.rest| < |t|
  {
    var i := IntegerPart(t);
    if i.Fail? then Fail else
    var f := Fraction(i.rest);
    if f.Fail? then Fail else
    var e := Exponent(f.rest);
    if e.Fail? then Fail else
    Done(NumberValue(t[..|t| - |e.rest|], !f.value && !e.value), e.rest)
  }

  // ---- Values ----

  const TRUE_WORD: bytes := [0x74, 0x72, 0x75, 0x65]
  const FALSE_WORD: bytes := [0x66, 0x61, 0x6C, 0x73, 0x65]
  const NULL_WORD: bytes := [0x6E, 0x75, 0x6C, 0x6C]

  function Literal(t: bytes, word: bytes, v: Value): (r: Parse<Value>)
    ensures r.Done? ==> |r.rest| == |t| - |word| && r.rest == t[|word|..]
  {
    if word <= t then Done(v, t[|word|..]) else Fail
  }

  function OpenOf(obj: bool): byte { if obj then LBRACE else LBRACKET }
  function CloseOf(obj: bool): byte { if obj then RBRACE else RBRACKET }

  /** A member's name with its colon; nothing to read in an array. */
  function MemberKey(t: bytes, obj: bool): (r: Parse<bytes>)
    ensures r.Done? ==> |r.rest| <= |t| && (obj ==> |r.rest| < |t|)
  {
    if !obj then Done([], t)
    else if t == [] || t[0] != QUOTE then Fail
    else
      var k := Unescape(t[1..]);
      if k.Fail? then Fail else
      var u := SkipWs(k.rest);
      if u == [] || u[0] != COLON then Fail else Done(k.value, SkipWs(u[1..]))
  }

  function ParseValue(t: bytes, depth: nat): (r: Parse<Value>)
    ensures r.Done? ==> |r.rest| < |t|
    decreases |t|, 1
  {
    if t == [] then Fail
    else if t[0] == LBRACE || t[0] == LBRACKET then
      var obj := t[0] == LBRACE;
      if depth >= MAX_DEPTH then Fail else
      var u := SkipWs(t[1..]);
      if u != [] && u[0] == CloseOf(obj) then Done(Container(obj, []), u[1..]) else
      var kids := ParseMembers(u, depth, obj);
      if kids.Fail? then Fail else Done(Container(obj, kids.value), kids.rest)
    else if t[0] == QUOTE then
      var s := Unescape(t[1..]);
      if s.Fail? then Fail else Done(Str(s.value), s.rest)
    else if t[0] == 0x74 then Literal(t, TRUE_WORD, Bool(true))
    else if t[0] == 0x66 then Literal(t, FALSE_WORD, Bool(false))
    else if t[0] == 0x6E then Literal(t, NULL_WORD, Null)
    else if t[0] == MINUS || IsDigit(t[0]) then Number(t)
    else Fail
  }

  /** One member or more, up to and including the closing bracket. */
  function ParseMembers(t: bytes, depth: nat, obj: bool): (r: Parse<seq<Member>>)
    ensures r.Done? ==> |r.rest| < |t|
    decreases |t|, if obj then 0 else 2
  {
    var k := MemberKey(t, obj);
    if k.Fail? then Fail else
    var v := ParseValue(k.rest, depth + 1);
    if v.Fail? then Fail else
    var u := SkipWs(v.rest);
    if u == [] then Fail
    else if u[0] == COMMA then
      Prepend([Member(k.value, v.value)], ParseMembers(SkipWs(u[1..]), depth, obj))
    else if u[0] == CloseOf(obj) then Done([Member(k.value, v.value)], u[1..])
    else Fail
  }

  function Prepend(kids: seq<Member>, r: Parse<seq<Member>>): Parse<seq<Member>>
  {
    if r.Fail? then Fail else Done(kids + r.value, r.rest)
  }

  /** A whole document; nothing but white space may surround the value. */
  function ParseDocument(text: bytes): (r: Parse<Value>)
    ensures r.Done? ==> r.rest == []
  {
    var v := ParseValue(SkipWs(text), 0);
    if v.Fail? || SkipWs(v.rest) != [] then Fail else Done(v.value, [])
  }
}
