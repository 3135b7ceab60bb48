/**
 * The escapes of the INI settings store (src/base/old_settings.cpp): keys as
 * %XX and %UXXXX code points, values with backslash escapes, quotes and the
 * stored form of a leading "@".
 */
module IniEscape {
  import opened Utf8
  import opened Ascii

  // ---- Keys ----

  predicate IsLetterOrDigit(c: byte) { 0x61 <= c <= 0x7A || 0x41 <= c <= 0x5A || IsDigit(c) }

  /** Written as it is in a key; '/' is written as a backslash. */
  predicate IsKeyByte(c: byte) { IsLetterOrDigit(c) || c == 0x5F || c == MINUS || c == DOT }

  function CodePointEscape(cp: nat): bytes
    requires cp <= 0xFFFF
  {
    if cp <= 0xFF then [PERCENT, UpperHex(cp / 16), UpperHex(cp % 16)]
    else [PERCENT, 0x55, UpperHex(cp / 16 / 16 / 16), UpperHex(cp / 16 / 16 % 16), UpperHex(cp / 16 % 16), UpperHex(cp % 16)]
  }

  /** Past U+FFFF the escape has no room: U+FFFD is written. */
  function Narrow(cp: int): int { if cp > 0xFFFF then REPLACEMENT else cp }

  function KeyPiece(k: bytes, i: nat): bytes
    requires i < |k|
  {
    if k[i] == SLASH then [BACKSLASH]
    else if IsKeyByte(k[i]) then [k[i]]
    else CodePointEscape(Narrow(Decode(k, i).0))
  }

  function EscapeKeyFrom(k: bytes, i: nat): bytes
    requires i <= |k|
    decreases |k| - i
  {
    if i == |k| then [] else KeyPiece(k, i) + EscapeKeyFrom(k, Next(k, i))
  }

  function EscapeKey(k: bytes): bytes { EscapeKeyFrom(k, 0) }

  method WriteKey(k: bytes) returns (out: bytes)
    ensures out == EscapeKey(k)
  {
    hide KeyPiece;
    out := [];
    var i := 0;
    while i < |k|
      invariant i <= |k| && EscapeKey(k) == out + EscapeKeyFrom(k, i)
    {
      out := out + KeyPiece(k, i);
      var _, next := DecodeStep(k, i);
      i := next;
    }
  }

  /** The value of the hex digits at the start of `t`; -1 when one is missing. */
  function HexValue(t: bytes, digits: nat): (v: int)
    ensures -1 <= v
    decreases digits
  {
    if digits == 0 then 0
    else if |t| < digits || HexDigit(t[digits - 1]) < 0 || HexValue(t, digits - 1) < 0 then -1
    else HexValue(t, digits - 1) * 16 + HexDigit(t[digits - 1])
  }

  function UnescapeKey(k: bytes): bytes
  {
    if k == [] then []
    else if k[0] == BACKSLASH then [SLASH] + UnescapeKey(k[1..])
    else if k[0] == PERCENT && |k| > 1 then
      var wide := k[1] == 0x55;
      var first, digits := if wide then 2 else 1, if wide then 4 else 2;
      var cp := if first + digits <= |k| then HexValue(k[first..], digits) else -1;
      if cp >= 0 then Encode(cp) + UnescapeKey(k[first + digits..]) else [k[0]] + UnescapeKey(k[1..])
    else [k[0]] + UnescapeKey(k[1..])
  }

  lemma KeyStep(t: bytes)
    ensures t == [] ==> UnescapeKey(t) == []
    ensures t != [] ==>
              var wide := |t| > 1 && t[1] == 0x55;
              var first, digits := if wide then 2 else 1, if wide then 4 else 2;
              var cp := if t[0] == PERCENT && first + digits <= |t| then HexValue(t[first..], digits) else -1;
              UnescapeKey(t) == if t[0] == BACKSLASH then [SLASH] + UnescapeKey(t[1..])
                                else if cp >= 0 then Encode(cp) + UnescapeKey(t[first + digits..])
                                else [t[0]] + UnescapeKey(t[1..])
  {
    hide HexValue, Encode;
  }

  method ReadKey(k: bytes) returns (out: bytes)
    ensures out == UnescapeKey(k)
  {
    hide HexValue, Encode, UnescapeKey;
    KeyStep([]);
    out := [];
    var i := 0;
    assert k[0..] == k;
    while i < |k|
      invariant i <= |k| && UnescapeKey(k) == out + UnescapeKey(k[i..])
    {
      ghost var t := k[i..];
      KeyStep(t);
      var c := k[i];
      if c == BACKSLASH {
        assert t[1..] == k[i + 1..];
        out := out + [SLASH];
        i := i + 1;
        continue;
      }
      if c == PERCENT && i + 1 < |k| {
        var wide := k[i + 1] == 0x55;
        var first, digits := i + 1 + (if wide then 1 else 0), if wide then 4 else 2;
        var cp := if first + digits <= |k| then HexValue(k[first..], digits) else -1;
        assert t[first - i..] == k[first..];
        if cp >= 0 {
          assert t[first - i + digits..] == k[first + digits..];
          out := out + Encode(cp);
          i := first + digits;
          continue;
        }
      }
      assert t[1..] == k[i + 1..];
      out := out + [c];
      i := i + 1;
    }
    assert k[i..] == [] && out + [] == out;
  }

  /** The key as the store can hold it. */
  function Narrowed(cps: seq<int>): (r: seq<int>)
    ensures |r| == |cps| && (AllScalars(cps) ==> AllScalars(r))
    ensures r == cps <==> forall k :: 0 <= k < |cps| ==> cps[k] <= 0xFFFF
  {
    if cps == [] then [] else [Narrow(cps[0])] + Narrowed(cps[1..])
  }

  lemma HexDigitsOf(cp: nat)
    requires cp <= 0xFFFF
    ensures cp == ((cp / 16 / 16 / 16 * 16 + cp / 16 / 16 % 16) * 16 + cp / 16 % 16) * 16 + cp % 16
    ensures cp <= 0xFF ==> cp == cp / 16 * 16 + cp % 16
  {
  }

  lemma HexValueUnfolds(t: bytes)
    ensures |t| >= 2 && HexDigit(t[0]) >= 0 && HexDigit(t[1]) >= 0 ==> HexValue(t, 2) == HexDigit(t[0]) * 16 + HexDigit(t[1])
    ensures |t| >= 4 && HexDigit(t[0]) >= 0 && HexDigit(t[1]) >= 0 && HexDigit(t[2]) >= 0 && HexDigit(t[3]) >= 0 ==>
              HexValue(t, 4) == ((HexDigit(t[0]) * 16 + HexDigit(t[1])) * 16 + HexDigit(t[2])) * 16 + HexDigit(t[3])
  {
    if |t| >= 1 && HexDigit(t[0]) >= 0 { assert HexValue(t, 1) == HexDigit(t[0]); }
    if |t| >= 4 && HexDigit(t[0]) >= 0 && HexDigit(t[1]) >= 0 && HexDigit(t[2]) >= 0 {
      assert HexValue(t, 3) == (HexDigit(t[0]) * 16 + HexDigit(t[1])) * 16 + HexDigit(t[2]);
    }
  }

  lemma CodePointUnescapes(cp: nat, t: bytes)
    requires cp <= 0xFFFF
    ensures UnescapeKey(CodePointEscape(cp) + t) == Encode(cp) + UnescapeKey(t)
  {
    hide Encode;
    var e := CodePointEscape(cp);
    var u := e + t;
    HexDigitsOf(cp);
    var first := if cp <= 0xFF then 1 else 2;
    HexValueUnfolds(u[first..]);
    assert u[|e|..] == t;
    if cp <= 0xFF {
      assert u[1..][0] == e[1] && u[1..][1] == e[2] && u[1] != 0x55;
    } else {
      assert u[2..][0] == e[2] && u[2..][1] == e[3] && u[2..][2] == e[4] && u[2..][3] == e[5];
    }
  }

  lemma KeyPieceUnescapes(k: bytes, i: nat, t: bytes)
    requires i < |k|
    ensures UnescapeKey(KeyPiece(k, i) + t) == Encode(Narrow(Decode(k, i).0)) + UnescapeKey(t)
    ensures Narrow(Decode(k, i).0) <= 0xFFFF
  {
    if k[i] == SLASH || IsKeyByte(k[i]) {
      AsciiEncoding(k[i]);
      assert (KeyPiece(k, i) + t)[1..] == t;
    } else {
      CodePointUnescapes(Narrow(Decode(k, i).0), t);
    }
  }

  lemma AsciiEncoding(c: byte)
    requires c < 0x80
    ensures Encode(c) == [c]
  {
  }

  lemma {:induction false} KeyFromReadsBack(k: bytes, i: nat)
    requires i <= |k|
    ensures UnescapeKey(EscapeKeyFrom(k, i)) == EncodeAll(Narrowed(DecodeFrom(k, i)))
    decreases |k| - i
  {
    hide KeyPiece, Narrow;
    if i < |k| {
      KeyPieceUnescapes(k, i, EscapeKeyFrom(k, Next(k, i)));
      KeyFromReadsBack(k, Next(k, i));
      var d := DecodeFrom(k, i);
      assert d[0] == Decode(k, i).0 && d[1..] == DecodeFrom(k, Next(k, i));
      var n := Narrowed(d);
      assert n[0] == Narrow(d[0]) && n[1..] == Narrowed(d[1..]);
    }
  }

  /** Valid UTF-8 with no code point past U+FFFF. */
  predicate Storable(k: bytes)
  {
    Valid(k) && forall j :: 0 <= j < |DecodeAll(k)| ==> DecodeAll(k)[j] <= 0xFFFF
  }

  /** A key reads back as what was written exactly when it is valid text within U+FFFF. */
  lemma KeyRoundTrip(k: bytes)
    ensures UnescapeKey(EscapeKey(k)) == k <==> Storable(k)
    ensures UnescapeKey(EscapeKey(k)) == EncodeAll(Narrowed(DecodeAll(k)))
  {
    hide Valid, EncodeAll, DecodeFrom;
    KeyFromReadsBack(k, 0);
    ValidIffReencodes(k);
    var n := Narrowed(DecodeAll(k));
    if EncodeAll(n) == k {
      EncodeAllIsValid(n);
      DecodeInvertsEncode(n);
    }
  }

  // ---- Values ----

  function HexEscape(c: byte): bytes
  {
    [BACKSLASH, 0x78] + (if c >= 16 then [LowerHex(c / 16)] else []) + [LowerHex(c % 16)]
  }

  /** The letter of a named control escape; 0 for bytes without one. */
  function NamedEscape(c: byte): byte
  {
    if c == 0x07 then 0x61 else if c == 0x08 then 0x62 else if c == 0x0C then 0x66 else if c == 0x0A then 0x6E
    else if c == 0x0D then 0x72 else if c == 0x09 then 0x74 else if c == 0x0B then 0x76 else 0
  }

  /** One byte's text; `afterHex` when the escape before it would swallow a hex digit. */
  function ValuePiece(c: byte, afterHex: bool): (r: bytes)
    ensures r != []
  {
    if afterHex && HexDigit(c) >= 0 then HexEscape(c)
    else if c == 0 then [BACKSLASH, ZERO]
    else if NamedEscape(c) != 0 then [BACKSLASH, NamedEscape(c)]
    else if c == QUOTE || c == BACKSLASH then [BACKSLASH, c]
    else if c <= 0x1F then HexEscape(c)
    else [c]
  }

  predicate SwallowsHex(c: byte, afterHex: bool)
  {
    (afterHex && HexDigit(c) >= 0) || c == 0 || (c <= 0x1F && NamedEscape(c) == 0)
  }

  function EscapeBytes(s: bytes, afterHex: bool): bytes
  {
    if s == [] then [] else ValuePiece(s[0], afterHex) + EscapeBytes(s[1..], SwallowsHex(s[0], afterHex))
  }

  predicate NeedsQuotes(s: bytes) { exists k :: 0 <= k < |s| && (s[k] == SEMICOLON || s[k] == COMMA || s[k] == EQUALS) }

  predicate IsQuoted(s: bytes)
  {
    var out := EscapeBytes(s, false);
    NeedsQuotes(s) || (out != [] && (out[0] == SPACE || out[|out| - 1] == SPACE))
  }

  function EscapeValue(s: bytes): bytes
  {
    var out := EscapeBytes(s, false);
    if IsQuoted(s) then [QUOTE] + out + [QUOTE] else out
  }

  method WriteValue(s: bytes) returns (out: bytes)
    ensures out == EscapeValue(s)
  {
    hide ValuePiece, SwallowsHex;
    out := [];
    var quotes, escapeDigit := false, false;
    var i := 0;
    assert s[0..] == s;
    while i < |s|
      invariant 0 <= i <= |s|
      invariant quotes <==> exists k :: 0 <= k < i && (s[k] == SEMICOLON || s[k] == COMMA || s[k] == EQUALS)
      invariant EscapeBytes(s, false) == out + EscapeBytes(s[i..], escapeDigit)
    {
      var c := s[i];
      assert s[i..][1..] == s[i + 1..];
      if c == SEMICOLON || c == COMMA || c == EQUALS { quotes := true; }
      out := out + ValuePiece(c, escapeDigit);
      escapeDigit := SwallowsHex(c, escapeDigit);
      i := i + 1;
    }
    if quotes || (out != [] && (out[0] == SPACE || out[|out| - 1] == SPACE)) {
      out := [QUOTE] + out + [QUOTE];
    }
  }

  function EncodeString(s: bytes): bytes { if s != [] && s[0] == AT then [AT] + s else s }

  datatype Stored = Nothing | Text(s: bytes) | Bytes(s: bytes) | List(items: seq<bytes>)
  {
    /** The value as a string. */
    function AsText(): bytes
    {
      match this
      case Text(s) => s
      case Bytes(s) => s
      case List(items) => if |items| == 1 then items[0] else []
      case Nothing => []
    }
  }

  /** "@ByteArray(" */
  const BYTE_ARRAY: bytes := [0x40, 0x42, 0x79, 0x74, 0x65, 0x41, 0x72, 0x72, 0x61, 0x79, 0x28]
  /** "@String(" */
  const STRING: bytes := [0x40, 0x53, 0x74, 0x72, 0x69, 0x6E, 0x67, 0x28]
  /** "@Invalid()" */
  const INVALID: bytes := [0x40, 0x49, 0x6E, 0x76, 0x61, 0x6C, 0x69, 0x64, 0x28, 0x29]

  function Latin1(cps: seq<int>): bytes
    requires AllScalars(cps)
  {
    if cps == [] then [] else [if cps[0] <= 0xFF then cps[0] else 0x3F] + Latin1(cps[1..])
  }

  function DecodeString(s: bytes): Stored
  {
    if |s| > 1 && s[0] == AT then
      if s[|s| - 1] == 0x29 && BYTE_ARRAY <= s then
        (if |s| > 11 then Bytes(Latin1(DecodeAll(s[11..|s| - 1]))) else Bytes([]))
      else if s[|s| - 1] == 0x29 && STRING <= s then (if |s| > 8 then Text(s[8..|s| - 1]) else Text([]))
      else if s == INVALID then Nothing
      else if s[1] == AT then Text(s[1..])
      else Text(s)
    else Text(s)
  }

  lemma StringRoundTrip(s: bytes)
    ensures DecodeString(EncodeString(s)) == Text(s)
  {
    if s != [] && s[0] == AT {
      var e := [AT] + s;
      assert e[1] == AT && BYTE_ARRAY[1] != AT && STRING[1] != AT && INVALID[1] != AT;
      assert e[1..] == s;
    }
  }

  // ---- Reading a value ----

  /** The reader's state: finished list items, the item being read, and how much of it a trailing trim may not touch. */
  datatype Scan = Scan(items: seq<bytes>, cur: bytes, isList: bool, inQuotes: bool, quoted: bool, chopLimit: nat)

  predicate IsBlank(c: byte) { c == SPACE || c == TAB }

  function SkipBlanks(t: bytes): (r: bytes)
    ensures |r| <= |t|
  {
    if t != [] && IsBlank(t[0]) then SkipBlanks(t[1..]) else t
  }

  function ChopTrailing(s: bytes, limit: nat): bytes
  {
    if |s| > limit && IsBlank(s[|s| - 1]) then ChopTrailing(s[..|s| - 1], limit) else s
  }

  /** The digits of a numeric escape, as many as there are. */
  function Digits(t: bytes, base: nat, v: nat): (r: (nat, bytes))
    ensures |r.1| <= |t|
  {
    var d := if t == [] then -1 else if base == 16 then HexDigit(t[0]) else if 0x30 <= t[0] <= 0x37 then t[0] - 0x30 else -1;
    if d < 0 then (v, t) else Digits(t[1..], base, (v * base + d) % 0x1_0000_0000)
  }

  function KnownEscape(e: byte): int
  {
    if e == 0x61 then 0x07 else if e == 0x62 then 0x08 else if e == 0x66 then 0x0C else if e == 0x6E then 0x0A
    else if e == 0x72 then 0x0D else if e == 0x74 then 0x09 else if e == 0x76 then 0x0B
    else if e == QUOTE || e == 0x3F || e == 0x27 || e == BACKSLASH then e
    else -1
  }

  /** One escape, the text after its backslash given (not empty): what it appends, and the text after it. */
  function ReadEscape(t: bytes): (r: (bytes, bytes))
    requires t != []
    ensures |r.1| < |t|
  {
    if KnownEscape(t[0]) >= 0 then ([KnownEscape(t[0])], t[1..])
    else if t[0] == 0x78 then
      var (v, rest) := Digits(t[1..], 16, 0);
      (if |rest| < |t| - 1 then Encode(v % 0x10000) else [], rest)
    else if 0x30 <= t[0] <= 0x37 then
      var (v, rest) := Digits(t[1..], 8, t[0] - 0x30);
      (Encode(v % 0x10000), rest)
    else if (t[0] == LF || t[0] == CR) && |t| > 1 && (t[1] == LF || t[1] == CR) && t[1] != t[0] then ([], t[2..])
    else ([], t[1..])
  }

  function ScanValue(t: bytes, st: Scan): Scan
    decreases |t|
  {
    if t == [] then st
    else if t[0] == BACKSLASH then
      if |t| == 1 then st else
      var (s, rest) := ReadEscape(t[1..]);
      ScanValue(rest, st.(cur := st.cur + s, chopLimit := |st.cur + s|))
    else if t[0] == QUOTE then
      if st.inQuotes then
        ScanValue(SkipBlanks(t[1..]), st.(quoted := true, inQuotes := false, chopLimit := |st.cur|))
      else ScanValue(t[1..], st.(quoted := true, inQuotes := true))
    else if t[0] == COMMA && !st.inQuotes then
      var item := if st.quoted then st.cur else ChopTrailing(st.cur, st.chopLimit);
      ScanValue(SkipBlanks(t[1..]), Scan(st.items + [item], [], true, false, false, 0))
    else ScanValue(t[1..], st.(cur := st.cur + [t[0]]))
  }

  function Finish(st: Scan): Stored
  {
    var item := if st.quoted then st.cur else ChopTrailing(st.cur, st.chopLimit);
    if st.isList then List(Texts(st.items + [item])) else DecodeString(item)
  }

  function Texts(items: seq<bytes>): seq<bytes>
  {
    if items == [] then [] else [DecodeString(items[0]).AsText()] + Texts(items[1..])
  }

  function UnescapeValue(t: bytes): Stored { Finish(ScanValue(SkipBlanks(t), Scan([], [], false, false, false, 0))) }

  predicate IsRunByte(c: byte) { c != BACKSLASH && c != QUOTE && c != COMMA }

  lemma {:induction false} RunScans(t: bytes, n: nat, st: Scan)
    requires n <= |t| && forall k :: 0 <= k < n ==> IsRunByte(t[k])
    ensures ScanValue(t, st) == ScanValue(t[n..], st.(cur := st.cur + t[..n]))
    decreases n
  {
    if n == 0 {
      assert t[0..] == t && st.cur + t[..0] == st.cur;
    } else {
      var next := st.(cur := st.cur + [t[0]]);
      RunScans(t[1..], n - 1, next);
      assert t[1..][n - 1..] == t[n..];
      assert st.cur + [t[0]] + t[1..][..n - 1] == st.cur + t[..n];
    }
  }

  /** The reader's loop, which copies plain runs whole. */
  method ReadValue(str: bytes) returns (v: Stored)
    ensures v == UnescapeValue(str)
  {
    hide ReadEscape;
    var items: seq<bytes>, cur: bytes := [], [];
    var isList, inQuotes, quoted := false, false, false;
    var chopLimit: nat := 0;
    var rest := SkipBlanks(str);
    ghost var all := ScanValue(rest, Scan([], [], false, false, false, 0));
    while rest != []
      invariant all == ScanValue(rest, Scan(items, cur, isList, inQuotes, quoted, chopLimit))
      decreases |rest|
    {
      var c := rest[0];
      if c == BACKSLASH {
        if |rest| == 1 { rest := []; break; }
        var (s, after) := ReadEscape(rest[1..]);
        cur := cur + s;
        rest, chopLimit := after, |cur|;
      } else if c == QUOTE {
        quoted, inQuotes := true, !inQuotes;
        rest := rest[1..];
        if !inQuotes { rest, chopLimit := SkipBlanks(rest), |cur|; }
      } else if c == COMMA && !inQuotes {
        if !quoted { cur := ChopTrailing(cur, chopLimit); }
        isList, items, cur, quoted := true, items + [cur], [], false;
        rest, chopLimit := SkipBlanks(rest[1..]), 0;
      } else {
        var j := 1;
        while j < |rest| && IsRunByte(rest[j])
          invariant 1 <= j <= |rest| && forall k :: 1 <= k < j ==> IsRunByte(rest[k])
        {
          j := j + 1;
        }
        RunScans(rest[1..], j - 1, Scan(items, cur + [c], isList, inQuotes, quoted, chopLimit));
        assert rest[1..][j - 1..] == rest[j..];
        assert cur + [c] + rest[1..][..j - 1] == cur + rest[..j];
        cur, rest := cur + rest[..j], rest[j..];
      }
    }
    if !quoted { cur := ChopTrailing(cur, chopLimit); }
    if !isList { return DecodeString(cur); }
    v := List(Texts(items + [cur]));
  }
}
