/**
 * Every byte string survives the INI store's value escapes
 * (src/base/old_settings.cpp): what the reader makes of what the writer wrote.
 */
module IniValue {
  import opened Utf8
  import opened Ascii
  import opened IniEscape

  /** Nothing at `t` would lengthen a hex escape before it. */
  predicate NoHex(t: bytes) { t == [] || HexDigit(t[0]) < 0 }

  predicate IsEscaped(c: byte, afterHex: bool) { ValuePiece(c, afterHex) != [c] }

  lemma DigitStep(d: nat, t: bytes, v: nat)
    requires d < 16
    ensures Digits([LowerHex(d)] + t, 16, v) == Digits(t, 16, (v * 16 + d) % 0x1_0000_0000)
  {
    assert ([LowerHex(d)] + t)[1..] == t;
  }

  lemma SmallDigitStep(d: nat, t: bytes, v: nat)
    requires d < 16 && v < 16
    ensures Digits([LowerHex(d)] + t, 16, v) == Digits(t, 16, v * 16 + d)
  {
    hide Digits, LowerHex;
    DigitStep(d, t, v);
  }

  lemma HexDigitsRead(c: byte, t: bytes)
    requires NoHex(t)
    ensures Digits((if c >= 16 then [LowerHex(c / 16)] else []) + [LowerHex(c % 16)] + t, 16, 0) == (c, t)
  {
    var low := [LowerHex(c % 16)] + t;
    assert Digits(t, 16, c) == (c, t);
    assert c / 16 * 16 + c % 16 == c;
    hide Digits, LowerHex, NoHex;
    if c >= 16 {
      SmallDigitStep(c / 16, low, 0);
      SmallDigitStep(c % 16, t, c / 16);
      assert [LowerHex(c / 16)] + [LowerHex(c % 16)] + t == [LowerHex(c / 16)] + low;
    } else {
      SmallDigitStep(c, t, 0);
      assert [] + [LowerHex(c % 16)] + t == low;
    }
  }

  lemma HexEscapeReads(c: byte, t: bytes)
    requires c < 0x80 && NoHex(t)
    ensures ReadEscape(HexEscape(c)[1..] + t) == ([c], t)
  {
    hide Digits, Encode, LowerHex;
    var digits := (if c >= 16 then [LowerHex(c / 16)] else []) + [LowerHex(c % 16)];
    assert HexEscape(c)[1..] == [0x78] + digits;
    assert ([0x78] + digits + t)[1..] == digits + t;
    HexDigitsRead(c, t);
    AsciiEncoding(c);
  }

  lemma NulReads(t: bytes)
    requires NoHex(t)
    ensures ReadEscape([ZERO] + t) == ([0], t)
  {
    assert ([ZERO] + t)[1..] == t;
    AsciiEncoding(0);
  }

  lemma PieceReads(c: byte, afterHex: bool, t: bytes)
    requires IsEscaped(c, afterHex) && (SwallowsHex(c, afterHex) ==> NoHex(t))
    ensures var p := ValuePiece(c, afterHex); |p| >= 2 && p[0] == BACKSLASH && ReadEscape(p[1..] + t) == ([c], t)
  {
    var p := ValuePiece(c, afterHex);
    if p == HexEscape(c) {
      HexEscapeReads(c, t);
    } else if c == 0 {
      assert p[1..] == [ZERO];
      NulReads(t);
    } else {
      assert (p[1..] + t)[1..] == t;
    }
  }

  lemma ScanSteps(u: bytes, st: Scan)
    ensures |u| > 1 && u[0] == BACKSLASH ==>
              var (s, rest) := ReadEscape(u[1..]);
              ScanValue(u, st) == ScanValue(rest, st.(cur := st.cur + s, chopLimit := |st.cur + s|))
    ensures u != [] && u[0] != BACKSLASH && u[0] != QUOTE && (u[0] != COMMA || st.inQuotes) ==>
              ScanValue(u, st) == ScanValue(u[1..], st.(cur := st.cur + [u[0]]))
  {
    hide ReadEscape;
  }

  /** One escaped byte adds that byte to the item being read. */
  lemma PieceScans(c: byte, afterHex: bool, t: bytes, st: Scan)
    requires (SwallowsHex(c, afterHex) ==> NoHex(t)) && (c == COMMA ==> st.inQuotes)
    ensures ScanValue(ValuePiece(c, afterHex) + t, st)
            == ScanValue(t, st.(cur := st.cur + [c], chopLimit := if IsEscaped(c, afterHex) then |st.cur| + 1 else st.chopLimit))
  {
    hide ReadEscape, ValuePiece, SwallowsHex, ScanValue, NoHex;
    var p := ValuePiece(c, afterHex);
    ScanSteps(p + t, st);
    assert (p + t)[1..] == p[1..] + t;
    PlainPiece(c, afterHex);
    if IsEscaped(c, afterHex) {
      PieceReads(c, afterHex, t);
      assert (p + t)[0] == BACKSLASH;
    } else {
      assert p[1..] + t == t && (p + t)[0] == c;
    }
  }

  lemma NextPieceIsNoHex(s: bytes, afterHex: bool, t: bytes)
    requires afterHex && NoHex(t)
    ensures NoHex(EscapeBytes(s, afterHex) + t)
  {
    if s == [] { assert [] + t == t; }
  }

  /** Where the trailing trim may start after reading `s`. */
  function LimitAfter(s: bytes, afterHex: bool, base: nat, limit: nat): nat
  {
    if s == [] then limit
    else LimitAfter(s[1..], SwallowsHex(s[0], afterHex), base + 1, if IsEscaped(s[0], afterHex) then base + 1 else limit)
  }

  lemma {:induction false} EscapedScans(s: bytes, afterHex: bool, t: bytes, st: Scan)
    requires NoHex(t) && (st.inQuotes || COMMA !in s)
    ensures ScanValue(EscapeBytes(s, afterHex) + t, st)
            == ScanValue(t, st.(cur := st.cur + s, chopLimit := LimitAfter(s, afterHex, |st.cur|, st.chopLimit)))
    decreases |s|
  {
    hide ScanValue, ValuePiece, SwallowsHex, NoHex, IsEscaped;
    if s == [] {
      assert [] + t == t && st.cur + [] == st.cur;
    } else {
      var c, next := s[0], SwallowsHex(s[0], afterHex);
      var u := EscapeBytes(s[1..], next) + t;
      if next { NextPieceIsNoHex(s[1..], next, t); }
      assert EscapeBytes(s, afterHex) + t == ValuePiece(c, afterHex) + u;
      PieceScans(c, afterHex, u, st);
      var st' := st.(cur := st.cur + [c], chopLimit := if IsEscaped(c, afterHex) then |st.cur| + 1 else st.chopLimit);
      EscapedScans(s[1..], next, t, st');
      assert st.cur + [c] + s[1..] == st.cur + s;
    }
  }

  /** The last byte is written as itself, or the trim may not reach it. */
  lemma {:induction false} LastByte(s: bytes, afterHex: bool, base: nat, limit: nat)
    requires s != []
    ensures var c, out := s[|s| - 1], EscapeBytes(s, afterHex);
            out != [] && ((out[|out| - 1] == c && c != TAB) || LimitAfter(s, afterHex, base, limit) == base + |s|)
    decreases |s|
  {
    hide ValuePiece;
    var c, next := s[0], SwallowsHex(s[0], afterHex);
    PlainPiece(c, afterHex);
    var rest := EscapeBytes(s[1..], next);
    if |s| > 1 {
      LastByte(s[1..], next, base + 1, if IsEscaped(c, afterHex) then base + 1 else limit);
      assert EscapeBytes(s, afterHex)[|EscapeBytes(s, afterHex)| - 1] == rest[|rest| - 1];
    } else {
      assert rest == [];
      assert EscapeBytes(s, afterHex) == ValuePiece(c, afterHex);
    }
  }

  lemma PlainPiece(c: byte, afterHex: bool)
    ensures IsEscaped(c, afterHex) || (ValuePiece(c, afterHex) == [c] && c >= 0x20 && c != QUOTE && c != BACKSLASH)
  {
  }

  lemma FirstByte(s: bytes)
    ensures var out := EscapeBytes(s, false); out != [] ==> out[0] >= 0x20
  {
  }

  lemma NotQuotedHasNoComma(s: bytes)
    requires !IsQuoted(s)
    ensures COMMA !in s && SEMICOLON !in s && EQUALS !in s
  {
    assert forall k :: 0 <= k < |s| ==> s[k] != COMMA && s[k] != SEMICOLON && s[k] != EQUALS;
  }

  /** The reader takes back every byte string the writer wrote, up to the stored form of strings. */
  lemma ValueReadsBack(s: bytes)
    ensures UnescapeValue(EscapeValue(s)) == DecodeString(s)
  {
    hide EscapeBytes, ScanValue, DecodeString;
    var start := Scan([], [], false, false, false, 0);
    var out := EscapeBytes(s, false);
    assert [] + s == s;
    if IsQuoted(s) {
      QuotedScans(s);
    } else {
      NotQuotedHasNoComma(s);
      FirstByte(s);
      EscapedScans(s, false, [], start);
      assert out + [] == out;
      ScanEnds(start.(cur := s, chopLimit := LimitAfter(s, false, 0, 0)));
      if s != [] { LastByte(s, false, 0, 0); }
    }
  }

  lemma ScanEnds(st: Scan)
    ensures ScanValue([], st) == st
  {
  }

  lemma QuotedScans(s: bytes)
    ensures var st := ScanValue([QUOTE] + EscapeBytes(s, false) + [QUOTE], Scan([], [], false, false, false, 0));
            st.cur == s && st.quoted && !st.isList
    ensures SkipBlanks([QUOTE] + EscapeBytes(s, false) + [QUOTE]) == [QUOTE] + EscapeBytes(s, false) + [QUOTE]
  {
    var out := EscapeBytes(s, false);
    var t := [QUOTE] + out + [QUOTE];
    assert t[1..] == out + [QUOTE];
    var inside := Scan([], [], false, true, true, 0);
    EscapedScans(s, false, [QUOTE], inside);
    assert [] + s == s;
    assert [QUOTE][1..] == [];
    var done := inside.(cur := s, chopLimit := LimitAfter(s, false, 0, 0));
    assert ScanValue([QUOTE], done).cur == s;
  }

  /** A string value set is the string value read, whatever its bytes. */
  lemma ValueRoundTrip(s: bytes)
    ensures UnescapeValue(EscapeValue(EncodeString(s))) == Text(s)
  {
    ValueReadsBack(EncodeString(s));
    StringRoundTrip(s);
  }
}
