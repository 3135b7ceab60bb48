/**
 * What the settings reader (src/base/old_settings.cpp) makes of the forms that
 * earlier versions stored and the setter never writes: numeric escapes of any
 * length, lists, byte arrays, comments.
 */
module IniLegacy {
  import opened Wrappers
  import opened Utf8
  import opened Ascii
  import opened IniEscape
  import opened IniValue
  import opened IniFile
  import opened IniLine
  import IniStore

  // ---- Numbers ----

  /** The digits of `v` in the base, highest first, in either case; zeros may precede them. */
  predicate IsNumeral(t: bytes, base: nat, v: nat)
    requires base > 0
  {
    && t != []
    && SpellsDigit(t[|t| - 1], v % base)
    && if |t| == 1 then v < base else IsNumeral(t[..|t| - 1], base, v / base)
  }

  /** No digit follows. */
  predicate NumberEnds(t: bytes, base: nat) { t == [] || forall d :: 0 <= d < base ==> !SpellsDigit(t[0], d) }

  const WORD := 0x1_0000_0000

  lemma Carried(q: nat, base: nat, r: nat)
    ensures (q % WORD * base + r) % WORD == (q * base + r) % WORD
  {
    var k := q / WORD;
    assert q == k * WORD + q % WORD;
    assert q * base + r == k * base * WORD + (q % WORD * base + r) by {
      assert (k * WORD + q % WORD) * base == k * WORD * base + q % WORD * base;
      assert k * WORD * base == k * base * WORD;
    }
    Multiple(q % WORD * base + r, k * base);
  }

  lemma Multiple(x: nat, k: nat)
    ensures (k * WORD + x) % WORD == x % WORD
  {
    var y := x / WORD;
    assert k * WORD + x == (k + y) * WORD + x % WORD;
  }

  lemma OneDigit(c: byte, base: nat, d: nat, t: bytes, v: nat)
    requires (base == 8 || base == 16) && d < base && SpellsDigit(c, d)
    ensures Digits([c] + t, base, v) == Digits(t, base, (v * base + d) % WORD)
  {
    DigitIs(c, d);
    assert ([c] + t)[1..] == t;
  }

  lemma {:induction false} DigitsRead(n: bytes, base: nat, v: nat, t: bytes)
    requires (base == 8 || base == 16) && IsNumeral(n, base, v)
    ensures Digits(n + t, base, 0) == Digits(t, base, v % WORD)
    decreases |n|
  {
    hide Digits, SpellsDigit;
    var m, c := n[..|n| - 1], n[|n| - 1];
    assert n + t == m + ([c] + t);
    if m == [] {
      assert m + ([c] + t) == [c] + t;
      OneDigit(c, base, v % base, t, 0);
    } else {
      DigitsRead(m, base, v / base, [c] + t);
      OneDigit(c, base, v % base, t, v / base % WORD);
      Carried(v / base, base, v % base);
      assert v / base * base + v % base == v;
    }
  }

  lemma NumberStops(t: bytes, base: nat, v: nat)
    requires (base == 8 || base == 16) && NumberEnds(t, base)
    ensures Digits(t, base, v) == (v, t)
  {
    if t != [] {
      var d := HexDigit(t[0]);
      if 0 <= d < base { DigitIs(t[0], d); }
    }
  }

  lemma LowHalf(v: nat)
    ensures v % WORD % 0x10000 == v % 0x10000
  {
  }

  /** A hex or an octal escape, however many digits, appends the code point of the number's low 16 bits. */
  lemma NumericEscapeReads(n: bytes, v: nat, t: bytes)
    ensures IsNumeral(n, 16, v) && NumberEnds(t, 16) ==> ReadEscape([0x78] + n + t) == (Encode(v % 0x10000), t)
    ensures IsNumeral(n, 8, v) && NumberEnds(t, 8) ==> ReadEscape(n + t) == (Encode(v % 0x10000), t)
  {
    hide Digits, IsNumeral, NumberEnds, Encode, ReadEscape;
    if IsNumeral(n, 16, v) && NumberEnds(t, 16) { HexReads(n, v, t); }
    if IsNumeral(n, 8, v) && NumberEnds(t, 8) { OctalReads(n, v, t); }
  }

  lemma HexReads(n: bytes, v: nat, t: bytes)
    requires IsNumeral(n, 16, v) && NumberEnds(t, 16)
    ensures ReadEscape([0x78] + n + t) == (Encode(v % 0x10000), t)
  {
    hide Digits, IsNumeral, NumberEnds, Encode;
    LowHalf(v);
    NumeralSize(n, 16, v);
    DigitsRead(n, 16, v, t);
    NumberStops(t, 16, v % WORD);
    assert ([0x78] + n + t)[1..] == n + t;
  }

  lemma NumeralSize(n: bytes, base: nat, v: nat)
    requires base > 0 && IsNumeral(n, base, v)
    ensures n != []
  {
  }

  lemma {:induction false} FirstDigit(n: bytes, base: nat, v: nat) returns (d: nat)
    requires base > 0 && IsNumeral(n, base, v)
    ensures d < base && SpellsDigit(n[0], d)
    decreases |n|
  {
    if |n| == 1 { d := v; } else { d := FirstDigit(n[..|n| - 1], base, v / base); }
  }

  lemma OctalReads(n: bytes, v: nat, t: bytes)
    requires IsNumeral(n, 8, v) && NumberEnds(t, 8)
    ensures ReadEscape(n + t) == (Encode(v % 0x10000), t)
  {
    hide Digits, IsNumeral, NumberEnds, Encode;
    LowHalf(v);
    var d := FirstDigit(n, 8, v);
    NumeralSize(n, 8, v);
    DigitIs(n[0], d);
    DigitsRead(n, 8, v, t);
    NumberStops(t, 8, v % WORD);
    var rest := (n + t)[1..];
    assert n + t == [n[0]] + rest;
    OneDigit(n[0], 8, d, rest, 0);
  }

  /** The named escapes, and those of marks, of the C language. */
  lemma LetterReads(t: bytes)
    ensures forall k :: 0 <= k < 7 ==> ReadEscape([[0x61, 0x62, 0x74, 0x6E, 0x76, 0x66, 0x72][k]] + t) == ([0x07 + k], t)
    ensures forall c: byte :: c in {QUOTE, 0x3F, 0x27, BACKSLASH} ==> ReadEscape([c] + t) == ([c], t)
  {
    assert forall c: byte :: ([c] + t)[1..] == t;
  }

  lemma {:induction false} HexValueIs(n: bytes, v: nat, t: bytes)
    requires IsNumeral(n, 16, v)
    ensures HexValue(n + t, |n|) == v
    decreases |n|
  {
    var m, c := n[..|n| - 1], n[|n| - 1];
    DigitIs(c, v % 16);
    assert n + t == m + ([c] + t);
    if m != [] { HexValueIs(m, v / 16, [c] + t); }
  }

  lemma ShortCode(n: bytes, v: nat, t: bytes)
    requires |n| == 2 && n[0] != 0x55 && HexValue(n + t, 2) == v
    ensures UnescapeKey([PERCENT] + n + t) == Encode(v) + UnescapeKey(t)
  {
    hide Encode, HexValue, UnescapeKey;
    var u := [PERCENT] + n + t;
    KeyStep(u);
    assert u[1..] == n + t && u[3..] == t && u[1] == n[0];
  }

  lemma LongCode(n: bytes, v: nat, t: bytes)
    requires |n| == 4 && HexValue(n + t, 4) == v
    ensures UnescapeKey([PERCENT, 0x55] + n + t) == Encode(v) + UnescapeKey(t)
  {
    hide Encode, HexValue, UnescapeKey;
    var u := [PERCENT, 0x55] + n + t;
    KeyStep(u);
    assert u[2..] == n + t && u[6..] == t && u[1] == 0x55;
  }

  /** A coded character of a key, of two digits or of four, in either case. */
  lemma KeyCodeReads(n: bytes, v: nat, t: bytes)
    requires IsNumeral(n, 16, v)
    ensures |n| == 2 ==> UnescapeKey([PERCENT] + n + t) == Encode(v) + UnescapeKey(t)
    ensures |n| == 4 ==> UnescapeKey([PERCENT, 0x55] + n + t) == Encode(v) + UnescapeKey(t)
  {
    hide Encode, HexValue, UnescapeKey, IsNumeral;
    NumeralSize(n, 16, v);
    HexValueIs(n, v, t);
    var d := FirstDigit(n, 16, v);
    DigitIs(n[0], d);
    if |n| == 2 { ShortCode(n, v, t); }
    if |n| == 4 { LongCode(n, v, t); }
  }

  // ---- Lists ----

  predicate Blank(s: bytes) { forall k :: 0 <= k < |s| ==> s[k] == SPACE || s[k] == TAB }

  /** Blanks may stand on both sides of a comma. */
  function ListText(items: seq<bytes>, before: bytes, after: bytes): bytes
    requires items != []
  {
    if |items| == 1 then EscapeValue(items[0])
    else EscapeValue(items[0]) + (before + [COMMA] + after + ListText(items[1..], before, after))
  }

  lemma {:induction false} BlanksSkipped(b: bytes, t: bytes)
    requires Blank(b)
    ensures SkipBlanks(b + t) == SkipBlanks(t)
  {
    if b == [] {
      assert b + t == t;
    } else {
      BlanksSkipped(b[1..], t);
      assert (b + t)[1..] == b[1..] + t;
    }
  }

  lemma {:induction false} BlanksChopped(s: bytes, b: bytes, limit: nat)
    requires Blank(b) && limit <= |s| && (s != [] ==> limit == |s| || (s[|s| - 1] != SPACE && s[|s| - 1] != TAB))
    ensures ChopTrailing(s + b, limit) == s
  {
    if b == [] {
      assert s + b == s;
    } else {
      var n := |b| - 1;
      BlanksChopped(s, b[..n], limit);
      assert (s + b)[..|s + b| - 1] == s + b[..n] && (s + b)[|s + b| - 1] == b[n];
    }
  }

  lemma {:induction false} BlanksRead(b: bytes, t: bytes, st: Scan)
    requires Blank(b)
    ensures ScanValue(b + t, st) == ScanValue(t, st.(cur := st.cur + b))
  {
    if b == [] {
      assert b + t == t && st.cur + b == st.cur;
    } else {
      ScanSteps(b + t, st);
      assert (b + t)[1..] == b[1..] + t && st.cur + [b[0]] + b[1..] == st.cur + b;
      BlanksRead(b[1..], t, st.(cur := st.cur + [b[0]]));
    }
  }

  /** The item a list's comma or the end completes. */
  function ItemOf(st: Scan): bytes { if st.quoted then st.cur else ChopTrailing(st.cur, st.chopLimit) }

  function Start(items: seq<bytes>, isList: bool): Scan { Scan(items, [], isList, false, false, 0) }

  /** After a written item and blanks the scan is ready to complete it. */
  ghost predicate Ready(st: Scan, items: seq<bytes>, isList: bool, s: bytes)
  {
    st.items == items && st.isList == isList && !st.inQuotes && ItemOf(st) == s
  }

  lemma PlainItem(s: bytes, b: bytes, t: bytes, items: seq<bytes>, isList: bool) returns (st: Scan)
    requires !IsQuoted(s) && Blank(b) && (t == [] || t[0] == COMMA)
    ensures ScanValue(EscapeValue(s) + (b + t), Start(items, isList)) == ScanValue(t, st) && Ready(st, items, isList, s)
  {
    hide EscapeBytes, ScanValue, LimitAfter, Blank;
    var limit := LimitAfter(s, false, 0, 0);
    NotQuotedHasNoComma(s);
    assert NoHex(b + t) by { NoHexBlank(b, t); }
    EscapedScans(s, false, b + t, Start(items, isList));
    assert [] + s == s;
    var st0 := Start(items, isList).(cur := s, chopLimit := limit);
    BlanksRead(b, t, st0);
    st := st0.(cur := s + b);
    LimitWithin(s, false, 0, 0);
    if s != [] { LastByte(s, false, 0, 0); }
    BlanksChopped(s, b, limit);
  }

  lemma {:induction false} LimitWithin(s: bytes, afterHex: bool, base: nat, limit: nat)
    requires limit <= base
    ensures LimitAfter(s, afterHex, base, limit) <= base + |s|
  {
    if s != [] { LimitWithin(s[1..], SwallowsHex(s[0], afterHex), base + 1, if IsEscaped(s[0], afterHex) then base + 1 else limit); }
  }

  lemma NoHexBlank(b: bytes, t: bytes)
    requires Blank(b) && (t == [] || t[0] == COMMA)
    ensures NoHex(b + t)
  {
    if b != [] { assert (b + t)[0] == b[0]; }
  }

  lemma QuotedItem(s: bytes, b: bytes, t: bytes, items: seq<bytes>, isList: bool) returns (st: Scan)
    requires IsQuoted(s) && Blank(b) && (t == [] || t[0] == COMMA)
    ensures ScanValue(EscapeValue(s) + (b + t), Start(items, isList)) == ScanValue(t, st) && Ready(st, items, isList, s)
  {
    hide EscapeBytes, ScanValue, LimitAfter, Blank, IsQuoted;
    var out, end := EscapeBytes(s, false), [QUOTE] + (b + t);
    assert EscapeValue(s) + (b + t) == [QUOTE] + (out + end);
    var inside := Start(items, isList).(quoted := true, inQuotes := true);
    OpensQuote(out + end, Start(items, isList));
    EscapedScans(s, false, end, inside);
    assert [] + s == s;
    var st0 := inside.(cur := s, chopLimit := LimitAfter(s, false, 0, 0));
    ClosesQuote(b + t, st0);
    BlanksSkipped(b, t);
    st := st0.(inQuotes := false, chopLimit := |s|);
  }

  lemma OpensQuote(t: bytes, st: Scan)
    requires !st.inQuotes
    ensures ScanValue([QUOTE] + t, st) == ScanValue(t, st.(quoted := true, inQuotes := true))
  {
    assert ([QUOTE] + t)[1..] == t;
  }

  lemma ClosesQuote(t: bytes, st: Scan)
    requires st.inQuotes
    ensures ScanValue([QUOTE] + t, st) == ScanValue(SkipBlanks(t), st.(quoted := true, inQuotes := false, chopLimit := |st.cur|))
  {
    assert ([QUOTE] + t)[1..] == t;
  }

  lemma CommaRead(t: bytes, st: Scan, items: seq<bytes>, isList: bool, s: bytes)
    requires Ready(st, items, isList, s)
    ensures ScanValue([COMMA] + t, st) == ScanValue(SkipBlanks(t), Start(items + [s], true))
  {
    hide ChopTrailing;
    assert ([COMMA] + t)[1..] == t;
  }

  /** What is written for an item never begins with a blank. */
  lemma NoBlankFirst(s: bytes, t: bytes)
    requires t == [] || t[0] == COMMA || t[0] == SPACE || t[0] == TAB
    ensures EscapeValue(s) != [] ==> SkipBlanks(EscapeValue(s) + t) == EscapeValue(s) + t
  {
    FirstByte(s);
  }

  lemma NothingWritten(s: bytes)
    requires EscapeValue(s) == []
    ensures s == []
  {
  }

  lemma BlankFirst(b: bytes, t: bytes)
    requires Blank(b) && (t == [] || t[0] == COMMA)
    ensures b + t == [] || (b + t)[0] == COMMA || (b + t)[0] == SPACE || (b + t)[0] == TAB
    ensures SkipBlanks(t) == t
  {
  }

  lemma ItemRead(s: bytes, b: bytes, t: bytes, items: seq<bytes>, isList: bool) returns (st: Scan)
    requires Blank(b) && (t == [] || t[0] == COMMA)
    ensures ScanValue(SkipBlanks(EscapeValue(s) + (b + t)), Start(items, isList)) == ScanValue(t, st) && Ready(st, items, isList, s)
  {
    hide EscapeValue, IsQuoted, ScanValue, Blank, SkipBlanks;
    BlankFirst(b, t);
    if EscapeValue(s) == [] {
      BlanksSkipped(b, t);
      NothingWritten(s);
      assert [] + (b + t) == b + t;
      st := Start(items, isList);
    } else {
      NoBlankFirst(s, b + t);
      if IsQuoted(s) { st := QuotedItem(s, b, t, items, isList); } else { st := PlainItem(s, b, t, items, isList); }
    }
  }

  lemma ListStep(ss: seq<bytes>, before: bytes, after: bytes)
    requires |ss| > 1
    ensures ListText(ss, before, after)
            == EscapeValue(ss[0]) + (before + ([COMMA] + (after + ListText(ss[1..], before, after))))
  {
    hide EscapeValue;
    assert before + [COMMA] + after + ListText(ss[1..], before, after)
        == before + ([COMMA] + (after + ListText(ss[1..], before, after)));
  }

  lemma OneItem(s: bytes, before: bytes, after: bytes)
    ensures ListText([s], before, after) == EscapeValue(s) + ([] + [])
  {
    hide EscapeValue;
  }

  lemma OneDone(done: seq<bytes>, ss: seq<bytes>)
    requires |ss| > 1
    ensures done + [ss[0]] + ss[1..][..|ss| - 2] == done + ss[..|ss| - 1] && ss[1..][|ss| - 2] == ss[|ss| - 1]
  {
  }

  lemma {:induction false} ListScans(ss: seq<bytes>, before: bytes, after: bytes, done: seq<bytes>, isList: bool) returns (st: Scan)
    requires ss != [] && Blank(before) && Blank(after)
    ensures ScanValue(SkipBlanks(ListText(ss, before, after)), Start(done, isList)) == st
    ensures Ready(st, done + ss[..|ss| - 1], isList || |ss| > 1, ss[|ss| - 1])
    decreases |ss|
  {
    hide EscapeValue, ScanValue, SkipBlanks, Blank, Ready, ListText;
    if |ss| == 1 {
      assert ss == [ss[0]];
      OneItem(ss[0], before, after);
      NoBlanks();
      st := ItemRead(ss[0], [], [], done, isList);
      IniValue.ScanEnds(st);
      assert done + ss[..0] == done;
    } else {
      var rest := ListText(ss[1..], before, after);
      ListStep(ss, before, after);
      var st0 := ItemRead(ss[0], before, [COMMA] + (after + rest), done, isList);
      CommaRead(after + rest, st0, done, isList, ss[0]);
      BlanksSkipped(after, rest);
      st := ListScans(ss[1..], before, after, done + [ss[0]], true);
      OneDone(done, ss);
    }
  }

  lemma NoBlanks()
    ensures Blank([])
  {
  }

  function Encoded(items: seq<bytes>): (r: seq<bytes>)
    ensures |r| == |items|
  {
    if items == [] then [] else [EncodeString(items[0])] + Encoded(items[1..])
  }

  lemma {:induction false} TextsOfEncoded(items: seq<bytes>)
    ensures Texts(Encoded(items)) == items
  {
    hide DecodeString, EncodeString;
    if items != [] {
      StringRoundTrip(items[0]);
      TextsOfEncoded(items[1..]);
    }
  }

  /** A stored list of two items or more is read as those items, whatever their bytes and whatever blanks surround the commas; one item is a text. */
  lemma ListReads(items: seq<bytes>, before: bytes, after: bytes)
    requires items != [] && Blank(before) && Blank(after)
    ensures UnescapeValue(ListText(Encoded(items), before, after)) == if |items| == 1 then Text(items[0]) else List(items)
  {
    hide ListText, ScanValue, Blank, EncodeString, DecodeString, Encoded, Texts;
    var ss := Encoded(items);
    var st := ListScans(ss, before, after, [], false);
    if |items| == 1 {
      assert ss[0] == EncodeString(items[0]) by { OneEncoded(items); }
      StringRoundTrip(items[0]);
    } else {
      assert [] + ss[..|ss| - 1] + [ss[|ss| - 1]] == ss;
      TextsOfEncoded(items);
    }
  }

  lemma OneEncoded(items: seq<bytes>)
    requires items != []
    ensures Encoded(items)[0] == EncodeString(items[0])
  {
  }

  // ---- Byte arrays ----

  lemma {:induction false} Latin1OfBytes(b: bytes)
    ensures AllScalars(b) && Latin1(b) == b
  {
    if b != [] { Latin1OfBytes(b[1..]); }
  }

  /** A byte array is stored as the text whose characters are its bytes, between "@ByteArray(" and ")". */
  lemma ByteArrayReads(b: bytes)
    ensures UnescapeValue(EscapeValue(BYTE_ARRAY + EncodeAll(b) + [0x29])) == Bytes(b)
  {
    hide EscapeValue, UnescapeValue, EncodeAll, Latin1;
    var e := EncodeAll(b);
    var s := BYTE_ARRAY + e + [0x29];
    ValueReadsBack(s);
    Latin1OfBytes(b);
    DecodeInvertsEncode(b);
    assert s[11..|s| - 1] == e;
    assert s[0] == AT && s[|s| - 1] == 0x29 && BYTE_ARRAY <= s;
  }

  // ---- Comments ----

  /** What follows a semicolon after a written value is no part of it, and a line that begins with one holds nothing. */
  lemma CommentIsIgnored(sub: bytes, value: bytes, comment: bytes)
    ensures KeyValue([SEMICOLON] + comment) == None
    ensures KeyValue(PairText(sub, value) + [SEMICOLON] + comment) == KeyValue(PairText(sub, value))
  {
    hide ScanPair, PairText, EscapeKey, TrailingSlashes;
    var pair := PairText(sub, value);
    var line := pair + [SEMICOLON] + comment;
    var eq := if TrailingSlashes(sub, 0) % 2 == 0 then |EscapeKey(sub)| else -1;
    PairReads(sub, value);
    assert pair <= line && line[0] == pair[0] && line[|pair|] == SEMICOLON;
    ScanWrittenPair(line, sub, value);
    ScanWrittenPair(pair, sub, value);
    KeyWithin(sub, value);
    CommentEnds(line, |pair|, eq);
    IniLine.ScanEnds(pair, false, eq);
    SamePair(pair, comment, eq);
  }

  lemma SamePair(pair: bytes, comment: bytes, eq: int)
    requires pair != [] && pair[0] != SEMICOLON && -1 <= eq < |pair|
    requires ScanPair(pair, 0, false, -1) == ScanPair(pair + [SEMICOLON] + comment, 0, false, -1) == (eq, |pair|)
    ensures KeyValue(pair + [SEMICOLON] + comment) == KeyValue(pair)
  {
    hide ScanPair, Trim;
    var line := pair + [SEMICOLON] + comment;
    assert line[0] == pair[0];
    if eq >= 0 { assert line[..eq] == pair[..eq] && line[eq + 1..|pair|] == pair[eq + 1..|pair|]; }
  }

  lemma KeyWithin(sub: bytes, value: bytes)
    ensures |EscapeKey(sub)| < |PairText(sub, value)| && PairText(sub, value)[0] != SEMICOLON
  {
    KeyTextBytes(sub, 0);
  }

  lemma CommentEnds(line: bytes, i: nat, eq: int)
    requires i < |line| && line[i] == SEMICOLON && -1 <= eq < i
    ensures ScanPair(line, i, false, eq) == (eq, i)
  {
  }

  // ---- Line ends ----

  function Joined(lines: seq<bytes>, eol: bytes): bytes
  {
    if lines == [] then [] else lines[0] + (eol + Joined(lines[1..], eol))
  }

  predicate NoEol(s: bytes) { forall k :: 0 <= k < |s| ==> !IsEol(s[k]) }

  predicate LineEnd(eol: bytes) { eol == [LF] || eol == [CR] || eol == [CR, LF] }

  predicate Plain(lines: seq<bytes>) { forall i :: 0 <= i < |lines| ==> NoEol(lines[i]) }

  lemma OneLineEnds(t: bytes, a: bytes, line: bytes, eol: bytes, rest: bytes, j: nat)
    requires j == |a| + |line| && NoEol(line) && LineEnd(eol) && t == a + (line + (eol + rest)) && (rest != [] && rest[0] == LF ==> eol == [LF])
    ensures j < |t| && t[|a|..j] == line && EolFrom(t, |a|) == j && AfterEol(t, j) == j + |eol|
  {
    hide EolFrom, AfterEol, LineEnd;
    IniStore.Regrouped(a, line, eol + rest);
    forall k | |a| <= k < j ensures !IsEol(t[k]) { assert t[|a|..j][k - |a|] == line[k - |a|]; }
    assert t[j..] == eol + rest;
    assert IsEol(t[j]) && AfterEol(t, j) == j + |eol| by { EolAt(t, j, eol, rest); }
    IniStore.EolIs(t, |a|, j);
  }

  lemma EolAt(t: bytes, j: nat, eol: bytes, rest: bytes)
    requires LineEnd(eol) && j <= |t| && t[j..] == eol + rest && (rest != [] && rest[0] == LF ==> eol == [LF])
    ensures j < |t| && IsEol(t[j]) && AfterEol(t, j) == j + |eol|
  {
    var u := eol + rest;
    assert t[j] == u[0] && (|u| > 1 ==> t[j + 1] == u[1]) && (|u| > 2 ==> t[j + 2] == u[2]);
  }

  lemma FirstOfRest(lines: seq<bytes>, eol: bytes)
    requires Plain(lines) && LineEnd(eol)
    ensures var rest := Joined(lines, eol); rest != [] && rest[0] == LF ==> eol == [LF]
  {
    if lines != [] && lines[0] != [] { assert !IsEol(lines[0][0]); }
  }

  lemma {:induction false} LinesAre(t: bytes, a: bytes, lines: seq<bytes>, eol: bytes)
    requires Plain(lines) && LineEnd(eol) && t == a + Joined(lines, eol)
    ensures var ls := LinesFrom(t, |a|); |ls| == |lines| && forall i :: 0 <= i < |ls| ==> ls[i].text == Trim(lines[i])
    decreases |lines|
  {
    hide LinesFrom, Trim, EolFrom, AfterEol;
    if lines == [] {
      LinesEnd(t);
    } else {
      var line, rest := lines[0], Joined(lines[1..], eol);
      assert Plain(lines[1..]);
      FirstOfRest(lines[1..], eol);
      OneLineEnds(t, a, line, eol, rest, |a| + |line|);
      LinesStep(t, |a|);
      assert t == (a + line + eol) + rest;
      LinesAre(t, a + line + eol, lines[1..], eol);
    }
  }

  lemma {:induction false} OnlyTexts(a: seq<Line>, b: seq<Line>, section: bytes, out: map<bytes, Stored>)
    requires |a| == |b| && forall i :: 0 <= i < |a| ==> a[i].text == b[i].text
    ensures ParseLines(a, section, out) == ParseLines(b, section, out)
    decreases |a|
  {
    hide SectionOf, KeyValue, UnescapeKey, UnescapeValue;
    if a != [] {
      var header, pair := SectionOf(a[0].text), KeyValue(a[0].text);
      assert a[0].text == b[0].text;
      var out' := if header.None? && pair.Some? then out[section + UnescapeKey(pair.value.0) := UnescapeValue(pair.value.1)] else out;
      OnlyTexts(a[1..], b[1..], if header.Some? then header.value else section, out');
    }
  }

  lemma SameLines(lines: seq<bytes>, eol: bytes)
    requires Plain(lines) && LineEnd(eol)
    ensures ParseLines(LinesFrom(Joined(lines, eol), 0), [], map[]) == ParseLines(LinesFrom(Joined(lines, [LF]), 0), [], map[])
  {
    hide LinesFrom, Trim, ParseLines;
    var a, b := Joined(lines, eol), Joined(lines, [LF]);
    assert [] + a == a && [] + b == b;
    LinesAre(a, [], lines, eol);
    LinesAre(b, [], lines, [LF]);
    OnlyTexts(LinesFrom(a, 0), LinesFrom(b, 0), [], map[]);
  }

  /** The same lines hold the same settings whichever line end they have, and a byte order mark at the start is no part of them. */
  lemma LineEndsAlike(lines: seq<bytes>, eol: bytes)
    requires Plain(lines) && LineEnd(eol) && (lines != [] ==> !(BOM <= lines[0]))
    ensures ParseIni(Joined(lines, eol)) == ParseIni(Joined(lines, [LF]))
    ensures ParseIni(BOM + Joined(lines, eol)) == ParseIni(Joined(lines, eol))
  {
    hide LinesFrom, ParseLines;
    var t := Joined(lines, eol);
    NoMark(lines, eol);
    NoMark(lines, [LF]);
    SameLines(lines, eol);
    assert (BOM + t)[3..] == t;
  }

  lemma NoMark(lines: seq<bytes>, eol: bytes)
    requires Plain(lines) && LineEnd(eol) && (lines != [] ==> !(BOM <= lines[0]))
    ensures !(BOM <= Joined(lines, eol))
  {
    if lines != [] { MarkWithin(lines[0], eol + Joined(lines[1..], eol)); }
  }

  lemma MarkWithin(line: bytes, rest: bytes)
    requires rest != [] && IsEol(rest[0])
    ensures BOM <= line + rest ==> BOM <= line
  {
    var t := line + rest;
    if |line| < 3 { assert t[|line|] == rest[0] && BOM[|line|] != rest[0]; }
  }
}
