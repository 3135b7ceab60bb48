/**
 * How the lines the INI setter writes read back (src/base/old_settings.cpp):
 * headers, key lines, and exactly which keys survive.
 */
module IniLine {
  import opened Wrappers
  import opened Utf8
  import opened Ascii
  import opened IniEscape
  import opened IniValue
  import opened IniFile

  // ---- Bytes of the written forms ----

  predicate IsKeyText(c: byte) { IsKeyByte(c) || c == PERCENT || c == BACKSLASH }

  lemma {:induction false} KeyTextBytes(k: bytes, i: nat)
    requires i <= |k|
    ensures forall j :: 0 <= j < |EscapeKeyFrom(k, i)| ==> IsKeyText(EscapeKeyFrom(k, i)[j])
    decreases |k| - i
  {
    if i < |k| { KeyTextBytes(k, Next(k, i)); }
  }

  predicate Printable(s: bytes) { forall j :: 0 <= j < |s| ==> s[j] >= 0x20 }

  lemma {:induction false} EscapedIsPrintable(s: bytes, afterHex: bool)
    ensures Printable(EscapeBytes(s, afterHex))
  {
    if s == [] {
    } else {
      EscapedIsPrintable(s[1..], SwallowsHex(s[0], afterHex));
    }
  }

  lemma ValueTextBytes(s: bytes)
    ensures var v := EscapeValue(s); Printable(v) && (v != [] ==> v[|v| - 1] != SPACE)
  {
    EscapedIsPrintable(s, false);
  }

  /** No end of line inside, no white space at either end: read from a file as it is. */
  predicate Clean(s: bytes)
  {
    && (forall j :: 0 <= j < |s| ==> !IsEol(s[j]))
    && (s != [] ==> !IsTrimmed(s[0]) && !IsTrimmed(s[|s| - 1]))
  }

  lemma CleanIsTrimmed(s: bytes)
    requires Clean(s)
    ensures Trim(s) == s
  {
  }

  // ---- Headers ----

  /** Sections whose header reads back; a name that is General in another case does not. */
  predicate GoodSection(section: bytes)
  {
    section == [] ||
    (&& section[|section| - 1] == SLASH
     && Storable(section[..|section| - 1])
     && (Lower(section[..|section| - 1]) == GENERAL ==> section[..|section| - 1] == GENERAL_NAME))
  }

  lemma {:induction false} PlainKeyIsItself(k: bytes, i: nat)
    requires i <= |k| && forall j :: i <= j < |k| ==> IsKeyByte(k[j])
    ensures EscapeKeyFrom(k, i) == k[i..]
    decreases |k| - i
  {
    if i < |k| {
      PlainKeyIsItself(k, i + 1);
      assert Next(k, i) == i + 1;
    }
  }

  lemma {:induction false} NoEscapesReadAsTheyAre(k: bytes)
    requires forall j :: 0 <= j < |k| ==> k[j] != PERCENT && k[j] != BACKSLASH
    ensures UnescapeKey(k) == k
  {
    if k == [] {
    } else {
      NoEscapesReadAsTheyAre(k[1..]);
    }
  }

  /** Only General's own letters, in any case, are written as General's letters. */
  lemma GeneralIsWrittenPlain(name: bytes)
    requires Storable(name)
    ensures Lower(EscapeKey(name)) == GENERAL <==> Lower(name) == GENERAL
    ensures Lower(name) == GENERAL ==> EscapeKey(name) == name
  {
    var e := EscapeKey(name);
    if Lower(name) == GENERAL {
      forall j | 0 <= j < |name| ensures IsKeyByte(name[j]) { assert Lower(name)[j] == GENERAL[j]; }
      PlainKeyIsItself(name, 0);
      assert name[0..] == name;
    }
    if Lower(e) == GENERAL {
      forall j | 0 <= j < |e| ensures e[j] != PERCENT && e[j] != BACKSLASH { assert Lower(e)[j] == GENERAL[j]; }
      NoEscapesReadAsTheyAre(e);
      KeyRoundTrip(name);
    }
  }

  lemma EscapeNeverSpellsPercentGeneral(name: bytes)
    ensures Lower(EscapeKey(name)) != [PERCENT] + GENERAL
  {
    var e, spelt := EscapeKey(name), [PERCENT] + GENERAL;
    if name != [] {
      var p := KeyPiece(name, 0);
      assert p <= e;
      assert e[0] == PERCENT ==> |p| >= 2 && e[1] == p[1] && p[1] != 0x67 && p[1] != 0x47;
    }
    if |e| >= 2 {
      assert spelt[0] == PERCENT && spelt[1] == 0x67;
      assert Lower(e)[0] == PERCENT ==> e[0] == PERCENT;
      assert Lower(e)[1] == 0x67 ==> e[1] == 0x67 || e[1] == 0x47;
    }
  }

  lemma BracketedName(name: bytes)
    requires forall j :: 0 <= j < |name| ==> IsKeyText(name[j])
    ensures var line := [LBRACKET] + name + [RBRACKET];
            Clean(line) && SectionOf(line) == Some(PrefixOf(name))
  {
    var line := [LBRACKET] + name + [RBRACKET];
    assert IndexOf(line, RBRACKET, 0) == |name| + 1 by {
      forall j | 0 <= j < |name| + 1 ensures line[j] != RBRACKET {
        if j > 0 { assert line[j] == name[j - 1] && IsKeyText(name[j - 1]); }
      }
      assert line[|name| + 1] == RBRACKET;
    }
    assert line[1..|name| + 1] == name;
    CleanIsTrimmed(name);
  }

  /** The prefix a written header reads as. */
  function HeaderPrefix(section: bytes): bytes
  {
    if section == [] then []
    else if Lower(EscapeKey(section[..|section| - 1])) == GENERAL then GENERAL_NAME + [SLASH]
    else UnescapeKey(EscapeKey(section[..|section| - 1])) + [SLASH]
  }

  lemma HeaderReads(section: bytes)
    ensures Clean(HeaderText(section)) && HeaderText(section) != []
    ensures SectionOf(HeaderText(section)) == Some(HeaderPrefix(section))
  {
    hide EscapeKey, UnescapeKey, SectionOf, Clean;
    if section == [] {
      BracketedName(GENERAL_NAME);
      assert Lower(GENERAL_NAME) == GENERAL;
    } else {
      var name := EscapeKey(section[..|section| - 1]);
      if Lower(name) == GENERAL {
        var shown := [PERCENT] + GENERAL_NAME;
        BracketedName(shown);
        assert Lower(shown) == [PERCENT] + GENERAL;
        assert shown[1..] == GENERAL_NAME;
        assert [LBRACKET] + shown + [RBRACKET] == [LBRACKET, PERCENT] + GENERAL_NAME + [RBRACKET];
      } else {
        EscapedNameBytes(section[..|section| - 1]);
        BracketedName(name);
        EscapeNeverSpellsPercentGeneral(section[..|section| - 1]);
      }
    }
  }

  lemma EscapedNameBytes(name: bytes)
    ensures forall j :: 0 <= j < |EscapeKey(name)| ==> IsKeyText(EscapeKey(name)[j])
  {
    KeyTextBytes(name, 0);
  }

  lemma GoodSectionReads(section: bytes)
    requires GoodSection(section)
    ensures HeaderPrefix(section) == section
  {
    hide EscapeKey, UnescapeKey, Storable;
    if section != [] {
      var name := section[..|section| - 1];
      GeneralIsWrittenPlain(name);
      KeyRoundTrip(name);
    }
  }

  // ---- Key lines ----

  /** How many slashes the key ends in, from `i` on. */
  function TrailingSlashes(k: bytes, i: nat): (n: nat)
    requires i <= |k|
    ensures n <= |k| - i
    decreases |k| - i
  {
    if i == |k| then 0
    else if k[i] == SLASH && TrailingSlashes(k, i + 1) == |k| - i - 1 then |k| - i
    else TrailingSlashes(k, i + 1)
  }

  /** Keys whose line reads back: storable, and not ending in an odd run of slashes. */
  predicate GoodSubKey(sub: bytes) { Storable(sub) && TrailingSlashes(sub, 0) % 2 == 0 }

  /** Scanning the written key, where a backslash hides the byte after it, the '=' that follows is seen. */
  predicate EqualsSeen(key: bytes, i: nat)
    decreases |key| - i
  {
    if i == |key| then true
    else if i > |key| then false
    else EqualsSeen(key, if key[i] == BACKSLASH then i + 2 else i + 1)
  }

  function TrailingBackslashes(k: bytes, i: nat): (n: nat)
    requires i <= |k|
    ensures n <= |k| - i
    decreases |k| - i
  {
    if i == |k| then 0
    else if k[i] == BACKSLASH && TrailingBackslashes(k, i + 1) == |k| - i - 1 then |k| - i
    else TrailingBackslashes(k, i + 1)
  }

  lemma {:induction false} SeenIffEven(key: bytes, i: nat)
    requires i <= |key|
    ensures EqualsSeen(key, i) <==> TrailingBackslashes(key, i) % 2 == 0
    decreases |key| - i
  {
    if i < |key| {
      if key[i] != BACKSLASH {
        SeenIffEven(key, i + 1);
      } else if i + 2 <= |key| {
        SeenIffEven(key, i + 2);
      }
    }
  }

  /** Without a backslash the run is what follows it. */
  lemma {:induction false} TrailingAfterPrefix(a: bytes, b: bytes, i: nat)
    requires i <= |a|
    ensures TrailingBackslashes(a + b, i)
            == if TrailingBackslashes(b, 0) == |b| then TrailingBackslashes(a, i) + |b| else TrailingBackslashes(b, 0)
    decreases |a| - i
  {
    if i == |a| {
      TrailingShift(a, b, 0);
    } else {
      TrailingAfterPrefix(a, b, i + 1);
    }
  }

  lemma {:induction false} TrailingShift(a: bytes, b: bytes, i: nat)
    requires i <= |b|
    ensures TrailingBackslashes(a + b, |a| + i) == TrailingBackslashes(b, i)
    decreases |b| - i
  {
    if i < |b| { TrailingShift(a, b, i + 1); }
  }

  lemma {:induction false} SlashesAreBackslashes(k: bytes, i: nat)
    requires i <= |k|
    ensures TrailingBackslashes(EscapeKeyFrom(k, i), 0) == TrailingSlashes(k, i)
    ensures TrailingSlashes(k, i) == |k| - i <==> TrailingBackslashes(EscapeKeyFrom(k, i), 0) == |EscapeKeyFrom(k, i)|
    decreases |k| - i
  {
    if i < |k| {
      var n := Next(k, i);
      var p, rest := KeyPiece(k, i), EscapeKeyFrom(k, n);
      SlashesAreBackslashes(k, n);
      TrailingAfterPrefix(p, rest, 0);
      if k[i] == SLASH {
        assert TrailingBackslashes(p, 0) == 1;
      } else {
        PieceEndsPlain(k, i);
        NoSlashInside(k, i, n);
        NoSlashesBefore(k, i, n);
      }
    }
  }

  lemma PieceEndsPlain(k: bytes, i: nat)
    requires i < |k| && k[i] != SLASH
    ensures var p := KeyPiece(k, i); p != [] && TrailingBackslashes(p, 0) == 0
  {
    var p := KeyPiece(k, i);
    LastIsPlain(p, 0);
  }

  lemma {:induction false} LastIsPlain(p: bytes, i: nat)
    requires i < |p| && p[|p| - 1] != BACKSLASH
    ensures TrailingBackslashes(p, i) == 0
    decreases |p| - i
  {
    if i + 1 < |p| { LastIsPlain(p, i + 1); }
  }

  lemma NoSlashInside(k: bytes, i: nat, n: nat)
    requires i < |k| && n == Next(k, i) && k[i] != SLASH
    ensures forall j :: i <= j < n ==> k[j] != SLASH
  {
    InsideIsContinuation(k, i);
  }

  lemma {:induction false} NoSlashesBefore(k: bytes, i: nat, n: nat)
    requires i < n <= |k| && forall j :: i <= j < n ==> k[j] != SLASH
    ensures TrailingSlashes(k, i) == TrailingSlashes(k, n) <= |k| - n
    decreases n - i
  {
    if i + 1 < n { NoSlashesBefore(k, i + 1, n); }
  }

  lemma {:induction false} ScanKey(line: bytes, key: bytes, i: nat)
    requires key + [EQUALS] <= line && i <= |key| + 1
    requires forall j :: 0 <= j < |key| ==> IsKeyText(key[j])
    requires i > |key| ==> !EqualsSeen(key, i)
    ensures ScanPair(line, i, false, -1)
            == if EqualsSeen(key, i) then ScanPair(line, |key| + 1, false, |key|) else ScanPair(line, |key| + 1, false, -1)
    decreases |key| + 1 - i
  {
    if i <= |key| {
      assert line[i] == (key + [EQUALS])[i];
      if i < |key| {
        assert IsKeyText(key[i]);
        ScanKey(line, key, if key[i] == BACKSLASH then i + 2 else i + 1);
      }
    }
  }

  lemma ScanPiece(line: bytes, pre: bytes, c: byte, afterHex: bool, quotes: bool, eq: int)
    requires pre + ValuePiece(c, afterHex) <= line && -1 <= eq < |pre|
    requires quotes || (c != SEMICOLON && c != EQUALS)
    ensures ScanPair(line, |pre|, quotes, eq) == ScanPair(line, |pre| + |ValuePiece(c, afterHex)|, quotes, eq)
  {
    var p := ValuePiece(c, afterHex);
    forall j | 0 <= j < |p| ensures line[|pre| + j] == p[j] { assert line[|pre| + j] == (pre + p)[|pre| + j]; }
    if |p| >= 2 {
      assert line[|pre|] == BACKSLASH;
      assert ScanPair(line, |pre|, quotes, eq) == ScanPair(line, |pre| + 2, quotes, eq);
    }
    if |p| >= 3 {
      assert line[|pre| + 2] == p[2] == LowerHex(if |p| == 3 then c % 16 else c / 16);
      assert ScanPair(line, |pre| + 2, quotes, eq) == ScanPair(line, |pre| + 3, quotes, eq);
    }
    if |p| == 4 {
      assert line[|pre| + 3] == p[3] == LowerHex(c % 16);
    }
  }

  lemma {:induction false} ScanEscaped(line: bytes, pre: bytes, s: bytes, afterHex: bool, quotes: bool, eq: int)
    requires pre + EscapeBytes(s, afterHex) <= line && -1 <= eq < |pre|
    requires quotes || (SEMICOLON !in s && EQUALS !in s)
    ensures ScanPair(line, |pre|, quotes, eq) == ScanPair(line, |pre| + |EscapeBytes(s, afterHex)|, quotes, eq)
    decreases |s|
  {
    hide ScanPair, ValuePiece, SwallowsHex;
    if s == [] {
    } else {
      var p := ValuePiece(s[0], afterHex);
      var rest := EscapeBytes(s[1..], SwallowsHex(s[0], afterHex));
      assert pre + EscapeBytes(s, afterHex) == pre + p + rest;
      assert pre + p == (pre + p + rest)[..|pre + p|] == line[..|pre + p|];
      ScanPiece(line, pre, s[0], afterHex, quotes, eq);
      ScanEscaped(line, pre + p, s[1..], SwallowsHex(s[0], afterHex), quotes, eq);
    }
  }

  lemma QuotedLine(line: bytes, pre: bytes, out: bytes)
    requires pre + ([QUOTE] + out + [QUOTE]) <= line
    ensures |pre| + |out| + 2 <= |line| && line[|pre|] == QUOTE && line[|pre| + |out| + 1] == QUOTE
    ensures pre + [QUOTE] + out <= line
  {
    assert pre + ([QUOTE] + out + [QUOTE]) == pre + [QUOTE] + out + [QUOTE];
  }

  lemma ScanQuote(line: bytes, i: nat, quotes: bool, eq: int)
    requires i < |line| && line[i] == QUOTE && -1 <= eq < i
    ensures ScanPair(line, i, quotes, eq) == ScanPair(line, i + 1, !quotes, eq)
  {
  }

  lemma ScanQuoted(line: bytes, pre: bytes, s: bytes, eq: int)
    requires pre + ([QUOTE] + EscapeBytes(s, false) + [QUOTE]) <= line && -1 <= eq < |pre|
    ensures |pre| + |EscapeBytes(s, false)| + 2 <= |line|
    ensures ScanPair(line, |pre|, false, eq) == ScanPair(line, |pre| + |EscapeBytes(s, false)| + 2, false, eq)
  {
    hide EscapeBytes, ScanPair;
    var inside, out := pre + [QUOTE], EscapeBytes(s, false);
    QuotedLine(line, pre, out);
    var i, j := |pre| + 1, |pre| + |out| + 1;
    assert |inside| == i && i + |out| == j;
    ScanQuote(line, |pre|, false, eq);
    ScanEscaped(line, inside, s, false, true, eq);
    assert ScanPair(line, i, true, eq) == ScanPair(line, j, true, eq);
    ScanQuote(line, j, true, eq);
  }

  /** A written value holds no ';' or '=' outside quotes: the scan runs through it. */
  lemma ScanWrittenValue(line: bytes, pre: bytes, s: bytes, eq: int)
    requires pre + EscapeValue(s) <= line && -1 <= eq < |pre|
    ensures ScanPair(line, |pre|, false, eq) == ScanPair(line, |pre| + |EscapeValue(s)|, false, eq)
  {
    hide EscapeBytes, IsQuoted, ScanPair;
    if IsQuoted(s) {
      ScanQuoted(line, pre, s, eq);
    } else {
      NotQuotedHasNoComma(s);
      ScanEscaped(line, pre, s, false, false, eq);
    }
  }

  lemma ScanEnds(line: bytes, quotes: bool, eq: int)
    requires -1 <= eq < |line|
    ensures ScanPair(line, |line|, quotes, eq) == (eq, |line|)
  {
  }

  /** The scan runs to the end of the written pair, and has seen its '=' unless a backslash hides it. */
  lemma ScanWrittenPair(line: bytes, sub: bytes, value: bytes)
    requires PairText(sub, value) <= line
    ensures ScanPair(line, 0, false, -1)
            == ScanPair(line, |PairText(sub, value)|, false, if TrailingSlashes(sub, 0) % 2 == 0 then |EscapeKey(sub)| else -1)
  {
    hide EscapeValue, EscapeKeyFrom, ScanPair;
    var key, s := EscapeKey(sub), EncodeString(value);
    KeyTextBytes(sub, 0);
    assert PairText(sub, value) == (key + [EQUALS]) + EscapeValue(s);
    assert key + [EQUALS] <= PairText(sub, value);
    SlashesAreBackslashes(sub, 0);
    SeenIffEven(key, 0);
    ScanKey(line, key, 0);
    ScanWrittenValue(line, key + [EQUALS], s, |key|);
    ScanWrittenValue(line, key + [EQUALS], s, -1);
  }

  lemma PairReads(sub: bytes, value: bytes)
    ensures var line := PairText(sub, value);
            && Clean(line) && line != [] && SectionOf(line) == None
            && KeyValue(line) == if TrailingSlashes(sub, 0) % 2 == 0
                                 then Some((EscapeKey(sub), EscapeValue(EncodeString(value)))) else None
  {
    hide EscapeValue, EscapeKeyFrom, ScanPair;
    var key, v := EscapeKey(sub), EscapeValue(EncodeString(value));
    var line := PairText(sub, value);
    KeyTextBytes(sub, 0);
    ValueTextBytes(EncodeString(value));
    assert line == (key + [EQUALS]) + v;
    ScanWrittenPair(line, sub, value);
    ScanEnds(line, false, |key|);
    ScanEnds(line, false, -1);
    hide TrailingSlashes, PairText, EscapeKey, IsKeyText;
    assert line[..|key|] == key && line[|key| + 1..|line|] == v;
    assert key != [] ==> line[0] == key[0];
    assert key == [] ==> line[0] == EQUALS;
    KeyIsTrimmed(key);
  }

  lemma KeyIsTrimmed(key: bytes)
    requires forall j :: 0 <= j < |key| ==> IsKeyText(key[j])
    ensures Trim(key) == key
  {
    CleanIsTrimmed(key);
  }
}
