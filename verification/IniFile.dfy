/**
 * Reading an INI settings file and rewriting one key of it
 * (src/base/old_settings.cpp), as functions of the whole text and as the
 * loops that compute them.
 */
module IniFile {
  import opened Wrappers
  import opened Utf8
  import opened Ascii
  import opened IniEscape

  // ---- Lines ----

  predicate IsTrimmed(c: byte) { c == SPACE || c == TAB || c == CR || c == LF }

  function TrimStart(s: bytes): bytes { if s != [] && IsTrimmed(s[0]) then TrimStart(s[1..]) else s }

  function TrimEnd(s: bytes): bytes { if s != [] && IsTrimmed(s[|s| - 1]) then TrimEnd(s[..|s| - 1]) else s }

  function Trim(s: bytes): bytes { TrimEnd(TrimStart(s)) }

  /** `[begin, end)` of the text, without its end of line; `text` is trimmed. */
  datatype Line = Line(begin: nat, end: nat, text: bytes)

  predicate IsEol(c: byte) { c == LF || c == CR }

  function EolFrom(t: bytes, i: nat): (j: nat)
    requires i <= |t|
    ensures i <= j <= |t| && (j < |t| ==> IsEol(t[j])) && forall k :: i <= k < j ==> !IsEol(t[k])
    decreases |t| - i
  {
    if i < |t| && !IsEol(t[i]) then EolFrom(t, i + 1) else i
  }

  /** Past the "\n", "\r" or "\r\n" at `j`. */
  function AfterEol(t: bytes, j: nat): (r: nat)
    requires j <= |t|
    ensures j <= r <= |t| && (j < |t| && IsEol(t[j]) ==> j < r)
  {
    var k := if j < |t| && t[j] == CR then j + 1 else j;
    if k < |t| && t[k] == LF then k + 1 else k
  }

  function LinesFrom(t: bytes, i: nat): seq<Line>
    requires i <= |t|
    decreases |t| - i
  {
    if i == |t| then []
    else
      var j := EolFrom(t, i);
      [Line(i, j, Trim(t[i..j]))] + if j == |t| then [] else LinesFrom(t, AfterEol(t, j))
  }

  lemma EolStep(t: bytes, j: nat)
    requires j <= |t|
    ensures EolFrom(t, j) == if j < |t| && !IsEol(t[j]) then EolFrom(t, j + 1) else j
  {
  }

  lemma LinesEnd(t: bytes)
    ensures LinesFrom(t, |t|) == []
  {
  }

  lemma LinesStep(t: bytes, i: nat)
    requires i < |t|
    ensures var j := EolFrom(t, i);
            LinesFrom(t, i) == [Line(i, j, Trim(t[i..j]))] + LinesFrom(t, AfterEol(t, j))
  {
  }

  method SplitLines(t: bytes) returns (lines: seq<Line>)
    ensures lines == LinesFrom(t, 0)
  {
    hide Trim, LinesFrom, EolFrom;
    LinesEnd(t);
    lines := [];
    var i: nat := 0;
    while i < |t|
      invariant i <= |t| && LinesFrom(t, 0) == lines + LinesFrom(t, i)
    {
      var j := i;
      while j < |t| && !IsEol(t[j])
        invariant i <= j <= |t| && EolFrom(t, i) == EolFrom(t, j)
      {
        EolStep(t, j);
        j := j + 1;
      }
      EolStep(t, j);
      LinesStep(t, i);
      lines := lines + [Line(i, j, Trim(t[i..j]))];
      i := j;
      if i < |t| && t[i] == CR { i := i + 1; }
      if i < |t| && t[i] == LF { i := i + 1; }
    }
  }

  // ---- Section headers ----

  function Lower(s: bytes): (r: bytes)
    ensures |r| == |s|
  {
    seq(|s|, i requires 0 <= i < |s| => if 0x41 <= s[i] <= 0x5A then s[i] + 32 else s[i])
  }

  /** "general" */
  const GENERAL: bytes := [0x67, 0x65, 0x6E, 0x65, 0x72, 0x61, 0x6C]
  /** "General" */
  const GENERAL_NAME: bytes := [0x47, 0x65, 0x6E, 0x65, 0x72, 0x61, 0x6C]

  function IndexOf(s: bytes, c: byte, i: nat): (j: nat)
    requires i <= |s|
    ensures i <= j <= |s| && (j < |s| ==> s[j] == c) && forall k :: i <= k < j ==> s[k] != c
    decreases |s| - i
  {
    if i < |s| && s[i] != c then IndexOf(s, c, i + 1) else i
  }

  /** The key prefix of a header's name: nothing for General, else the name and a slash. */
  function PrefixOf(name: bytes): bytes
  {
    if Lower(name) == GENERAL then []
    else if Lower(name) == [PERCENT] + GENERAL then name[1..] + [SLASH]
    else UnescapeKey(name) + [SLASH]
  }

  function SectionOf(line: bytes): Option<bytes>
  {
    if line == [] || line[0] != LBRACKET then None
    else
      var close := IndexOf(line, RBRACKET, 0);
      Some(PrefixOf(Trim(if close == |line| then line[1..] else line[1..close])))
  }

  // ---- Key lines ----

  /** Looks for the first '=' and the first ';' outside quotes; a backslash hides the byte after it. */
  function ScanPair(line: bytes, i: nat, quotes: bool, eq: int): (r: (int, nat))
    requires eq < i && -1 <= eq < |line|
    ensures -1 <= r.0 < |line| && r.1 <= |line| && (r.0 >= 0 ==> r.0 < r.1)
    decreases |line| - i
  {
    if i >= |line| then (eq, |line|)
    else if line[i] == BACKSLASH then ScanPair(line, i + 2, quotes, eq)
    else if line[i] == QUOTE then ScanPair(line, i + 1, !quotes, eq)
    else if line[i] == EQUALS && !quotes && eq == -1 then ScanPair(line, i + 1, quotes, i)
    else if line[i] == SEMICOLON && !quotes then (eq, i)
    else ScanPair(line, i + 1, quotes, eq)
  }

  function KeyValue(line: bytes): Option<(bytes, bytes)>
  {
    if line == [] || line[0] == SEMICOLON then None
    else
      var (eq, end) := ScanPair(line, 0, false, -1);
      if eq == -1 then None else Some((Trim(line[..eq]), line[eq + 1..end]))
  }

  method SplitPair(line: bytes) returns (r: Option<(bytes, bytes)>)
    ensures r == KeyValue(line)
  {
    if line == [] || line[0] == SEMICOLON { return None; }
    var quotes, eq, end, i := false, -1, |line|, 0;
    while i < |line|
      invariant 0 <= i && -1 <= eq < i && eq < |line| && end == |line|
      invariant ScanPair(line, 0, false, -1) == ScanPair(line, i, quotes, eq)
      decreases |line| - i
    {
      if line[i] == BACKSLASH {
        i := i + 1;
      } else if line[i] == QUOTE {
        quotes := !quotes;
      } else if line[i] == EQUALS && !quotes && eq == -1 {
        eq := i;
      } else if line[i] == SEMICOLON && !quotes {
        end := i;
        break;
      }
      i := i + 1;
    }
    if eq == -1 { return None; }
    r := Some((Trim(line[..eq]), line[eq + 1..end]));
  }

  // ---- Reading a file ----

  function ParseLines(lines: seq<Line>, section: bytes, out: map<bytes, Stored>): map<bytes, Stored>
  {
    if lines == [] then out
    else
      match SectionOf(lines[0].text)
      case Some(prefix) => ParseLines(lines[1..], prefix, out)
      case None =>
        match KeyValue(lines[0].text)
        case Some((k, v)) => ParseLines(lines[1..], section, out[section + UnescapeKey(k) := UnescapeValue(v)])
        case None => ParseLines(lines[1..], section, out)
  }

  const BOM: bytes := [0xEF, 0xBB, 0xBF]

  function ParseIni(text: bytes): map<bytes, Stored>
  {
    ParseLines(LinesFrom(if BOM <= text then text[3..] else text, 0), [], map[])
  }

  method ReadIni(text0: bytes) returns (out: map<bytes, Stored>)
    ensures out == ParseIni(text0)
  {
    hide LinesFrom, SectionOf, KeyValue;
    var text := if BOM <= text0 then text0[3..] else text0;
    out := map[];
    var section: bytes := [];
    var lines := SplitLines(text);
    var n := 0;
    assert lines[0..] == lines;
    while n < |lines|
      invariant 0 <= n <= |lines|
      invariant ParseIni(text0) == ParseLines(lines[n..], section, out)
    {
      assert lines[n..][1..] == lines[n + 1..];
      var l := lines[n];
      n := n + 1;
      var header := SectionOf(l.text);
      if header.Some? {
        section := header.value;
        continue;
      }
      var pair := SplitPair(l.text);
      if pair.Some? {
        var k := ReadKey(pair.value.0);
        var v := ReadValue(pair.value.1);
        out := out[section + k := v];
      }
    }
  }

  // ---- Rewriting one key ----

  /** Everything up to and including the first '/'; nothing when there is none. */
  function KeySection(key: bytes): (s: bytes)
    ensures s <= key
  {
    var slash := IndexOf(key, SLASH, 0);
    if slash == |key| then [] else key[..slash + 1]
  }

  function SubKey(key: bytes): bytes { key[|KeySection(key)|..] }

  /** `t.substr(a, b - a)` */
  function Sub(t: bytes, a: nat, b: nat): bytes { if a <= b <= |t| then t[a..b] else [] }

  function From(t: bytes, a: nat): bytes { Sub(t, a, |t|) }

  /** How the walk over the lines ends: with the key's line replaced, or with what was kept and where the section ends. */
  datatype Walk = Replaced(text: bytes) | Kept(out: bytes, copied: nat, sectionEnd: int)

  function WalkLines(text: bytes, lines: seq<Line>, section: bytes, sub: bytes, line: Option<bytes>,
                     inSection: bool, out: bytes, copied: nat, sectionEnd: int): Walk
    decreases |lines|
  {
    if lines == [] then Kept(out, copied, sectionEnd)
    else
      var l := lines[0];
      match SectionOf(l.text)
      case Some(prefix) =>
        WalkLines(text, lines[1..], section, sub, line, prefix == section, out, copied,
                  if prefix == section then l.end else sectionEnd)
      case None =>
        if !inSection then WalkLines(text, lines[1..], section, sub, line, inSection, out, copied, sectionEnd)
        else if KeyValue(l.text).Some? && UnescapeKey(KeyValue(l.text).value.0) == sub then
          var out' := out + Sub(text, copied, l.begin);
          if line.Some? then Replaced(out' + line.value + From(text, l.end))
          else WalkLines(text, lines[1..], section, sub, line, inSection, out', PastLine(text, l.end), sectionEnd)
        else WalkLines(text, lines[1..], section, sub, line, inSection, out, copied,
                       if l.text != [] then l.end else sectionEnd)
  }

  /** After the end of line at `i`; a lone byte or the "\r\n" pair. */
  function PastLine(text: bytes, i: nat): nat
  {
    if i < |text| then i + (if Sub(text, i, i + 2) == [CR, LF] then 2 else 1) else i
  }

  function HeaderText(section: bytes): bytes
  {
    if section == [] then [LBRACKET] + GENERAL_NAME + [RBRACKET]
    else
      var name := EscapeKey(section[..|section| - 1]);
      if Lower(name) == GENERAL then [LBRACKET, PERCENT] + GENERAL_NAME + [RBRACKET]
      else [LBRACKET] + name + [RBRACKET]
  }

  function PairText(sub: bytes, value: bytes): bytes
  {
    EscapeKey(sub) + [EQUALS] + EscapeValue(EncodeString(value))
  }

  /** A new section at the end of the file, after an empty line. */
  function NewSection(text: bytes, section: bytes, line: bytes): bytes
  {
    var ended := if text != [] && text[|text| - 1] != LF then text + [LF] else text;
    (if ended == [] then [] else ended + [LF]) + HeaderText(section) + [LF] + line + [LF]
  }

  function SetIni(text: bytes, key: bytes, value: Option<bytes>): bytes
  {
    var section, sub := KeySection(key), SubKey(key);
    var line := if value.Some? then Some(PairText(sub, value.value)) else None;
    match WalkLines(text, LinesFrom(text, 0), section, sub, line, section == [], [], 0, -1)
    case Replaced(r) => r
    case Kept(out, copied, end) =>
      var kept := out + From(text, copied);
      if value.None? then kept
      else if end >= 0 then Sub(text, 0, end) + [LF] + line.value + From(text, end)
      else NewSection(kept, section, line.value)
  }

  /** The setter's own walk; `value` none removes the key. */
  method SetIniValue(text: bytes, key: bytes, value: Option<bytes>) returns (r: bytes)
    ensures r == SetIni(text, key, value)
  {
    hide LinesFrom, SectionOf, KeyValue, UnescapeKey, NewSection, HeaderText;
    var section, sub := KeySection(key), SubKey(key);
    var line: Option<bytes> := None;
    if value.Some? {
      var k := WriteKey(sub);
      var v := WriteValue(EncodeString(value.value));
      line := Some(k + [EQUALS] + v);
    }
    var inSection, sectionEnd: int := section == [], -1;
    var out: bytes, copied: nat := [], 0;
    var lines := SplitLines(text);
    ghost var walk := WalkLines(text, lines, section, sub, line, inSection, [], 0, -1);
    var n := 0;
    assert lines[0..] == lines;
    while n < |lines|
      invariant 0 <= n <= |lines|
      invariant walk == WalkLines(text, lines[n..], section, sub, line, inSection, out, copied, sectionEnd)
    {
      assert lines[n..][1..] == lines[n + 1..];
      var l := lines[n];
      n := n + 1;
      var header := SectionOf(l.text);
      if header.Some? {
        inSection := header.value == section;
        if inSection { sectionEnd := l.end; }
        continue;
      }
      if !inSection { continue; }
      var pair := SplitPair(l.text);
      var found := false;
      if pair.Some? {
        var k := ReadKey(pair.value.0);
        found := k == sub;
      }
      if found {
        out := out + Sub(text, copied, l.begin);
        copied := l.end;
        if line.Some? { return out + line.value + From(text, copied); }
        if copied < |text| { copied := copied + if Sub(text, copied, copied + 2) == [CR, LF] then 2 else 1; }
        continue;
      }
      if l.text != [] { sectionEnd := l.end; }
    }
    out := out + From(text, copied);
    if line.None? { return out; }
    if sectionEnd >= 0 { return Sub(text, 0, sectionEnd) + [LF] + line.value + From(text, sectionEnd); }
    r := NewSection(out, section, line.value);
  }
}
