/**
 * Any run of sets and removes on the INI store behaves like a map
 * (src/base/old_settings.cpp): the text is always the form of a document of
 * empty lines, headers and key lines, which the setter edits in one place.
 */
module IniStore {
  import opened Wrappers
  import opened Utf8
  import opened Ascii
  import opened IniEscape
  import opened IniValue
  import opened IniFile
  import opened IniLine

  datatype Item = Gap | Header(section: bytes) | Pair(sub: bytes, value: bytes)

  function ItemText(item: Item): bytes
  {
    match item
    case Gap => []
    case Header(section) => HeaderText(section)
    case Pair(sub, value) => PairText(sub, value)
  }

  function DocText(doc: seq<Item>): bytes
  {
    if doc == [] then [] else ItemText(doc[0]) + [LF] + DocText(doc[1..])
  }

  /** Keys the store gives back: see `FirstSetReadsBack` for why exactly these. */
  predicate GoodKey(key: bytes) { GoodSection(KeySection(key)) && GoodSubKey(SubKey(key)) }

  /** Every item reads back, and every key splits where its section ends. */
  predicate Fits(doc: seq<Item>, section: bytes)
  {
    doc == [] ||
    match doc[0]
    case Gap => Fits(doc[1..], section)
    case Header(s) => GoodSection(s) && Fits(doc[1..], s)
    case Pair(sub, _) => GoodSubKey(sub) && KeySection(section + sub) == section && Fits(doc[1..], section)
  }

  /** What a document holds, a later line for a key winning. */
  function Contents(doc: seq<Item>, section: bytes): map<bytes, Stored>
  {
    if doc == [] then map[]
    else
      match doc[0]
      case Gap => Contents(doc[1..], section)
      case Header(s) => Contents(doc[1..], s)
      case Pair(sub, value) => map[section + sub := Text(value)] + Contents(doc[1..], section)
  }

  function SectionAfter(doc: seq<Item>, section: bytes): bytes
  {
    if doc == [] then section else SectionAfter(doc[1..], if doc[0].Header? then doc[0].section else section)
  }

  /** No key has two lines. */
  predicate Unique(doc: seq<Item>, section: bytes)
  {
    doc == [] ||
    match doc[0]
    case Gap => Unique(doc[1..], section)
    case Header(s) => Unique(doc[1..], s)
    case Pair(sub, _) => section + sub !in Contents(doc[1..], section) && Unique(doc[1..], section)
  }

  lemma {:induction false} Concat(a: seq<Item>, b: seq<Item>, section: bytes)
    ensures Contents(a + b, section) == Contents(a, section) + Contents(b, SectionAfter(a, section))
    ensures Fits(a + b, section) <==> Fits(a, section) && Fits(b, SectionAfter(a, section))
    ensures Unique(a + b, section) <==>
              && Unique(a, section) && Unique(b, SectionAfter(a, section))
              && Contents(a, section).Keys !! Contents(b, SectionAfter(a, section)).Keys
  {
    hide GoodSection, GoodSubKey, KeySection;
    if a == [] {
      assert a + b == b;
    } else {
      var next := if a[0].Header? then a[0].section else section;
      assert (a + b)[0] == a[0] && (a + b)[1..] == a[1..] + b;
      Concat(a[1..], b, next);
    }
  }

  lemma {:induction false} TextConcat(a: seq<Item>, b: seq<Item>)
    ensures DocText(a + b) == DocText(a) + DocText(b)
  {
    hide ItemText;
    if a == [] {
      assert a + b == b;
    } else {
      assert (a + b)[0] == a[0] && (a + b)[1..] == a[1..] + b;
      TextConcat(a[1..], b);
    }
  }

  // ---- Lines of a document ----

  function ItemLines(doc: seq<Item>, off: nat): seq<Line>
  {
    if doc == [] then []
    else [Line(off, off + |ItemText(doc[0])|, ItemText(doc[0]))] + ItemLines(doc[1..], off + |ItemText(doc[0])| + 1)
  }

  /** What the reader makes of one item's line. */
  predicate ReadsAs(item: Item)
  {
    var line := ItemText(item);
    Clean(line) &&
    match item
    case Gap => line == [] && SectionOf(line) == None && KeyValue(line) == None
    case Header(s) => line != [] && SectionOf(line) == Some(s)
    case Pair(sub, value) =>
      && line != [] && SectionOf(line) == None && KeyValue(line).Some?
      && UnescapeKey(KeyValue(line).value.0) == sub && UnescapeValue(KeyValue(line).value.1) == Text(value)
  }

  lemma GoodItemReads(item: Item)
    requires item.Header? ==> GoodSection(item.section)
    requires item.Pair? ==> GoodSubKey(item.sub)
    ensures ReadsAs(item)
  {
    hide Clean, SectionOf, HeaderText, PairText, GoodSection, Storable, UnescapeKey, UnescapeValue;
    match item
    case Gap => GapReads();
    case Header(s) =>
      HeaderReads(s);
      GoodSectionReads(s);
    case Pair(sub, value) =>
      PairReads(sub, value);
      KeyRoundTrip(sub);
      ValueRoundTrip(value);
  }

  lemma GapReads()
    ensures Clean([]) && SectionOf([]) == None && KeyValue([]) == None
  {
  }

  predicate AllRead(doc: seq<Item>) { forall k :: 0 <= k < |doc| ==> ReadsAs(doc[k]) }

  lemma {:induction false} FittingReads(doc: seq<Item>, section: bytes)
    requires Fits(doc, section)
    ensures AllRead(doc)
  {
    hide ReadsAs, GoodSection, GoodSubKey, KeySection;
    if doc == [] {
    } else {
      GoodItemReads(doc[0]);
      FittingReads(doc[1..], if doc[0].Header? then doc[0].section else section);
      forall k | 0 <= k < |doc| ensures ReadsAs(doc[k]) {
        if k > 0 { assert doc[k] == doc[1..][k - 1]; }
      }
    }
  }

  lemma LineAt(t: bytes, i: nat, j: nat, line: bytes)
    requires i <= j < |t| && EolFrom(t, i) == j && t[i..j] == line && Trim(line) == line && AfterEol(t, j) == j + 1
    ensures LinesFrom(t, i) == [Line(i, j, line)] + LinesFrom(t, j + 1)
  {
    hide EolFrom, Trim, AfterEol;
    LinesStep(t, i);
  }

  lemma LineEnd(t: bytes, a: bytes, line: bytes, rest: bytes)
    requires t == a + (line + [LF] + rest) && Clean(line)
    ensures |a| + |line| < |t| && t[|a|..|a| + |line|] == line
    ensures EolFrom(t, |a|) == |a| + |line| && AfterEol(t, |a| + |line|) == |a| + |line| + 1
  {
    hide EolFrom, Clean;
    LineBytes(t, a, line, rest);
    NoEolIn(line);
    EolIs(t, |a|, |a| + |line|);
  }

  lemma NoEolIn(line: bytes)
    requires Clean(line)
    ensures forall k :: 0 <= k < |line| ==> !IsEol(line[k])
  {
  }

  lemma LineBytes(t: bytes, a: bytes, line: bytes, rest: bytes)
    requires t == a + (line + [LF] + rest)
    ensures |a| + |line| < |t| && t[|a| + |line|] == LF && t[|a|..|a| + |line|] == line
    ensures forall k :: |a| <= k < |a| + |line| ==> t[k] == line[k - |a|]
  {
    Regrouped(a, line, [LF] + rest);
    assert line + [LF] + rest == line + ([LF] + rest);
  }

  lemma Regrouped(a: bytes, line: bytes, tail: bytes)
    ensures var t := a + (line + tail);
            t == (a + line) + tail && t[|a|..|a| + |line|] == line && t[|a| + |line|..] == tail && t[..|a|] == a
  {
  }

  lemma {:induction false} EolIs(t: bytes, i: nat, j: nat)
    requires i <= j < |t| && IsEol(t[j]) && forall k :: i <= k < j ==> !IsEol(t[k])
    ensures EolFrom(t, i) == j
    decreases j - i
  {
    if i < j { EolIs(t, i + 1, j); }
  }

  lemma {:induction false} LinesOfDoc(t: bytes, a: bytes, doc: seq<Item>)
    requires t == a + DocText(doc) && AllRead(doc)
    ensures LinesFrom(t, |a|) == ItemLines(doc, |a|)
    decreases |doc|
  {
    hide ReadsAs, ItemText, LinesFrom, Clean, Trim, EolFrom, AfterEol;
    if doc == [] {
      LinesEnd(t);
    } else {
      var line := ItemText(doc[0]);
      CleanItem(doc[0]);
      assert DocText(doc) == line + [LF] + DocText(doc[1..]);
      LineEnd(t, a, line, DocText(doc[1..]));
      CleanIsTrimmed(line);
      LineAt(t, |a|, |a| + |line|, line);
      assert t == (a + line + [LF]) + DocText(doc[1..]);
      forall k | 0 <= k < |doc[1..]| ensures ReadsAs(doc[1..][k]) { assert doc[1..][k] == doc[k + 1]; }
      LinesOfDoc(t, a + line + [LF], doc[1..]);
    }
  }

  lemma CleanItem(item: Item)
    requires ReadsAs(item)
    ensures Clean(ItemText(item))
  {
  }

  lemma {:induction false} DocParses(doc: seq<Item>, off: nat, section: bytes, out: map<bytes, Stored>)
    requires AllRead(doc)
    ensures ParseLines(ItemLines(doc, off), section, out) == out + Contents(doc, section)
    decreases |doc|
  {
    hide ItemText, Clean, SectionOf, KeyValue, UnescapeKey, UnescapeValue;
    if doc == [] {
    } else {
      assert ReadsAs(doc[0]);
      var line, rest := ItemText(doc[0]), doc[1..];
      var lines := ItemLines(doc, off);
      assert lines[0].text == line && lines[1..] == ItemLines(rest, off + |line| + 1);
      forall k | 0 <= k < |rest| ensures ReadsAs(rest[k]) { assert rest[k] == doc[k + 1]; }
      match doc[0]
      case Gap => DocParses(rest, off + |line| + 1, section, out);
      case Header(s) => DocParses(rest, off + |line| + 1, s, out);
      case Pair(sub, value) => DocParses(rest, off + |line| + 1, section, out[section + sub := Text(value)]);
    }
  }

  /** A fitting document's text reads as what the document holds. */
  lemma DocReads(doc: seq<Item>)
    requires Fits(doc, [])
    ensures ParseIni(DocText(doc)) == Contents(doc, [])
  {
    hide AllRead, Fits, ParseLines, LinesFrom, Contents;
    FittingReads(doc, []);
    NoBom(doc);
    assert DocText(doc) == [] + DocText(doc);
    LinesOfDoc(DocText(doc), [], doc);
    DocParses(doc, 0, [], map[]);
    assert map[] + Contents(doc, []) == Contents(doc, []);
  }

  lemma NoBom(doc: seq<Item>)
    ensures !(BOM <= DocText(doc))
  {
    if doc != [] {
      var line := ItemText(doc[0]);
      if line != [] {
        assert DocText(doc)[0] == line[0];
        match doc[0]
        case Gap =>
        case Header(_) => assert line[0] == LBRACKET;
        case Pair(sub, value) =>
          KeyTextBytes(sub, 0);
          assert line[0] == if EscapeKey(sub) != [] then EscapeKey(sub)[0] else EQUALS;
      }
    }
  }

  // ---- What the setter does to a document ----

  /** The index of the key's line, looking where its section is open; -1 when there is none. */
  function FindPair(doc: seq<Item>, open: bool, section: bytes, sub: bytes): (k: int)
    ensures -1 <= k < |doc|
    ensures k >= 0 ==> doc[k].Pair? && doc[k].sub == sub
  {
    if doc == [] then -1
    else if open && doc[0].Pair? && doc[0].sub == sub then 0
    else
      var k := FindPair(doc[1..], if doc[0].Header? then doc[0].section == section else open, section, sub);
      if k < 0 then -1 else k + 1
  }

  /** The index of the last header or key line of the section; -1 when there is none. */
  function LastOf(doc: seq<Item>, open: bool, section: bytes): (k: int)
    ensures -1 <= k < |doc|
  {
    if doc == [] then -1
    else
      var open' := if doc[0].Header? then doc[0].section == section else open;
      var k := LastOf(doc[1..], open', section);
      if k >= 0 then k + 1 else if open' && !doc[0].Gap? then 0 else -1
  }

  function Dropped(doc: seq<Item>, open: bool, section: bytes, sub: bytes): seq<Item>
  {
    if doc == [] then []
    else if open && doc[0].Pair? && doc[0].sub == sub then Dropped(doc[1..], open, section, sub)
    else [doc[0]] + Dropped(doc[1..], if doc[0].Header? then doc[0].section == section else open, section, sub)
  }

  function SetDoc(doc: seq<Item>, key: bytes, value: Option<bytes>): seq<Item>
  {
    var section, sub := KeySection(key), SubKey(key);
    if value.None? then Dropped(doc, section == [], section, sub)
    else
      var pair := Pair(sub, value.value);
      var k, m := FindPair(doc, section == [], section, sub), LastOf(doc, section == [], section);
      if k >= 0 then doc[..k] + [pair] + doc[k + 1..]
      else if m >= 0 then doc[..m + 1] + [pair] + doc[m + 1..]
      else doc + (if doc == [] then [] else [Gap]) + [Header(section), pair]
  }

  /** Where the m-th item's line ends. */
  function EndOf(doc: seq<Item>, m: nat): nat
    requires m < |doc|
  {
    |DocText(doc[..m])| + |ItemText(doc[m])|
  }

  lemma EndOfTail(doc: seq<Item>, m: nat)
    requires 0 < m < |doc|
    ensures EndOf(doc, m) == |ItemText(doc[0])| + 1 + EndOf(doc[1..], m - 1)
  {
    assert doc[..m] == [doc[0]] + doc[1..][..m - 1];
    assert DocText(doc[..m]) == ItemText(doc[0]) + [LF] + DocText(doc[1..][..m - 1]);
  }

  /** One step of the walk, on an item's line. */
  lemma WalkStep(t: bytes, lines: seq<Line>, item: Item, section: bytes, sub: bytes, line: Option<bytes>,
                 open: bool, out: bytes, copied: nat, end: int)
    requires lines != [] && lines[0].text == ItemText(item) && ReadsAs(item)
    ensures var open' := if item.Header? then item.section == section else open;
            WalkLines(t, lines, section, sub, line, open, out, copied, end)
            == if open && item.Pair? && item.sub == sub then
                 (if line.Some? then Replaced(out + Sub(t, copied, lines[0].begin) + line.value + From(t, lines[0].end))
                  else WalkLines(t, lines[1..], section, sub, line, open, out + Sub(t, copied, lines[0].begin),
                                 PastLine(t, lines[0].end), end))
               else WalkLines(t, lines[1..], section, sub, line, open', out, copied,
                              if open' && !item.Gap? then lines[0].end else end)
  {
    hide ItemText, Clean, SectionOf, KeyValue, UnescapeKey, UnescapeValue;
  }

  lemma ItemLinesStep(doc: seq<Item>, off: nat)
    requires doc != []
    ensures var lines, text := ItemLines(doc, off), ItemText(doc[0]);
            lines != [] && lines[0] == Line(off, off + |text|, text) && lines[1..] == ItemLines(doc[1..], off + |text| + 1)
    ensures DocText(doc) == ItemText(doc[0]) + [LF] + DocText(doc[1..])
  {
  }

  lemma RestReads(doc: seq<Item>)
    requires doc != [] && AllRead(doc)
    ensures ReadsAs(doc[0]) && AllRead(doc[1..])
  {
    hide ReadsAs;
    forall k | 0 <= k < |doc[1..]| ensures ReadsAs(doc[1..][k]) { assert doc[1..][k] == doc[k + 1]; }
  }

  lemma DocPrefix(doc: seq<Item>, k: nat)
    requires 0 < k <= |doc|
    ensures DocText(doc[..k]) == ItemText(doc[0]) + [LF] + DocText(doc[1..][..k - 1])
  {
    hide ItemText;
    assert doc[..k][0] == doc[0] && doc[..k][1..] == doc[1..][..k - 1];
  }

  /** How the walk over `doc`, whose text follows `a`, ends when a value is set. */
  function SetWalk(a: bytes, doc: seq<Item>, section: bytes, sub: bytes, line: bytes, open: bool, end: int): Walk
  {
    var k, m := FindPair(doc, open, section, sub), LastOf(doc, open, section);
    if k >= 0 then Replaced(a + DocText(doc[..k]) + line + [LF] + DocText(doc[k + 1..]))
    else Kept([], 0, if m >= 0 then |a| + EndOf(doc, m) else end)
  }

  lemma SetWalkStep(a: bytes, doc: seq<Item>, section: bytes, sub: bytes, line: bytes, open: bool, end: int)
    requires doc != [] && !(open && doc[0].Pair? && doc[0].sub == sub)
    ensures var open' := if doc[0].Header? then doc[0].section == section else open;
            SetWalk(a, doc, section, sub, line, open, end)
            == SetWalk(a + ItemText(doc[0]) + [LF], doc[1..], section, sub, line, open',
                       if open' && !doc[0].Gap? then |a| + |ItemText(doc[0])| else end)
  {
    hide ItemText, DocText, EndOf;
    var k, m := FindPair(doc, open, section, sub), LastOf(doc, open, section);
    if k > 0 {
      ReplacedLater(doc, k, a, line);
    } else if m > 0 {
      EndOfTail(doc, m);
    } else if m == 0 {
      EndOfFirst(doc);
    }
  }

  /** The walk when a value is set: the key's line replaced, or the end of its section found. */
  lemma {:induction false} WalkSets(t: bytes, a: bytes, doc: seq<Item>, section: bytes, sub: bytes, line: bytes, open: bool, end: int)
    requires t == a + DocText(doc) && AllRead(doc)
    ensures WalkLines(t, ItemLines(doc, |a|), section, sub, Some(line), open, [], 0, end)
            == SetWalk(a, doc, section, sub, line, open, end)
    decreases |doc|
  {
    hide WalkLines, ItemText, ItemLines, DocText, ReadsAs, AllRead, EndOf, From, Sub, SetWalk, FindPair, LastOf;
    if doc == [] {
      NoLines(|a|);
      WalkEnds(t, section, sub, Some(line), open, [], 0, end);
      SetWalkEnds(a, section, sub, line, open, end);
    } else {
      RestReads(doc);
      ItemLinesStep(doc, |a|);
      var text, rest := ItemText(doc[0]), doc[1..];
      WalkStep(t, ItemLines(doc, |a|), doc[0], section, sub, Some(line), open, [], 0, end);
      if open && doc[0].Pair? && doc[0].sub == sub {
        ReplacedHere(t, a, text, line, DocText(rest), doc);
        SetWalkHere(a, doc, section, sub, line, end);
      } else {
        var open' := if doc[0].Header? then doc[0].section == section else open;
        var a' := a + text + [LF];
        Reassociated(a, text, DocText(rest));
        WalkSets(t, a', rest, section, sub, line, open', if open' && !doc[0].Gap? then |a| + |text| else end);
        SetWalkStep(a, doc, section, sub, line, open, end);
      }
    }
  }

  lemma SetWalkEnds(a: bytes, section: bytes, sub: bytes, line: bytes, open: bool, end: int)
    ensures SetWalk(a, [], section, sub, line, open, end) == Kept([], 0, end)
  {
  }

  lemma SetWalkHere(a: bytes, doc: seq<Item>, section: bytes, sub: bytes, line: bytes, end: int)
    requires doc != [] && doc[0].Pair? && doc[0].sub == sub
    ensures SetWalk(a, doc, section, sub, line, true, end) == Replaced(a + DocText(doc[..0]) + line + [LF] + DocText(doc[1..]))
  {
    hide DocText;
  }

  lemma ReplacedLater(doc: seq<Item>, k: nat, a: bytes, line: bytes)
    requires 0 < k < |doc|
    ensures var rest := doc[1..];
            (a + ItemText(doc[0]) + [LF]) + DocText(rest[..k - 1]) + line + [LF] + DocText(rest[k..])
            == a + DocText(doc[..k]) + line + [LF] + DocText(doc[k + 1..])
  {
    hide ItemText, DocText;
    DocPrefix(doc, k);
    assert doc[k + 1..] == doc[1..][k..];
    Reassociated(a, ItemText(doc[0]), DocText(doc[1..][..k - 1]));
  }

  lemma Reassociated(a: bytes, text: bytes, more: bytes)
    ensures (a + text + [LF]) + more == a + (text + [LF] + more)
  {
  }

  lemma NoLines(off: nat)
    ensures ItemLines([], off) == []
  {
  }

  lemma WalkEnds(t: bytes, section: bytes, sub: bytes, line: Option<bytes>, open: bool, out: bytes, copied: nat, end: int)
    ensures WalkLines(t, [], section, sub, line, open, out, copied, end) == Kept(out, copied, end)
  {
  }

  lemma EndOfFirst(doc: seq<Item>)
    requires doc != []
    ensures EndOf(doc, 0) == |ItemText(doc[0])|
  {
    assert doc[..0] == [];
  }

  lemma ReplacedHere(t: bytes, a: bytes, text: bytes, line: bytes, after: bytes, doc: seq<Item>)
    requires t == a + (text + [LF] + after) && doc != [] && after == DocText(doc[1..])
    ensures [] + Sub(t, 0, |a|) + line + From(t, |a| + |text|) == a + DocText(doc[..0]) + line + [LF] + DocText(doc[1..])
  {
    hide ItemText;
    var tail := [LF] + after;
    Regrouped(a, text, tail);
    assert text + [LF] + after == text + tail;
    assert DocText(doc[..0]) == [];
    assert [] + a + line + tail == a + [] + line + [LF] + after;
  }

  /** The walk when the key is removed: every line of the key goes with its end of line. */
  lemma {:induction false} WalkDrops(t: bytes, a: bytes, doc: seq<Item>, section: bytes, sub: bytes, open: bool,
                                     out: bytes, copied: nat, end: int)
    requires t == a + DocText(doc) && AllRead(doc) && copied <= |a|
    ensures var w := WalkLines(t, ItemLines(doc, |a|), section, sub, None, open, out, copied, end);
            w.Kept? && w.copied <= |t|
            && w.out + From(t, w.copied) == out + a[copied..] + DocText(Dropped(doc, open, section, sub))
    decreases |doc|
  {
    hide WalkLines, ItemText, ItemLines, DocText, ReadsAs, AllRead;
    if doc == [] {
      NoLines(|a|);
      WalkEnds(t, section, sub, None, open, out, copied, end);
      NoText();
      assert t == a && out + a[copied..] + [] == out + a[copied..];
    } else {
      RestReads(doc);
      ItemLinesStep(doc, |a|);
      var text, rest := ItemText(doc[0]), doc[1..];
      WalkStep(t, ItemLines(doc, |a|), doc[0], section, sub, None, open, out, copied, end);
      var a' := a + text + [LF];
      assert t == a' + DocText(rest);
      if open && doc[0].Pair? && doc[0].sub == sub {
        DroppedLine(t, a, text, DocText(rest), copied);
        WalkDrops(t, a', rest, section, sub, open, out + a[copied..], |a'|, end);
        assert a'[|a'|..] == [] && out + a[copied..] + [] == out + a[copied..];
      } else {
        var open' := if doc[0].Header? then doc[0].section == section else open;
        WalkDrops(t, a', rest, section, sub, open', out, copied, if open' && !doc[0].Gap? then |a| + |text| else end);
        DroppedText(doc, open, section, sub);
        KeptText(out, a, copied, text, DocText(Dropped(rest, open', section, sub)));
      }
    }
  }

  lemma DroppedLine(t: bytes, a: bytes, text: bytes, rest: bytes, copied: nat)
    requires t == a + text + [LF] + rest && copied <= |a|
    ensures Sub(t, copied, |a|) == a[copied..] && PastLine(t, |a| + |text|) == |a| + |text| + 1
  {
    assert t[|a| + |text|] == LF;
  }

  lemma NoText()
    ensures DocText([]) == []
  {
  }

  lemma DroppedText(doc: seq<Item>, open: bool, section: bytes, sub: bytes)
    requires doc != [] && !(open && doc[0].Pair? && doc[0].sub == sub)
    ensures DocText(Dropped(doc, open, section, sub))
            == ItemText(doc[0]) + [LF]
               + DocText(Dropped(doc[1..], if doc[0].Header? then doc[0].section == section else open, section, sub))
  {
    hide ItemText;
  }

  lemma KeptText(out: bytes, a: bytes, copied: nat, text: bytes, after: bytes)
    requires copied <= |a|
    ensures out + (a + text + [LF])[copied..] + after == out + a[copied..] + (text + [LF] + after)
  {
  }

  lemma SplitAt(doc: seq<Item>, m: nat)
    requires m < |doc|
    ensures DocText(doc) == DocText(doc[..m]) + (ItemText(doc[m]) + [LF] + DocText(doc[m + 1..]))
    ensures DocText(doc[..m + 1]) == DocText(doc[..m]) + (ItemText(doc[m]) + [LF])
  {
    hide ItemText, DocText;
    assert doc == doc[..m] + doc[m..];
    TextConcat(doc[..m], doc[m..]);
    assert doc[m..][0] == doc[m] && doc[m..][1..] == doc[m + 1..];
    ItemLinesStep(doc[m..], 0);
    assert doc[..m + 1] == doc[..m] + [doc[m]];
    TextConcat(doc[..m], [doc[m]]);
    OneItem(doc[m]);
  }

  lemma OneItem(item: Item)
    ensures DocText([item]) == ItemText(item) + [LF]
  {
    assert DocText([item]) == ItemText(item) + [LF] + DocText([]);
  }

  lemma DocEndsInLf(doc: seq<Item>)
    ensures doc != [] ==> DocText(doc) != [] && DocText(doc)[|DocText(doc)| - 1] == LF
  {
    if doc != [] {
      SplitAt(doc, |doc| - 1);
      assert doc[..|doc|] == doc;
    }
  }

  lemma InsertedText(doc: seq<Item>, m: nat, pair: Item)
    requires m < |doc|
    ensures var t := DocText(doc);
            Sub(t, 0, EndOf(doc, m)) + [LF] + ItemText(pair) + From(t, EndOf(doc, m)) == DocText(doc[..m + 1] + [pair] + doc[m + 1..])
  {
    hide ItemText, DocText, EndOf, From, Sub;
    var before, line, after := DocText(doc[..m]), ItemText(doc[m]), DocText(doc[m + 1..]);
    SplitAt(doc, m);
    InsertedBytes(before, line, after, ItemText(pair));
    InsertedDoc(doc, m, pair);
    EndIs(doc, m);
  }

  lemma EndIs(doc: seq<Item>, m: nat)
    requires m < |doc|
    ensures EndOf(doc, m) == |DocText(doc[..m])| + |ItemText(doc[m])|
  {
  }

  lemma InsertedDoc(doc: seq<Item>, m: nat, pair: Item)
    requires m < |doc|
    ensures DocText(doc[..m + 1] + [pair] + doc[m + 1..])
            == DocText(doc[..m]) + (ItemText(doc[m]) + [LF]) + (ItemText(pair) + [LF]) + DocText(doc[m + 1..])
  {
    hide ItemText, DocText;
    SplitAt(doc, m);
    TextConcat(doc[..m + 1] + [pair], doc[m + 1..]);
    TextConcat(doc[..m + 1], [pair]);
    OneItem(pair);
  }

  lemma InsertedBytes(before: bytes, line: bytes, after: bytes, added: bytes)
    ensures var t, end := before + (line + [LF] + after), |before| + |line|;
            Sub(t, 0, end) + [LF] + added + From(t, end) == before + (line + [LF]) + (added + [LF]) + after
  {
    var t, end := before + (line + [LF] + after), |before| + |line|;
    assert t[..end] == before + line && t[end..] == [LF] + after;
  }

  lemma AppendedText(doc: seq<Item>, section: bytes, pair: Item)
    ensures NewSection(DocText(doc), section, ItemText(pair))
            == DocText(doc + (if doc == [] then [] else [Gap]) + [Header(section), pair])
  {
    hide HeaderText, ItemText, DocText;
    var head := if doc == [] then [] else [Gap];
    DocEndsInLf(doc);
    TextConcat(doc + head, [Header(section), pair]);
    TextConcat(doc, head);
    TailText(section, pair);
    NoText();
    assert DocText(doc) + [] == DocText(doc) && doc + [] == doc;
  }

  lemma TailText(section: bytes, pair: Item)
    ensures DocText([Header(section), pair]) == HeaderText(section) + [LF] + ItemText(pair) + [LF]
    ensures DocText([Gap]) == [LF]
  {
    OneItem(Gap);
    OneItem(pair);
    var tail := [Header(section), pair];
    assert tail[1..] == [pair];
    assert HeaderText(section) + [LF] + (ItemText(pair) + [LF]) == HeaderText(section) + [LF] + ItemText(pair) + [LF];
  }

  lemma ReplacedText(doc: seq<Item>, k: nat, pair: Item)
    requires k < |doc|
    ensures [] + DocText(doc[..k]) + ItemText(pair) + [LF] + DocText(doc[k + 1..]) == DocText(doc[..k] + [pair] + doc[k + 1..])
  {
    hide ItemText, DocText;
    TextConcat(doc[..k] + [pair], doc[k + 1..]);
    TextConcat(doc[..k], [pair]);
    OneItem(pair);
    ReplacedBytes(DocText(doc[..k]), ItemText(pair), DocText(doc[k + 1..]));
  }

  lemma ReplacedBytes(before: bytes, line: bytes, after: bytes)
    ensures [] + before + line + [LF] + after == before + (line + [LF]) + after
  {
  }

  /** On the text of a fitting document the setter edits exactly one place of the document. */
  lemma SetIniIsSetDoc(doc: seq<Item>, key: bytes, value: Option<bytes>)
    requires Fits(doc, [])
    ensures SetIni(DocText(doc), key, value) == DocText(SetDoc(doc, key, value))
  {
    hide AllRead, Fits, LinesFrom, DocText;
    FittingReads(doc, []);
    var t := DocText(doc);
    assert t == [] + t;
    LinesOfDoc(t, [], doc);
    if value.None? { RemovesDoc(doc, key); } else { SetsDoc(doc, key, value.value); }
  }

  lemma RemovesDoc(doc: seq<Item>, key: bytes)
    requires AllRead(doc) && LinesFrom(DocText(doc), 0) == ItemLines(doc, 0)
    ensures SetIni(DocText(doc), key, None) == DocText(SetDoc(doc, key, None))
  {
    hide AllRead, LinesFrom, WalkLines, DocText, Dropped, KeySection, ItemLines;
    var t, section, sub := DocText(doc), KeySection(key), SubKey(key);
    var none: bytes := [];
    assert t == none + t;
    WalkDrops(t, none, doc, section, sub, section == [], [], 0, -1);
    var dropped := DocText(Dropped(doc, section == [], section, sub));
    assert none[0..] == none && none + none + dropped == dropped;
  }

  lemma SetsDoc(doc: seq<Item>, key: bytes, value: bytes)
    requires AllRead(doc) && LinesFrom(DocText(doc), 0) == ItemLines(doc, 0)
    ensures SetIni(DocText(doc), key, Some(value)) == DocText(SetDoc(doc, key, Some(value)))
  {
    hide AllRead, LinesFrom, WalkLines, NewSection, ItemText, DocText, FindPair, LastOf, KeySection, PairText, ItemLines, EndOf, From, Sub;
    var t, section, sub := DocText(doc), KeySection(key), SubKey(key);
    var pair := Pair(sub, value);
    PairItem(sub, value);
    WalkFromStart(t, doc, section, sub, ItemText(pair));
    var k, m := FindPair(doc, section == [], section, sub), LastOf(doc, section == [], section);
    if k >= 0 {
      ReplacedText(doc, k, pair);
    } else if m >= 0 {
      InsertedText(doc, m, pair);
    } else {
      WholeText(t);
      AppendedText(doc, section, pair);
    }
  }

  lemma WalkFromStart(t: bytes, doc: seq<Item>, section: bytes, sub: bytes, line: bytes)
    requires t == DocText(doc) && AllRead(doc)
    ensures var k, m := FindPair(doc, section == [], section, sub), LastOf(doc, section == [], section);
            WalkLines(t, ItemLines(doc, 0), section, sub, Some(line), section == [], [], 0, -1)
            == if k >= 0 then Replaced([] + DocText(doc[..k]) + line + [LF] + DocText(doc[k + 1..]))
               else Kept([], 0, if m >= 0 then EndOf(doc, m) else -1)
  {
    hide AllRead, WalkLines, DocText, FindPair, LastOf, ItemLines, EndOf;
    assert t == [] + t;
    WalkSets(t, [], doc, section, sub, line, section == [], -1);
  }

  lemma WholeText(t: bytes)
    ensures [] + From(t, 0) == t
  {
  }

  lemma PairItem(sub: bytes, value: bytes)
    ensures ItemText(Pair(sub, value)) == PairText(sub, value)
  {
  }

  // ---- What the edit does to the contents ----

  lemma KeyParts(key: bytes)
    ensures KeySection(key) + SubKey(key) == key
    ensures KeySection(KeySection(key) + SubKey(key)) == KeySection(key)
  {
  }

  /** Nothing found means the key is not held. */
  lemma {:induction false} NotFoundIsAbsent(doc: seq<Item>, cur: bytes, section: bytes, sub: bytes)
    requires Fits(doc, cur) && KeySection(section + sub) == section
    requires FindPair(doc, cur == section, section, sub) == -1
    ensures section + sub !in Contents(doc, cur)
  {
    hide GoodSection, GoodSubKey;
    if doc == [] {
    } else {
      NotFoundIsAbsent(doc[1..], if doc[0].Header? then doc[0].section else cur, section, sub);
      if doc[0].Pair? {
        assert (cur + doc[0].sub)[|cur|..] == doc[0].sub && (section + sub)[|section|..] == sub;
      }
    }
  }

  lemma {:induction false} FoundIsInSection(doc: seq<Item>, cur: bytes, section: bytes, sub: bytes)
    ensures var k := FindPair(doc, cur == section, section, sub);
            k >= 0 ==> SectionAfter(doc[..k], cur) == section
  {
    var k := FindPair(doc, cur == section, section, sub);
    if k > 0 {
      FoundIsInSection(doc[1..], if doc[0].Header? then doc[0].section else cur, section, sub);
      assert doc[..k][0] == doc[0] && doc[..k][1..] == doc[1..][..k - 1];
    }
  }

  lemma {:induction false} LastIsInSection(doc: seq<Item>, cur: bytes, section: bytes)
    ensures var m := LastOf(doc, cur == section, section);
            m >= 0 ==> SectionAfter(doc[..m + 1], cur) == section
  {
    var m := LastOf(doc, cur == section, section);
    if m >= 0 {
      var next := if doc[0].Header? then doc[0].section else cur;
      LastIsInSection(doc[1..], next, section);
      assert doc[..m + 1][0] == doc[0] && doc[..m + 1][1..] == doc[1..][..m];
    }
  }

  /** One more line for a key not yet held, placed anywhere in its section, adds exactly that key. */
  lemma InsertAdds(a: seq<Item>, b: seq<Item>, section: bytes, sub: bytes, value: bytes)
    requires Fits(a + b, []) && Unique(a + b, []) && section + sub !in Contents(a + b, [])
    requires SectionAfter(a, []) == section && GoodSubKey(sub) && KeySection(section + sub) == section
    ensures var d := a + [Pair(sub, value)] + b;
            Fits(d, []) && Unique(d, []) && Contents(d, []) == Contents(a + b, [])[section + sub := Text(value)]
  {
    hide Fits, Unique, Contents, SectionAfter, KeySection, GoodSubKey;
    Concat(a, b, []);
    AroundPair(a, b, section, sub, value);
  }

  lemma OnePair(section: bytes, sub: bytes, value: bytes)
    requires GoodSubKey(sub) && KeySection(section + sub) == section
    ensures var p := [Pair(sub, value)];
            Contents(p, section) == map[section + sub := Text(value)] && SectionAfter(p, section) == section
            && Fits(p, section) && Unique(p, section)
  {
    assert [Pair(sub, value)][1..] == [];
  }

  /** A document is what comes before a key line, the line's key, and what comes after. */
  lemma AroundPair(a: seq<Item>, b: seq<Item>, section: bytes, sub: bytes, value: bytes)
    requires SectionAfter(a, []) == section && GoodSubKey(sub) && KeySection(section + sub) == section
    ensures var d := a + [Pair(sub, value)] + b;
            && (Fits(d, []) <==> Fits(a, []) && Fits(b, section))
            && (Unique(d, []) <==>
                  && Unique(a, []) && Unique(b, section) && Contents(a, []).Keys !! Contents(b, section).Keys
                  && section + sub !in Contents(a, []) && section + sub !in Contents(b, section))
            && Contents(d, []) == Contents(a, []) + (map[section + sub := Text(value)] + Contents(b, section))
  {
    hide Fits, Unique, Contents, SectionAfter, KeySection, GoodSubKey;
    var p := [Pair(sub, value)];
    OnePair(section, sub, value);
    Concat(a, p + b, []);
    Concat(p, b, section);
    assert a + p + b == a + (p + b);
  }

  lemma ReplaceSets(a: seq<Item>, old_: Item, b: seq<Item>, section: bytes, sub: bytes, value: bytes)
    requires old_.Pair? && old_.sub == sub && Fits(a + [old_] + b, []) && Unique(a + [old_] + b, [])
    requires SectionAfter(a, []) == section && GoodSubKey(sub) && KeySection(section + sub) == section
    ensures var d := a + [Pair(sub, value)] + b;
            Fits(d, []) && Unique(d, []) && Contents(d, []) == Contents(a + [old_] + b, [])[section + sub := Text(value)]
  {
    hide Fits, Unique, Contents, SectionAfter, KeySection, GoodSubKey;
    assert old_ == Pair(sub, old_.value);
    AroundPair(a, b, section, sub, old_.value);
    AroundPair(a, b, section, sub, value);
  }

  lemma {:induction false} DropRemoves(doc: seq<Item>, cur: bytes, section: bytes, sub: bytes)
    requires Fits(doc, cur) && Unique(doc, cur) && KeySection(section + sub) == section
    ensures var d := Dropped(doc, cur == section, section, sub);
            Fits(d, cur) && Unique(d, cur) && Contents(d, cur) == Contents(doc, cur) - {section + sub}
  {
    hide GoodSection, GoodSubKey;
    if doc == [] {
    } else {
      var next := if doc[0].Header? then doc[0].section else cur;
      DropRemoves(doc[1..], next, section, sub);
      var d := Dropped(doc, cur == section, section, sub);
      if doc[0].Pair? && cur + doc[0].sub == section + sub {
        assert cur == section;
        assert (cur + doc[0].sub)[|cur|..] == doc[0].sub && (section + sub)[|section|..] == sub;
      } else {
        assert d[0] == doc[0] && d[1..] == Dropped(doc[1..], next == section, section, sub);
      }
    }
  }

  lemma AppendAdds(doc: seq<Item>, head: seq<Item>, section: bytes, sub: bytes, value: bytes)
    requires Fits(doc, []) && Unique(doc, []) && section + sub !in Contents(doc, [])
    requires head == [] || head == [Gap]
    requires GoodSection(section) && GoodSubKey(sub) && KeySection(section + sub) == section
    ensures var d := doc + head + [Header(section), Pair(sub, value)];
            Fits(d, []) && Unique(d, []) && Contents(d, []) == Contents(doc, [])[section + sub := Text(value)]
  {
    hide GoodSection, GoodSubKey, KeySection;
    var h := head + [Header(section)];
    var cur := SectionAfter(doc, []);
    Concat(doc, h, []);
    Concat(head, [Header(section)], cur);
    EmptyHead(head, section, cur);
    SectionAfterConcat(doc, h, []);
    SectionAfterConcat(head, [Header(section)], cur);
    assert doc + h + [] == doc + h;
    InsertAdds(doc + h, [], section, sub, value);
    assert doc + h + [Pair(sub, value)] + [] == doc + head + [Header(section), Pair(sub, value)];
  }

  lemma EmptyHead(head: seq<Item>, section: bytes, cur: bytes)
    requires (head == [] || head == [Gap]) && GoodSection(section)
    ensures Fits(head, cur) && Unique(head, cur) && Contents(head, cur) == map[] && SectionAfter(head, cur) == cur
    ensures Fits([Header(section)], cur) && Unique([Header(section)], cur)
    ensures Contents([Header(section)], cur) == map[] && SectionAfter([Header(section)], cur) == section
  {
    assert [Header(section)][1..] == [];
    if head == [Gap] { assert head[1..] == []; }
  }

  lemma {:induction false} SectionAfterConcat(a: seq<Item>, b: seq<Item>, cur: bytes)
    ensures SectionAfter(a + b, cur) == SectionAfter(b, SectionAfter(a, cur))
  {
    if a == [] {
      assert a + b == b;
    } else {
      assert (a + b)[1..] == a[1..] + b;
      SectionAfterConcat(a[1..], b, if a[0].Header? then a[0].section else cur);
    }
  }

  lemma SetDocSets(doc: seq<Item>, key: bytes, value: Option<bytes>)
    requires Fits(doc, []) && Unique(doc, []) && GoodKey(key)
    ensures var d := SetDoc(doc, key, value);
            Fits(d, []) && Unique(d, [])
            && Contents(d, []) == if value.Some? then Contents(doc, [])[key := Text(value.value)] else Contents(doc, []) - {key}
  {
    hide Fits, Unique, Contents, KeySection, GoodSection, GoodSubKey, Dropped, FindPair, LastOf;
    var section, sub := KeySection(key), SubKey(key);
    KeyParts(key);
    if value.None? {
      DropRemoves(doc, [], section, sub);
    } else if FindPair(doc, section == [], section, sub) >= 0 {
      SetDocReplaces(doc, section, sub, value.value);
    } else {
      NotFoundIsAbsent(doc, [], section, sub);
      if LastOf(doc, section == [], section) >= 0 {
        SetDocInserts(doc, section, sub, value.value);
      } else {
        AppendAdds(doc, if doc == [] then [] else [Gap], section, sub, value.value);
      }
    }
  }

  lemma SetDocReplaces(doc: seq<Item>, section: bytes, sub: bytes, value: bytes)
    requires Fits(doc, []) && Unique(doc, []) && GoodSubKey(sub) && KeySection(section + sub) == section
    requires FindPair(doc, section == [], section, sub) >= 0
    ensures var k := FindPair(doc, section == [], section, sub);
            var d := doc[..k] + [Pair(sub, value)] + doc[k + 1..];
            Fits(d, []) && Unique(d, []) && Contents(d, []) == Contents(doc, [])[section + sub := Text(value)]
  {
    hide Fits, Unique, Contents, SectionAfter, KeySection, GoodSubKey, FindPair;
    var k := FindPair(doc, section == [], section, sub);
    FoundIsInSection(doc, [], section, sub);
    assert doc == doc[..k] + [doc[k]] + doc[k + 1..];
    ReplaceSets(doc[..k], doc[k], doc[k + 1..], section, sub, value);
  }

  lemma SetDocInserts(doc: seq<Item>, section: bytes, sub: bytes, value: bytes)
    requires Fits(doc, []) && Unique(doc, []) && GoodSubKey(sub) && KeySection(section + sub) == section
    requires section + sub !in Contents(doc, []) && LastOf(doc, section == [], section) >= 0
    ensures var m := LastOf(doc, section == [], section);
            var d := doc[..m + 1] + [Pair(sub, value)] + doc[m + 1..];
            Fits(d, []) && Unique(d, []) && Contents(d, []) == Contents(doc, [])[section + sub := Text(value)]
  {
    hide Fits, Unique, Contents, SectionAfter, KeySection, GoodSubKey, LastOf;
    var m := LastOf(doc, section == [], section);
    LastIsInSection(doc, [], section);
    assert doc == doc[..m + 1] + doc[m + 1..];
    InsertAdds(doc[..m + 1], doc[m + 1..], section, sub, value);
  }

  // ---- Any run ----

  datatype Call = Call(key: bytes, value: Option<bytes>)

  /** The file after a run of sets and removes from an empty one. */
  function RunText(calls: seq<Call>): bytes
  {
    if calls == [] then []
    else SetIni(RunText(calls[..|calls| - 1]), calls[|calls| - 1].key, calls[|calls| - 1].value)
  }

  /** The map the run stands for. */
  function RunMap(calls: seq<Call>): map<bytes, Stored>
  {
    if calls == [] then map[]
    else
      var m, c := RunMap(calls[..|calls| - 1]), calls[|calls| - 1];
      if c.value.Some? then m[c.key := Text(c.value.value)] else m - {c.key}
  }

  lemma {:induction false} RunIsDoc(calls: seq<Call>) returns (doc: seq<Item>)
    requires forall i :: 0 <= i < |calls| ==> GoodKey(calls[i].key)
    ensures Fits(doc, []) && Unique(doc, []) && RunText(calls) == DocText(doc) && RunMap(calls) == Contents(doc, [])
  {
    hide GoodKey, SetIni, SetDoc;
    if calls == [] {
      doc := [];
    } else {
      var before, c := calls[..|calls| - 1], calls[|calls| - 1];
      forall i | 0 <= i < |before| ensures GoodKey(before[i].key) { assert before[i] == calls[i]; }
      var d := RunIsDoc(before);
      SetIniIsSetDoc(d, c.key, c.value);
      SetDocSets(d, c.key, c.value);
      doc := SetDoc(d, c.key, c.value);
    }
  }

  /**
   * After any run of sets and removes, reading the file gives exactly the
   * last-set value of each key not removed since, whatever the values' bytes.
   */
  lemma RunsLikeAMap(calls: seq<Call>)
    requires forall i :: 0 <= i < |calls| ==> GoodKey(calls[i].key)
    ensures ParseIni(RunText(calls)) == RunMap(calls)
  {
    hide GoodKey, RunText, RunMap;
    var doc := RunIsDoc(calls);
    DocReads(doc);
  }
}
