/**
 * Exactly which keys the INI store gives back (src/base/old_settings.cpp).
 */
module IniKeys {
  import opened Wrappers
  import opened Utf8
  import opened Ascii
  import opened IniEscape
  import opened IniValue
  import opened IniFile
  import opened IniLine
  import opened IniStore

  lemma {:induction false} NoSlashEncoded(cps: seq<int>)
    requires AllScalars(cps) && forall j :: 0 <= j < |cps| ==> cps[j] != 0x2F
    ensures SLASH !in EncodeAll(cps)
  {
    if cps == [] {
    } else {
      NoSlashInCode(cps[0]);
      NoSlashEncoded(cps[1..]);
    }
  }

  lemma NoSlashInCode(cp: int)
    requires IsScalar(cp) && cp != 0x2F
    ensures SLASH !in Encode(cp)
  {
    var e := Encode(cp);
    if cp < 0x80 {
      assert e == [cp];
    } else {
      forall j | 0 <= j < |e| ensures e[j] >= 0x80 { if j > 0 { assert IsContinuation(e[j]); } }
    }
  }

  lemma {:induction false} NoSlashDecoded(k: bytes, i: nat)
    requires i <= |k| && forall j :: i <= j < |k| ==> k[j] != SLASH
    ensures forall j :: 0 <= j < |DecodeFrom(k, i)| ==> Narrowed(DecodeFrom(k, i))[j] != 0x2F
    decreases |k| - i
  {
    if i < |k| {
      NoSlashDecoded(k, Next(k, i));
      DecodedIsNoSlash(k, i);
      var d := DecodeFrom(k, i);
      assert d[1..] == DecodeFrom(k, Next(k, i));
      assert Narrowed(d) == [Narrow(d[0])] + Narrowed(d[1..]);
    }
  }

  lemma DecodedIsNoSlash(k: bytes, i: nat)
    requires i < |k| && k[i] != SLASH
    ensures Decode(k, i).0 != 0x2F
  {
    if MultiByteAt(k, i) { assert LeastOfLength(LeadLength(k[i])) >= 0x80; }
  }

  /** A name without a slash reads back as a name without a slash. */
  lemma ReadNameHasNoSlash(name: bytes)
    requires SLASH !in name
    ensures SLASH !in UnescapeKey(EscapeKey(name))
  {
    KeyRoundTrip(name);
    NoSlashDecoded(name, 0);
    NoSlashEncoded(Narrowed(DecodeAll(name)));
  }

  lemma FirstSlash(name: bytes, rest: bytes)
    requires SLASH !in name
    ensures KeySection(name + [SLASH] + rest) == name + [SLASH]
  {
    var key := name + [SLASH] + rest;
    assert key[|name|] == SLASH;
    forall j | 0 <= j < |name| ensures key[j] != SLASH { assert key[j] == name[j]; }
    assert IndexOf(key, SLASH, 0) == |name|;
    assert key[..|name| + 1] == name + [SLASH];
  }

  lemma SectionHasOneSlash(key: bytes)
    ensures var s := KeySection(key); s != [] ==> s[|s| - 1] == SLASH && SLASH !in s[..|s| - 1]
  {
  }

  /** The name a section's header reads as: its own, or General's. */
  function ReadName(name: bytes): bytes
  {
    if Lower(EscapeKey(name)) == GENERAL then GENERAL_NAME else UnescapeKey(EscapeKey(name))
  }

  lemma ReadNameIsItself(name: bytes)
    ensures ReadName(name) == name <==> Storable(name) && (Lower(name) == GENERAL ==> name == GENERAL_NAME)
  {
    KeyRoundTrip(name);
    if Storable(name) { GeneralIsWrittenPlain(name); }
    if name == GENERAL_NAME { GeneralIsItself(); }
  }

  lemma GeneralIsItself()
    ensures EscapeKey(GENERAL_NAME) == UnescapeKey(GENERAL_NAME) == GENERAL_NAME
  {
    hide EscapeKeyFrom, UnescapeKey;
    var name := GENERAL_NAME;
    PlainKeyIsItself(name, 0);
    assert name[0..] == name;
    NoEscapesReadAsTheyAre(name);
  }

  /** The file after the first set of a key, and what reading it gives. */
  lemma FirstSetReads(key: bytes, value: bytes)
    ensures var prefix, sub := HeaderPrefix(KeySection(key)), SubKey(key);
            ParseIni(SetIni([], key, Some(value)))
            == if TrailingSlashes(sub, 0) % 2 == 0 then map[prefix + UnescapeKey(EscapeKey(sub)) := Text(value)] else map[]
  {
    hide HeaderText, PairText, HeaderPrefix, Clean, SectionOf, KeyValue, EscapeKey, UnescapeKey, UnescapeValue, LinesFrom, KeySection;
    var section, sub := KeySection(key), SubKey(key);
    var header, pair := HeaderText(section), PairText(sub, value);
    HeaderReads(section);
    PairReads(sub, value);
    ValueRoundTrip(value);
    LinesEnd([]);
    var t := SetIni([], key, Some(value));
    assert t == header + [LF] + pair + [LF];
    HeaderStarts(section);
    assert t[0] == header[0];
    TwoLines(t, header, pair);
    ParseTwo(Line(0, |header|, header), Line(|header| + 1, |header| + 1 + |pair|, pair), HeaderPrefix(section));
  }

  lemma ParseTwo(a: Line, b: Line, prefix: bytes)
    requires SectionOf(a.text) == Some(prefix) && SectionOf(b.text) == None
    ensures var kv := KeyValue(b.text);
            ParseLines([a, b], [], map[])
            == if kv.None? then map[] else map[prefix + UnescapeKey(kv.value.0) := UnescapeValue(kv.value.1)]
  {
    hide SectionOf, KeyValue, UnescapeKey, UnescapeValue;
    assert [a, b][1..] == [b] && [b][1..] == [];
    assert ParseLines([a, b], [], map[]) == ParseLines([b], prefix, map[]);
    var kv := KeyValue(b.text);
    if kv.Some? {
      var one: map<bytes, Stored> := map[prefix + UnescapeKey(kv.value.0) := UnescapeValue(kv.value.1)];
      assert ParseLines([b], prefix, map[]) == ParseLines([], prefix, one);
    } else {
      assert ParseLines([b], prefix, map[]) == ParseLines([], prefix, map[]);
    }
  }

  lemma HeaderStarts(section: bytes)
    ensures HeaderText(section) != [] && HeaderText(section)[0] == LBRACKET
  {
  }

  lemma TwoLines(t: bytes, a: bytes, b: bytes)
    requires t == a + [LF] + b + [LF] && Clean(a) && Clean(b)
    ensures LinesFrom(t, 0) == [Line(0, |a|, a), Line(|a| + 1, |a| + 1 + |b|, b)]
  {
    hide LinesFrom, Clean, Trim, EolFrom, AfterEol;
    var none: bytes := [];
    assert t == none + (a + [LF] + (b + [LF]));
    LineEnd(t, none, a, b + [LF]);
    CleanIsTrimmed(a);
    LineAt(t, 0, |a|, a);
    assert t == (a + [LF]) + (b + [LF] + none);
    LineEnd(t, a + [LF], b, none);
    CleanIsTrimmed(b);
    LineAt(t, |a| + 1, |a| + 1 + |b|, b);
    LinesEnd(t);
  }

  /**
   * A key set in an empty store is read back exactly when it is good: its
   * section and the rest are valid text within U+FFFF, the section is not
   * General in another case, and the rest does not end in an odd run of slashes.
   */
  lemma FirstSetReadsBack(key: bytes, value: bytes)
    ensures ParseIni(SetIni([], key, Some(value))) == map[key := Text(value)] <==> GoodKey(key)
  {
    hide ParseIni, SetIni, EscapeKey, UnescapeKey, Storable, KeySection, Lower, TrailingSlashes;
    var section, sub := KeySection(key), SubKey(key);
    var read := UnescapeKey(EscapeKey(sub));
    FirstSetReads(key, value);
    KeyParts(key);
    KeyRoundTrip(sub);
    SectionHasOneSlash(key);
    var prefix := HeaderPrefix(section);
    var found := map[prefix + read := Text(value)];
    assert prefix + read in found && key in map[key := Text(value)];
    if section == [] {
      assert prefix + read == read && section + sub == sub;
    } else {
      var name := section[..|section| - 1];
      assert section == name + [SLASH] && prefix == ReadName(name) + [SLASH];
      ReadNameIsItself(name);
      assert key == name + [SLASH] + sub;
      NamedReads(name, sub, read);
    }
  }

  /** A key in a section reads as itself exactly when both parts do. */
  lemma NamedReads(name: bytes, sub: bytes, read: bytes)
    requires SLASH !in name
    ensures ReadName(name) + [SLASH] + read == name + [SLASH] + sub <==> ReadName(name) == name && read == sub
  {
    ReadNameHasNoSlash(name);
    assert SLASH !in ReadName(name);
    hide ReadName, KeySection;
    FirstSlash(ReadName(name), read);
    FirstSlash(name, sub);
    if ReadName(name) + [SLASH] + read == name + [SLASH] + sub {
      assert |ReadName(name)| == |name|;
      SameSection(ReadName(name), name, read, sub);
    }
  }

  lemma SameSection(a: bytes, b: bytes, x: bytes, y: bytes)
    requires |a| == |b|
    requires a + [SLASH] + x == b + [SLASH] + y
    ensures a == b && x == y
  {
    assert a == (a + [SLASH] + x)[..|a|] && b == (b + [SLASH] + y)[..|b|];
    assert x == (a + [SLASH] + x)[|a| + 1..] && y == (b + [SLASH] + y)[|b| + 1..];
  }

  /** Keys that are lost: "a/b/", and "general/x", whose section comes back as General's. */
  lemma LostKeys(value: bytes)
    ensures var k := [0x61, SLASH, 0x62, SLASH]; ParseIni(SetIni([], k, Some(value))) != map[k := Text(value)]
    ensures var k := GENERAL + [SLASH, 0x78]; ParseIni(SetIni([], k, Some(value))) != map[k := Text(value)]
  {
    hide ParseIni, SetIni, Storable;
    var a, g := [0x61, SLASH, 0x62, SLASH], GENERAL + [SLASH, 0x78];
    assert KeySection(a) == a[..2] by { assert IndexOf(a, SLASH, 1) == 1; }
    assert SubKey(a) == [0x62, SLASH];
    assert TrailingSlashes([0x62, SLASH], 2) == 0 && TrailingSlashes([0x62, SLASH], 1) == 1;
    assert !GoodKey(a);
    GeneralEndsAtSlash(g, 0);
    assert KeySection(g) == g[..8] && g[..8][..7] == GENERAL;
    assert Lower(GENERAL) == GENERAL != GENERAL_NAME;
    assert !GoodKey(g);
    FirstSetReadsBack(a, value);
    FirstSetReadsBack(g, value);
  }

  lemma {:induction false} GeneralEndsAtSlash(g: bytes, i: nat)
    requires g == GENERAL + [SLASH, 0x78] && i <= 7
    ensures IndexOf(g, SLASH, i) == 7
    decreases 7 - i
  {
    assert forall k :: 0 <= k < 7 ==> GENERAL[k] != SLASH;
    if i < 7 {
      assert g[i] == GENERAL[i];
      GeneralEndsAtSlash(g, i + 1);
    } else {
      assert g[7] == SLASH;
    }
  }
}
