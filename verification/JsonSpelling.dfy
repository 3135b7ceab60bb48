/**
 * The spellings RFC 8259 allows for a value: escapes in either form, hex digits
 * in either case, UTF-16 halves, numbers with fractions and exponents, white
 * space between all tokens. The parser of json.cpp reads exactly these.
 */
module JsonSpelling {
  import opened Utf8
  import opened Ascii
  import opened JsonGrammar

  // ---- Strings (section 7) ----

  /** Four hex digits for a 16-bit unit, the highest first. */
  predicate SpellsUnit(hex: bytes, v: nat)
  {
    && |hex| == 4 && v < 0x10000
    && SpellsDigit(hex[0], v / 0x1000) && SpellsDigit(hex[1], v / 0x100 % 0x10)
    && SpellsDigit(hex[2], v / 0x10 % 0x10) && SpellsDigit(hex[3], v % 0x10)
  }

  lemma FourDigits(a: nat, b: nat, c: nat, d: nat, v: nat)
    requires a < 16 && b < 16 && c < 16 && d < 16
    ensures ((a * 16 + b) * 16 + c) * 16 + d == v
            <==> v < 0x10000 && a == v / 0x1000 && b == v / 0x100 % 0x10 && c == v / 0x10 % 0x10 && d == v % 0x10
  {
    var s1 := a * 16 + b;
    var s2 := s1 * 16 + c;
    NextDigit(a, b);
    NextDigit(s1, c);
    NextDigit(s2, d);
    Shifted(v);
    if v < 0x10000 && a == v / 0x1000 && b == v / 0x100 % 0x10 && c == v / 0x10 % 0x10 && d == v % 0x10 {
      assert s1 == v / 0x100;
      assert s2 == v / 0x10;
    }
  }

  lemma NextDigit(x: nat, y: nat)
    requires y < 16
    ensures (x * 16 + y) / 16 == x && (x * 16 + y) % 16 == y
  {
  }

  lemma Shifted(v: nat)
    ensures v / 0x10 / 0x10 == v / 0x100 && v / 0x100 / 0x10 == v / 0x1000
    ensures v / 0x1000 * 16 + v / 0x100 % 16 == v / 0x100 && v / 0x100 * 16 + v / 0x10 % 16 == v / 0x10 && v / 0x10 * 16 + v % 16 == v
  {
  }

  /** Reading four hex digits gives the unit they spell, whatever follows. */
  lemma UnitReads(hex: bytes, v: nat, t: bytes)
    requires |hex| == 4
    ensures Hex4(hex + t) == Done(v, t) <==> SpellsUnit(hex, v)
  {
    var u := hex + t;
    assert u[4..] == t && u[0] == hex[0] && u[1] == hex[1] && u[2] == hex[2] && u[3] == hex[3];
    var a, b, c, d := HexDigit(hex[0]), HexDigit(hex[1]), HexDigit(hex[2]), HexDigit(hex[3]);
    DigitIs(hex[0], v / 0x1000);
    DigitIs(hex[1], v / 0x100 % 0x10);
    DigitIs(hex[2], v / 0x10 % 0x10);
    DigitIs(hex[3], v % 0x10);
    hide SpellsDigit, HexDigit;
    if a >= 0 && b >= 0 && c >= 0 && d >= 0 { FourDigits(a, b, c, d, v); }
  }

  predicate Half(v: nat) { 0xD800 <= v <= 0xDFFF }

  /** The first and the second half of a code point past U+FFFF in UTF-16. */
  function FirstHalf(cp: nat): nat requires cp >= 0x10000 { 0xD800 + (cp - 0x10000) / 0x400 }
  function SecondHalf(cp: nat): nat requires cp >= 0x10000 { 0xDC00 + (cp - 0x10000) % 0x400 }

  /** What a string is spelled with; `Lone` is half of a pair without its other half. */
  datatype Piece =
    | Plain(c: byte)
    | Short(e: byte, c: byte)
    | Unit(cp: nat, hex: bytes)
    | Pair(cp: nat, first: bytes, second: bytes)
    | Lone(half: nat, hex: bytes)

  /** The two-character escapes and what they stand for. */
  const SHORT: set<(byte, byte)> :=
    {(QUOTE, QUOTE), (BACKSLASH, BACKSLASH), (SLASH, SLASH), (0x62, 0x08), (0x66, 0x0C), (0x6E, LF), (0x72, CR), (0x74, TAB)}

  predicate Good(p: Piece)
  {
    match p
    case Plain(c) => c >= 0x20 && c != QUOTE && c != BACKSLASH
    case Short(e, c) => (e, c) in SHORT
    case Unit(cp, hex) => SpellsUnit(hex, cp) && !Half(cp)
    case Pair(cp, first, second) => 0x10000 <= cp <= 0x10FFFF && SpellsUnit(first, FirstHalf(cp)) && SpellsUnit(second, SecondHalf(cp))
    case Lone(half, hex) => SpellsUnit(hex, half) && Half(half)
  }

  function Spelling(p: Piece): bytes
  {
    match p
    case Plain(c) => [c]
    case Short(e, _) => [BACKSLASH, e]
    case Unit(_, hex) => [BACKSLASH, 0x75] + hex
    case Pair(_, first, second) => [BACKSLASH, 0x75] + first + ([BACKSLASH, 0x75] + second)
    case Lone(_, hex) => [BACKSLASH, 0x75] + hex
  }

  function Meaning(p: Piece): bytes
    requires Good(p)
  {
    match p
    case Plain(c) => [c]
    case Short(_, c) => [c]
    case Unit(cp, _) => Encode(cp)
    case Pair(cp, _, _) => Encode(cp)
    case Lone(_, _) => Encode(REPLACEMENT)
  }

  /** Two halves that belong together are a pair, not two pieces. */
  predicate Meet(a: Piece, b: Piece) { a.Lone? && b.Lone? && a.half < 0xDC00 <= b.half }

  predicate GoodText(ps: seq<Piece>)
  {
    && (forall i :: 0 <= i < |ps| ==> Good(ps[i]))
    && forall i :: 0 <= i < |ps| - 1 ==> !Meet(ps[i], ps[i + 1])
  }

  function TextOf(ps: seq<Piece>): bytes { if ps == [] then [] else Spelling(ps[0]) + TextOf(ps[1..]) }

  function MeaningOf(ps: seq<Piece>): bytes
    requires GoodText(ps)
  {
    if ps == [] then [] else Meaning(ps[0]) + MeaningOf(ps[1..])
  }

  lemma EscapedUnit(hex: bytes, t: bytes)
    requires |hex| == 4
    ensures var u := [BACKSLASH, 0x75] + hex + t; u[0] == BACKSLASH && u[1..][0] == 0x75 && u[1..][1..] == u[2..] == hex + t
  {
  }

  /** A single escape: its unit, or U+FFFD for a half that is not followed by its other. */
  lemma SingleReads(hex: bytes, v: nat, t: bytes)
    requires SpellsUnit(hex, v)
    requires 0xD800 <= v <= 0xDBFF ==> !SecondHalfFollows(t)
    ensures UnicodeEscape(hex + t) == if Half(v) then (if BadHexFollows(v, t) then Fail else Done(REPLACEMENT, t)) else Done(v, t)
  {
    hide Hex4, SpellsUnit;
    UnitSize(hex, v);
    UnitReads(hex, v, t);
  }

  /** What comes next is the escape of a second half. */
  predicate SecondHalfFollows(t: bytes)
  {
    |t| >= 6 && t[0] == BACKSLASH && t[1] == 0x75 && Hex4(t[2..]).Done? && 0xDC00 <= Hex4(t[2..]).value <= 0xDFFF
  }

  /** What comes next after a first half is a unicode escape with a bad digit, which is refused at once. */
  predicate BadHexFollows(v: nat, t: bytes)
  {
    0xD800 <= v <= 0xDBFF && |t| >= 6 && t[0] == BACKSLASH && t[1] == 0x75 && Hex4(t[2..]).Fail?
  }

  lemma Halves(cp: nat)
    requires 0x10000 <= cp <= 0x10FFFF
    ensures 0xD800 <= FirstHalf(cp) <= 0xDBFF && 0xDC00 <= SecondHalf(cp) <= 0xDFFF
    ensures cp == 0x10000 + (FirstHalf(cp) - 0xD800) * 0x400 + (SecondHalf(cp) - 0xDC00)
  {
  }

  /** The two escapes of a code point past U+FFFF give that code point. */
  lemma PairReads(cp: nat, first: bytes, second: bytes, t: bytes)
    requires 0x10000 <= cp <= 0x10FFFF && SpellsUnit(first, FirstHalf(cp)) && SpellsUnit(second, SecondHalf(cp))
    ensures UnicodeEscape(first + ([BACKSLASH, 0x75] + second + t)) == Done(cp, t)
  {
    hide Hex4, SpellsUnit;
    Halves(cp);
    var u := [BACKSLASH, 0x75] + second + t;
    UnitSize(first, FirstHalf(cp));
    UnitSize(second, SecondHalf(cp));
    UnitReads(first, FirstHalf(cp), u);
    UnitReads(second, SecondHalf(cp), t);
    EscapedUnit(second, t);
  }

  lemma UnitSize(hex: bytes, v: nat)
    requires SpellsUnit(hex, v)
    ensures |hex| == 4
  {
  }

  lemma ShortReads(e: byte, c: byte)
    ensures (e, c) in SHORT <==> SimpleEscape(e) == c
  {
  }

  /** How unescaping goes on after a backslash. */
  lemma AfterBackslash(u: bytes, v: bytes, rest: bytes)
    requires u != [] && u[0] == BACKSLASH && Escape(u[1..]) == Done(v, rest)
    ensures Unescape(u) == Before(v, Unescape(rest))
  {
    hide Escape;
  }

  lemma UnicodeIs(u: bytes, cp: nat, rest: bytes)
    requires u != [] && u[0] == 0x75 && UnicodeEscape(u[1..]) == Done(cp, rest)
    ensures Escape(u) == Done(Encode(cp), rest)
  {
    hide UnicodeEscape;
  }

  /** One piece is read as what it means, unless it is half of a pair that goes on. */
  lemma PieceReads(p: Piece, t: bytes)
    requires Good(p) && (p.Lone? && p.half < 0xDC00 ==> !SecondHalfFollows(t) && !BadHexFollows(p.half, t))
    ensures Unescape(Spelling(p) + t) == Before(Meaning(p), Unescape(t))
  {
    hide UnicodeEscape, Encode, SpellsUnit, SecondHalfFollows, BadHexFollows;
    var u := Spelling(p) + t;
    match p {
      case Plain(c) => assert u[1..] == t;
      case Short(e, c) =>
        ShortReads(e, c);
        assert u[1..][0] == e && u[1..][1..] == t;
        AfterBackslash(u, [c], t);
      case Unit(cp, hex) => UnitPiece(cp, hex, t);
      case Lone(half, hex) => UnitPiece(half, hex, t);
      case Pair(cp, first, second) =>
        assert u == [BACKSLASH, 0x75] + first + ([BACKSLASH, 0x75] + second + t);
        PairPiece(cp, first, second, t);
    }
  }

  lemma PairPiece(cp: nat, first: bytes, second: bytes, t: bytes)
    requires 0x10000 <= cp <= 0x10FFFF && SpellsUnit(first, FirstHalf(cp)) && SpellsUnit(second, SecondHalf(cp))
    ensures Unescape([BACKSLASH, 0x75] + first + ([BACKSLASH, 0x75] + second + t)) == Before(Encode(cp), Unescape(t))
  {
    hide UnicodeEscape, Encode, Unescape, Escape, SpellsUnit;
    var next := [BACKSLASH, 0x75] + second + t;
    var u := [BACKSLASH, 0x75] + first + next;
    UnitSize(first, FirstHalf(cp));
    PairReads(cp, first, second, t);
    EscapedUnit(first, next);
    UnicodeIs(u[1..], cp, t);
    AfterBackslash(u, Encode(cp), t);
  }

  lemma UnitPiece(v: nat, hex: bytes, t: bytes)
    requires SpellsUnit(hex, v)
    requires 0xD800 <= v <= 0xDBFF ==> !SecondHalfFollows(t) && !BadHexFollows(v, t)
    ensures Unescape([BACKSLASH, 0x75] + hex + t) == Before(Encode(if Half(v) then REPLACEMENT else v), Unescape(t))
  {
    hide UnicodeEscape, Encode, Unescape, Escape, SpellsUnit, SecondHalfFollows;
    var u, cp := [BACKSLASH, 0x75] + hex + t, if Half(v) then REPLACEMENT else v;
    UnitSize(hex, v);
    SingleReads(hex, v, t);
    EscapedUnit(hex, t);
    UnicodeIs(u[1..], cp, t);
    AfterBackslash(u, Encode(cp), t);
  }

  /** What follows a first half in a good text is no second half. */
  lemma NextIsNoHalf(ps: seq<Piece>, t: bytes, half: nat, hex: bytes)
    requires GoodText([Lone(half, hex)] + ps) && half < 0xDC00
    ensures var u := TextOf(ps) + [QUOTE] + t; !SecondHalfFollows(u) && !BadHexFollows(half, u)
  {
    var u := TextOf(ps) + [QUOTE] + t;
    if ps == [] {
      assert u[0] == QUOTE;
    } else {
      var q, all := ps[0], [Lone(half, hex)] + ps;
      assert all[1] == q && Good(q) && !Meet(all[0], all[1]);
      var rest := TextOf(ps[1..]) + [QUOTE] + t;
      assert u == Spelling(q) + rest;
      StartsNoHalf(q, rest, half);
    }
  }

  lemma StartsNoHalf(q: Piece, rest: bytes, half: nat)
    requires Good(q) && !(q.Lone? && q.half >= 0xDC00)
    ensures var u := Spelling(q) + rest; !SecondHalfFollows(u) && !BadHexFollows(half, u)
  {
    hide Hex4, SpellsUnit, SecondHalfFollows, BadHexFollows;
    match q {
      case Plain(c) => NoUnicodeEscape(half, Spelling(q) + rest);
      case Short(e, c) => NoUnicodeEscape(half, Spelling(q) + rest);
      case Unit(cp, h) => UnitIsNoHalf(cp, h, rest, half);
      case Lone(v, h) => UnitIsNoHalf(v, h, rest, half);
      case Pair(cp, first, second) =>
        var next := [BACKSLASH, 0x75] + second + rest;
        Halves(cp);
        UnitIsNoHalf(FirstHalf(cp), first, next, half);
        PairText([BACKSLASH, 0x75] + first, [BACKSLASH, 0x75] + second, rest);
    }
  }

  lemma PairText(a: bytes, b: bytes, c: bytes)
    ensures a + b + c == a + (b + c)
  {
  }

  lemma NoUnicodeEscape(half: nat, u: bytes)
    requires u != [] && (u[0] != BACKSLASH || (|u| > 1 && u[1] != 0x75))
    ensures !SecondHalfFollows(u) && !BadHexFollows(half, u)
  {
  }

  lemma UnitIsNoHalf(v: nat, hex: bytes, rest: bytes, half: nat)
    requires SpellsUnit(hex, v) && !(0xDC00 <= v <= 0xDFFF)
    ensures var u := [BACKSLASH, 0x75] + hex + rest; !SecondHalfFollows(u) && !BadHexFollows(half, u)
  {
    hide Hex4, SpellsUnit;
    UnitSize(hex, v);
    EscapedUnit(hex, rest);
    UnitReads(hex, v, rest);
  }

  lemma TailIsGood(ps: seq<Piece>)
    requires GoodText(ps) && ps != []
    ensures Good(ps[0]) && GoodText(ps[1..])
  {
    var rest := ps[1..];
    forall i | 0 <= i < |rest| - 1 ensures !Meet(rest[i], rest[i + 1]) { assert !Meet(ps[i + 1], ps[i + 2]); }
  }

  /** A string in any spelling is read as what it means. */
  lemma {:induction false} StringReads(ps: seq<Piece>, t: bytes)
    requires GoodText(ps)
    ensures Unescape(TextOf(ps) + [QUOTE] + t) == Done(MeaningOf(ps), t)
  {
    hide Good, Meaning, Spelling, Meet, SecondHalfFollows, BadHexFollows;
    if ps == [] {
      assert TextOf(ps) + [QUOTE] + t == [QUOTE] + t;
    } else {
      hide Unescape;
      TailIsGood(ps);
      var rest := TextOf(ps[1..]) + [QUOTE] + t;
      assert TextOf(ps) + [QUOTE] + t == Spelling(ps[0]) + rest;
      if ps[0].Lone? && ps[0].half < 0xDC00 {
        assert ps == [ps[0]] + ps[1..];
        NextIsNoHalf(ps[1..], t, ps[0].half, ps[0].hex);
      }
      PieceReads(ps[0], rest);
      StringReads(ps[1..], t);
    }
  }

  lemma UnitSpelled(t: bytes)
    requires Hex4(t).Done?
    ensures |t| >= 4 && SpellsUnit(t[..4], Hex4(t).value) && t == t[..4] + Hex4(t).rest
  {
    hide SpellsUnit;
    assert t == t[..4] + t[4..];
    UnitReads(t[..4], Hex4(t).value, t[4..]);
  }

  lemma PairIs(hi: nat, lo: nat)
    requires 0xD800 <= hi <= 0xDBFF && 0xDC00 <= lo <= 0xDFFF
    ensures var cp := 0x10000 + (hi - 0xD800) * 0x400 + (lo - 0xDC00);
            0x10000 <= cp <= 0x10FFFF && FirstHalf(cp) == hi && SecondHalf(cp) == lo
  {
    var k, m := hi - 0xD800, lo - 0xDC00;
    assert (k * 0x400 + m) / 0x400 == k && (k * 0x400 + m) % 0x400 == m;
  }

  /** A unicode escape that is accepted, the text after `\u` given. */
  lemma UnicodeSpelled(t: bytes) returns (p: Piece)
    requires UnicodeEscape(t).Done?
    ensures Good(p) && !p.Plain? && !p.Short? && [BACKSLASH, 0x75] + t == Spelling(p) + UnicodeEscape(t).rest
    ensures Meaning(p) == Encode(UnicodeEscape(t).value)
    ensures p.Lone? && p.half < 0xDC00 ==> !SecondHalfFollows(UnicodeEscape(t).rest)
  {
    hide Hex4, SpellsUnit, Encode;
    UnitSpelled(t);
    var v, next := Hex4(t).value, Hex4(t).rest;
    var hex := t[..4];
    assert [BACKSLASH, 0x75] + t == [BACKSLASH, 0x75] + hex + next;
    if SecondHalfFollows(next) && v <= 0xDBFF && 0xD800 <= v {
      var lo, rest := Hex4(next[2..]).value, Hex4(next[2..]).rest;
      UnitSpelled(next[2..]);
      PairIs(v, lo);
      p := Pair(0x10000 + (v - 0xD800) * 0x400 + (lo - 0xDC00), hex, next[2..][..4]);
      assert next == [BACKSLASH, 0x75] + next[2..];
      Regrouped([BACKSLASH, 0x75] + hex, [BACKSLASH, 0x75], next[2..][..4], rest);
    } else {
      p := if Half(v) then Lone(v, hex) else Unit(v, hex);
    }
  }

  lemma Regrouped(a: bytes, b: bytes, c: bytes, d: bytes)
    ensures a + (b + (c + d)) == a + (b + c) + d
  {
  }

  /** The first piece of a string that is accepted. */
  lemma PieceSpelled(t: bytes) returns (p: Piece, rest: bytes)
    requires Unescape(t).Done? && t[0] != QUOTE
    ensures Good(p) && t == Spelling(p) + rest && |rest| < |t|
    ensures Unescape(t) == Before(Meaning(p), Unescape(rest))
    ensures p.Lone? && p.half < 0xDC00 ==> !SecondHalfFollows(rest)
    ensures p.Lone? ==> |t| >= 6 && t[0] == BACKSLASH && t[1] == 0x75 && Hex4(t[2..]).Done? && Hex4(t[2..]).value == p.half
  {
    hide UnicodeEscape, Encode, SpellsUnit, SecondHalfFollows;
    if t[0] != BACKSLASH {
      p, rest := Plain(t[0]), t[1..];
    } else if SimpleEscape(t[1]) >= 0 {
      p, rest := Short(t[1], SimpleEscape(t[1])), t[2..];
      ShortReads(t[1], SimpleEscape(t[1]));
      assert t[1..][1..] == t[2..];
    } else {
      assert t[1..][1..] == t[2..];
      p := UnicodeSpelled(t[2..]);
      rest := UnicodeEscape(t[2..]).rest;
      assert t == [BACKSLASH, 0x75] + t[2..];
      if p.Lone? {
        UnitSize(p.hex, p.half);
        EscapedUnit(p.hex, rest);
        UnitReads(p.hex, p.half, rest);
      }
    }
  }

  lemma PushedIsGood(p: Piece, ps: seq<Piece>)
    requires Good(p) && GoodText(ps) && (ps != [] ==> !Meet(p, ps[0]))
    ensures GoodText([p] + ps) && MeaningOf([p] + ps) == Meaning(p) + MeaningOf(ps) && TextOf([p] + ps) == Spelling(p) + TextOf(ps)
  {
    hide Good, Meaning, Spelling;
    var all := [p] + ps;
    assert all[1..] == ps;
    forall i | 0 <= i < |all| - 1 ensures !Meet(all[i], all[i + 1]) { assert i > 0 ==> all[i] == ps[i - 1]; }
  }

  lemma InFront(a: bytes, b: bytes, c: bytes, d: bytes)
    ensures a + (b + c + d) == a + b + c + d
  {
  }

  lemma LoneIsHalf(p: Piece)
    requires Good(p) && p.Lone?
    ensures Half(p.half)
  {
  }

  /** Every string that is accepted is a spelling of what it is read as. */
  lemma {:induction false} StringSpelled(t: bytes) returns (ps: seq<Piece>)
    requires Unescape(t).Done?
    ensures GoodText(ps) && Unescape(t).value == MeaningOf(ps) && t == TextOf(ps) + [QUOTE] + Unescape(t).rest
    ensures ps != [] && ps[0].Lone? ==>
      |t| >= 6 && t[0] == BACKSLASH && t[1] == 0x75 && Hex4(t[2..]).Done? && Hex4(t[2..]).value == ps[0].half
    decreases |t|
  {
    hide Good, Meaning, Spelling, Hex4;
    if t[0] == QUOTE {
      ps := [];
      assert t == [] + [QUOTE] + t[1..];
    } else {
      var p, rest := PieceSpelled(t);
      var more := StringSpelled(rest);
      ps := [p] + more;
      if more != [] && more[0].Lone? { LoneIsHalf(more[0]); }
      PushedIsGood(p, more);
      hide Unescape, TextOf, MeaningOf, GoodText, Meet;
      InFront(Spelling(p), TextOf(more), [QUOTE], Unescape(rest).rest);
    }
  }
}
