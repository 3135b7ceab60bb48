/**
 * Whole documents in any spelling RFC 8259 allows: what the parser of json.cpp
 * accepts is exactly these, nested no deeper than it goes, each read as what it
 * means.
 */
module JsonTexts {
  import opened Utf8
  import opened Ascii
  import opened JsonGrammar
  import opened JsonSpelling

  // ---- Numbers (section 6) ----

  /** `frac` is without its dot, empty when there is none; `exp` is with its letter. */
  datatype Num = Num(minus: bool, whole: bytes, frac: bytes, exp: bytes)

  predicate Digits(d: bytes) { d != [] && forall i :: 0 <= i < |d| ==> 0x30 <= d[i] <= 0x39 }

  predicate GoodExp(e: bytes)
  {
    |e| > 1 && e[0] in {0x65, 0x45} && (Digits(e[1..]) || (e[1] in {PLUS, MINUS} && Digits(e[2..])))
  }

  predicate GoodNum(n: Num)
  {
    && Digits(n.whole) && (n.whole[0] == ZERO ==> |n.whole| == 1)
    && (n.frac == [] || Digits(n.frac)) && (n.exp == [] || GoodExp(n.exp))
  }

  function FracText(n: Num): bytes { if n.frac == [] then [] else [DOT] + n.frac }

  function NumText(n: Num): bytes { (if n.minus then [MINUS] else []) + n.whole + FracText(n) + n.exp }

  function NumMeaning(n: Num): Value
  {
    var v := if n.minus then -DigitsValue(n.whole) else DigitsValue(n.whole);
    if n.frac == [] && n.exp == [] && InInt64(v) then Int(v) else Double(NumText(n))
  }

  /** What may stand after a value. */
  predicate Follows(t: bytes) { t == [] || t[0] in {SPACE, LF, CR, TAB, COMMA, RBRACE, RBRACKET} }

  predicate NoDigit(t: bytes) { t == [] || !IsDigit(t[0]) }

  lemma {:induction false} DigitsSkipped(d: bytes, t: bytes)
    requires (forall i :: 0 <= i < |d| ==> 0x30 <= d[i] <= 0x39) && NoDigit(t)
    ensures SkipDigits(d + t) == t
  {
    if d == [] {
      assert d + t == t;
    } else {
      assert (d + t)[1..] == d[1..] + t;
      DigitsSkipped(d[1..], t);
    }
  }

  lemma {:induction false} SkippedDigits(t: bytes) returns (d: bytes)
    ensures t == d + SkipDigits(t) && (forall i :: 0 <= i < |d| ==> 0x30 <= d[i] <= 0x39)
    ensures t != [] && IsDigit(t[0]) ==> d != [] && d[0] == t[0]
  {
    if t != [] && IsDigit(t[0]) {
      var more := SkippedDigits(t[1..]);
      d := [t[0]] + more;
      assert t == [t[0]] + t[1..];
    } else {
      d := [];
    }
  }

  lemma WholeReads(n: Num, t: bytes)
    requires GoodNum(n) && NoDigit(t)
    ensures IntegerPart((if n.minus then [MINUS] else []) + n.whole + t) == Done((), t)
  {
    UnsignedReads(n.whole, t);
    Signed(n.minus, n.whole, t);
  }

  lemma UnsignedReads(whole: bytes, t: bytes)
    requires Digits(whole) && (whole[0] == ZERO ==> |whole| == 1) && NoDigit(t)
    ensures IntegerPart(whole + t) == Done((), t)
  {
    var u := whole + t;
    if whole[0] == ZERO { assert u[1..] == t; } else { DigitsSkipped(whole, t); }
  }

  lemma Signed(minus: bool, whole: bytes, t: bytes)
    requires Digits(whole)
    ensures IntegerPart((if minus then [MINUS] else []) + whole + t) == IntegerPart(whole + t)
  {
    hide SkipDigits;
    var u := whole + t;
    assert u[0] == whole[0];
    if minus { assert ([MINUS] + whole + t)[1..] == u; } else { assert [] + whole + t == u; }
  }

  lemma FractionReads(n: Num, t: bytes)
    requires GoodNum(n) && NoDigit(t) && (t == [] || t[0] != DOT)
    ensures Fraction(FracText(n) + t) == Done(n.frac != [], t)
  {
    var u := FracText(n) + t;
    if n.frac == [] {
      assert u == t;
    } else {
      assert u[1..] == n.frac + t;
      DigitsSkipped(n.frac, t);
    }
  }

  lemma ExponentReads(e: bytes, t: bytes)
    requires (e == [] || GoodExp(e)) && NoDigit(t) && (e == [] && t != [] ==> t[0] != 0x65 && t[0] != 0x45)
    ensures Exponent(e + t) == Done(e != [], t)
  {
    if e == [] {
      assert e + t == t;
    } else if Digits(e[1..]) {
      assert (e + t)[1..] == e[1..] + t && (e + t)[1] == e[1];
      DigitsSkipped(e[1..], t);
    } else {
      assert (e + t)[2..] == e[2..] + t && (e + t)[1] == e[1];
      DigitsSkipped(e[2..], t);
    }
  }

  lemma FollowsNumber(t: bytes)
    requires Follows(t)
    ensures NoDigit(t) && (t == [] || (t[0] != DOT && t[0] != 0x65 && t[0] != 0x45))
  {
  }

  /** What stands after the whole part, and after the fraction, goes on with no digit. */
  lemma NoDigitAfter(n: Num, t: bytes)
    requires GoodNum(n) && Follows(t)
    ensures NoDigit(n.exp + t) && (n.exp + t == [] || (n.exp + t)[0] != DOT) && NoDigit(FracText(n) + (n.exp + t))
  {
    FollowsNumber(t);
    if n.exp == [] { assert n.exp + t == t; }
    if n.frac == [] { assert FracText(n) + (n.exp + t) == n.exp + t; }
  }

  lemma NumberStart(n: Num, t: bytes)
    requires GoodNum(n)
    ensures var u := NumText(n) + t; u != [] && (u[0] == MINUS || IsDigit(u[0]))
  {
  }

  lemma NumberValueIs(n: Num)
    requires GoodNum(n)
    ensures NumberValue(NumText(n), n.frac == [] && n.exp == []) == NumMeaning(n)
  {
    if n.frac == [] && n.exp == [] {
      assert NumText(n) == (if n.minus then [MINUS] else []) + n.whole;
      if n.minus { assert NumText(n)[1..] == n.whole; } else { assert NumText(n) == n.whole; }
    }
  }

  /** A number in any spelling is read as what it means. */
  lemma NumberReads(n: Num, t: bytes)
    requires GoodNum(n) && Follows(t)
    ensures Number(NumText(n) + t) == Done(NumMeaning(n), t)
  {
    hide IntegerPart, Fraction, Exponent, NumberValue, NumMeaning, GoodNum;
    var tail := FracText(n) + (n.exp + t);
    var u := NumText(n) + t;
    FollowsNumber(t);
    NoDigitAfter(n, t);
    NumberRest(n, t);
    WholeReads(n, tail);
    FractionReads(n, n.exp + t);
    ExponentGood(n);
    ExponentReads(n.exp, t);
    assert u[..|u| - |t|] == NumText(n);
    NumberValueIs(n);
  }

  lemma NumberRest(n: Num, t: bytes)
    ensures NumText(n) + t == (if n.minus then [MINUS] else []) + n.whole + (FracText(n) + (n.exp + t))
  {
  }

  lemma ExponentGood(n: Num)
    requires GoodNum(n)
    ensures n.exp == [] || GoodExp(n.exp)
  {
  }

  /** Every number that is accepted is a spelling of what it is read as. */
  lemma NumberSpelled(t: bytes) returns (n: Num)
    requires Number(t).Done?
    ensures GoodNum(n) && t == NumText(n) + Number(t).rest && Number(t).value == NumMeaning(n)
  {
    hide NumberValue, NumMeaning;
    var minus, whole := WholeSpelled(t);
    var t1 := IntegerPart(t).rest;
    var frac := FractionSpelled(t1);
    var t2 := Fraction(t1).rest;
    var exp := ExponentSpelled(t2);
    var t3 := Exponent(t2).rest;
    n := Num(minus, whole, frac, exp);
    NumberRest(n, t3);
    hide IntegerPart, Fraction, Exponent;
    assert t == NumText(n) + t3;
    assert t[..|t| - |t3|] == NumText(n);
    NumberValueIs(n);
  }

  lemma WholeSpelled(t: bytes) returns (minus: bool, whole: bytes)
    requires IntegerPart(t).Done?
    ensures Digits(whole) && (whole[0] == ZERO ==> |whole| == 1)
    ensures t == (if minus then [MINUS] else []) + whole + IntegerPart(t).rest
  {
    minus := t[0] == MINUS;
    var u := if minus then t[1..] else t;
    if u[0] == ZERO {
      whole := [ZERO];
      assert u == [ZERO] + u[1..];
    } else {
      whole := SkippedDigits(u);
    }
    var rest := IntegerPart(t).rest;
    assert u == whole + rest;
    hide IntegerPart;
    WithSign(minus, whole, rest, t);
  }

  lemma WithSign(minus: bool, whole: bytes, rest: bytes, t: bytes)
    requires if minus then t != [] && t[0] == MINUS && t[1..] == whole + rest else t == whole + rest
    ensures t == (if minus then [MINUS] else []) + whole + rest
  {
    if minus { assert t == [MINUS] + t[1..]; } else { assert t == [] + whole + rest; }
  }

  lemma FractionSpelled(t: bytes) returns (frac: bytes)
    requires Fraction(t).Done?
    ensures frac == [] || Digits(frac)
    ensures Fraction(t).value <==> frac != []
    ensures t == (if frac == [] then [] else [DOT] + frac) + Fraction(t).rest
  {
    if t == [] || t[0] != DOT {
      frac := [];
    } else {
      frac := SkippedDigits(t[1..]);
      assert t == [DOT] + t[1..];
    }
  }

  lemma ExponentSpelled(t: bytes) returns (exp: bytes)
    requires Exponent(t).Done?
    ensures exp == [] || GoodExp(exp)
    ensures Exponent(t).value <==> exp != []
    ensures t == exp + Exponent(t).rest
  {
    if t == [] || (t[0] != 0x65 && t[0] != 0x45) {
      exp := [];
    } else {
      var k := if |t| > 1 && (t[1] == PLUS || t[1] == MINUS) then 2 else 1;
      var d := SkippedDigits(t[k..]);
      exp := t[..k] + d;
      HeadThen(t, k, d);
      assert exp[k..] == d;
    }
  }

  lemma HeadThen(t: bytes, k: nat, d: bytes)
    requires k <= |t| && t[k..] == d + SkipDigits(t[k..])
    ensures t == t[..k] + d + SkipDigits(t[k..])
  {
    hide SkipDigits;
    assert t == t[..k] + t[k..];
  }

  // ---- Values (sections 2 to 5) ----

  datatype Spelled =
    | Word(v: Value)
    | Numeral(n: Num)
    | Text(ps: seq<Piece>)
    | Nest(obj: bool, inner: bytes, kids: seq<Part>)

  /** A member with the white space before it, around its colon and after it; no name in an array. */
  datatype Part = Part(before: bytes, key: seq<Piece>, colonBefore: bytes, colonAfter: bytes, value: Spelled, after: bytes)

  predicate White(w: bytes) { forall i :: 0 <= i < |w| ==> w[i] in {SPACE, LF, CR, TAB} }

  function WordText(v: Value): bytes
  {
    match v
    case Null => [0x6E, 0x75, 0x6C, 0x6C]
    case Bool(b) => if b then [0x74, 0x72, 0x75, 0x65] else [0x66, 0x61, 0x6C, 0x73, 0x65]
    case _ => []
  }

  function KeySpelled(obj: bool, p: Part): bytes
  {
    if obj then [QUOTE] + (TextOf(p.key) + [QUOTE] + (p.colonBefore + ([COLON] + p.colonAfter))) else []
  }

  function Spell(s: Spelled): bytes
    decreases s, 1
  {
    match s
    case Word(v) => WordText(v)
    case Numeral(n) => NumText(n)
    case Text(ps) => [QUOTE] + (TextOf(ps) + [QUOTE])
    case Nest(obj, inner, kids) =>
      [if obj then LBRACE else LBRACKET] + if kids == [] then inner + [if obj then RBRACE else RBRACKET] else kids[0].before + Bodies(obj, kids)
  }

  /** The members without the space before the first, up to and including the closing bracket. */
  function Bodies(obj: bool, kids: seq<Part>): bytes
    requires kids != []
    decreases kids, 0
  {
    KeySpelled(obj, kids[0]) + (Spell(kids[0].value) + (kids[0].after
    + if |kids| == 1 then [if obj then RBRACE else RBRACKET] else [COMMA] + (kids[1].before + Bodies(obj, kids[1..]))))
  }

  /** The space and the name. */
  predicate GoodPart(obj: bool, p: Part)
  {
    && White(p.before) && White(p.colonBefore) && White(p.colonAfter) && White(p.after)
    && GoodText(p.key) && (obj || p.key == [])
  }

  predicate GoodSpelling(s: Spelled)
    decreases s, 1
  {
    match s
    case Word(v) => v.Null? || v.Bool?
    case Numeral(n) => GoodNum(n)
    case Text(ps) => GoodText(ps)
    case Nest(obj, inner, kids) => White(inner) && GoodParts(obj, kids)
  }

  predicate GoodParts(obj: bool, kids: seq<Part>)
    decreases kids, 0
  {
    kids == [] || (GoodPart(obj, kids[0]) && GoodSpelling(kids[0].value) && GoodParts(obj, kids[1..]))
  }

  function MeaningOfValue(s: Spelled): Value
    requires GoodSpelling(s)
    decreases s, 1
  {
    match s
    case Word(v) => v
    case Numeral(n) => NumMeaning(n)
    case Text(ps) => Str(MeaningOf(ps))
    case Nest(obj, _, kids) => Container(obj, MeaningOfParts(obj, kids))
  }

  function MeaningOfParts(obj: bool, kids: seq<Part>): seq<Member>
    requires GoodParts(obj, kids)
    decreases kids, 0
  {
    if kids == [] then [] else [Member(MeaningOf(kids[0].key), MeaningOfValue(kids[0].value))] + MeaningOfParts(obj, kids[1..])
  }

  /** How many containers deep the value goes. */
  function Levels(s: Spelled): nat
    decreases s, 1
  {
    if s.Nest? then 1 + PartLevels(s.kids) else 0
  }

  function PartLevels(kids: seq<Part>): nat
    decreases kids, 0
  {
    if kids == [] then 0
    else if Levels(kids[0].value) > PartLevels(kids[1..]) then Levels(kids[0].value) else PartLevels(kids[1..])
  }

  lemma {:induction false} WhiteSkipped(w: bytes, t: bytes)
    requires White(w) && (t == [] || !IsWs(t[0]))
    ensures SkipWs(w + t) == t
  {
    if w == [] {
      assert w + t == t;
    } else {
      assert (w + t)[1..] == w[1..] + t;
      WhiteSkipped(w[1..], t);
    }
  }

  lemma MoreWhite(b: byte, w: bytes)
    requires IsWs(b) && White(w)
    ensures White([b] + w)
  {
  }

  lemma {:induction false} SkippedWhite(t: bytes) returns (w: bytes)
    ensures White(w) && t == w + SkipWs(t)
    ensures SkipWs(t) == [] || !IsWs(SkipWs(t)[0])
  {
    if t != [] && IsWs(t[0]) {
      hide White;
      var more := SkippedWhite(t[1..]);
      w := [t[0]] + more;
      MoreWhite(t[0], more);
      assert t == [t[0]] + t[1..];
      PairText([t[0]], more, SkipWs(t[1..]));
    } else {
      w := [];
    }
  }

  /** A value's first byte tells its kind; it is no white space and closes nothing. */
  lemma SpellingStarts(s: Spelled, t: bytes)
    requires GoodSpelling(s)
    ensures var u := Spell(s) + t;
            && u != [] && !IsWs(u[0]) && u[0] != RBRACE && u[0] != RBRACKET
            && (s.Nest? ==> u[0] == if s.obj then LBRACE else LBRACKET)
  {
    hide TextOf, Bodies, GoodParts;
    if s.Numeral? { NumberStart(s.n, t); }
  }

  lemma WhiteThen(w: bytes, t: bytes)
    requires White(w) && t != [] && (t[0] in {COMMA, RBRACE, RBRACKET} || IsWs(t[0]))
    ensures Follows(w + t)
  {
    if w == [] { assert w + t == t; }
  }

  lemma LiteralReads(v: Value, t: bytes, depth: nat)
    requires v.Null? || v.Bool?
    ensures ParseValue(WordText(v) + t, depth) == Done(v, t)
  {
    var w, u := WordText(v), WordText(v) + t;
    assert w <= u && u[|w|..] == t && u[0] == w[0];
  }

  /** A name with its colon. */
  lemma KeyReads(obj: bool, p: Part, t: bytes)
    requires GoodPart(obj, p) && t != [] && !IsWs(t[0])
    ensures MemberKey(KeySpelled(obj, p) + t, obj) == Done(MeaningOf(p.key), t)
  {
    hide TextOf, Unescape, SkipWs, GoodSpelling;
    if obj {
      var after := p.colonBefore + ([COLON] + p.colonAfter);
      var u := KeySpelled(obj, p) + t;
      KeyText(TextOf(p.key), p.colonBefore, p.colonAfter, t);
      StringReads(p.key, p.colonBefore + ([COLON] + (p.colonAfter + t)));
      WhiteSkipped(p.colonBefore, [COLON] + (p.colonAfter + t));
      WhiteSkipped(p.colonAfter, t);
      assert ([COLON] + (p.colonAfter + t))[1..] == p.colonAfter + t;
    } else {
      assert KeySpelled(obj, p) + t == t;
      NoText(p.key);
    }
  }

  lemma NoText(ps: seq<Piece>)
    requires ps == []
    ensures GoodText(ps) && MeaningOf(ps) == [] && TextOf(ps) == []
  {
  }

  lemma KeyText(text: bytes, a: bytes, b: bytes, t: bytes)
    ensures var u := [QUOTE] + (text + [QUOTE] + (a + ([COLON] + b))) + t;
            u[0] == QUOTE && u[1..] == text + [QUOTE] + (a + ([COLON] + (b + t)))
  {
    Assoc(a, [COLON], b, t);
    var x := text + [QUOTE];
    assert [QUOTE] + (x + (a + ([COLON] + b))) + t == [QUOTE] + (x + (a + ([COLON] + b) + t));
  }

  lemma Assoc(a: bytes, b: bytes, c: bytes, d: bytes)
    ensures a + (b + c) + d == a + (b + (c + d))
  {
  }

  lemma TextReads(ps: seq<Piece>, t: bytes, depth: nat)
    requires GoodText(ps)
    ensures ParseValue([QUOTE] + (TextOf(ps) + [QUOTE]) + t, depth) == Done(Str(MeaningOf(ps)), t)
  {
    hide TextOf, Unescape, MeaningOf, GoodText;
    var u := [QUOTE] + (TextOf(ps) + [QUOTE]) + t;
    assert u[1..] == TextOf(ps) + [QUOTE] + t;
    StringReads(ps, t);
  }

  lemma NumberValueReads(n: Num, t: bytes, depth: nat)
    requires GoodNum(n) && Follows(t)
    ensures ParseValue(NumText(n) + t, depth) == Done(NumMeaning(n), t)
  {
    hide NumText, NumMeaning, Number, GoodNum, ParseMembers, Unescape;
    NumberStart(n, t);
    NumberReads(n, t);
  }

  lemma NestStart(obj: bool, inner: bytes, kids: seq<Part>, t: bytes)
    ensures var s := Spell(Nest(obj, inner, kids)) + t;
            && s != [] && s[0] == (if obj then LBRACE else LBRACKET)
            && s[1..] == if kids == [] then inner + ([if obj then RBRACE else RBRACKET] + t) else kids[0].before + (Bodies(obj, kids) + t)
  {
    hide Bodies;
  }

  /** What follows a member: its white space, then a comma and the rest, or the closing bracket. */
  function Tail(obj: bool, kids: seq<Part>, t: bytes): bytes
    requires kids != []
  {
    if |kids| == 1 then [if obj then RBRACE else RBRACKET] + t else [COMMA] + (kids[1].before + (Bodies(obj, kids[1..]) + t))
  }

  lemma BodiesAre(obj: bool, kids: seq<Part>, t: bytes)
    requires kids != []
    ensures Bodies(obj, kids) + t == KeySpelled(obj, kids[0]) + (Spell(kids[0].value) + (kids[0].after + Tail(obj, kids, t)))
  {
    hide Spell, KeySpelled;
    var k, v, w := KeySpelled(obj, kids[0]), Spell(kids[0].value), kids[0].after;
    if |kids| == 1 {
      var c := [if obj then RBRACE else RBRACKET];
      assert Bodies(obj, kids) == k + (v + (w + c));
      Nested4(k, v, w, c, t);
    } else {
      var c := [COMMA] + (kids[1].before + Bodies(obj, kids[1..]));
      assert Bodies(obj, kids) == k + (v + (w + c));
      hide Bodies;
      Assoc([COMMA], kids[1].before, Bodies(obj, kids[1..]), t);
      Nested4(k, v, w, c, t);
    }
  }

  lemma Nested4(a: bytes, b: bytes, c: bytes, d: bytes, t: bytes)
    ensures a + (b + (c + d)) + t == a + (b + (c + (d + t)))
  {
  }

  lemma BodyStarts(obj: bool, kids: seq<Part>, t: bytes)
    requires kids != [] && GoodParts(obj, kids)
    ensures var u := Bodies(obj, kids) + t; u != [] && !IsWs(u[0]) && u[0] != RBRACE && u[0] != RBRACKET
  {
    hide Spell, Bodies, TextOf;
    var rest := kids[0].after + Tail(obj, kids, t);
    BodiesAre(obj, kids, t);
    SpellingStarts(kids[0].value, rest);
    if !obj { assert KeySpelled(obj, kids[0]) + (Spell(kids[0].value) + rest) == Spell(kids[0].value) + rest; }
  }

  /** A value in any spelling is read as what it means, unless it goes too deep; then it is refused. */
  lemma {:induction false} ValueReads(s: Spelled, t: bytes, depth: nat)
    requires GoodSpelling(s) && Follows(t)
    ensures ParseValue(Spell(s) + t, depth) == if s.Nest? && Levels(s) + depth > MAX_DEPTH then Fail else Done(MeaningOfValue(s), t)
    decreases s, 1
  {
    match s {
      case Word(v) => LiteralReads(v, t, depth);
      case Numeral(n) => NumberValueReads(n, t, depth);
      case Text(ps) => TextReads(ps, t, depth);
      case Nest(obj, inner, kids) =>
        NestStart(obj, inner, kids, t);
        if kids == [] {
          EmptyReads(s, t, depth);
        } else if depth < MAX_DEPTH {
          PartsRead(obj, kids, t, depth);
          NestReads(s, t, depth);
        } else {
          NestTooDeep(s, t, depth);
        }
    }
  }

  lemma EmptyReads(s: Spelled, t: bytes, depth: nat)
    requires GoodSpelling(s) && s.Nest? && s.kids == []
    ensures ParseValue(Spell(s) + t, depth) == if Levels(s) + depth > MAX_DEPTH then Fail else Done(MeaningOfValue(s), t)
  {
    hide SkipWs, ParseMembers;
    var close := [if s.obj then RBRACE else RBRACKET] + t;
    NestStart(s.obj, s.inner, s.kids, t);
    WhiteSkipped(s.inner, close);
    assert close[1..] == t;
  }

  lemma NestTooDeep(s: Spelled, t: bytes, depth: nat)
    requires GoodSpelling(s) && s.Nest? && depth >= MAX_DEPTH
    ensures ParseValue(Spell(s) + t, depth) == Fail && Levels(s) + depth > MAX_DEPTH
  {
    hide Spell;
    NestStart(s.obj, s.inner, s.kids, t);
  }

  lemma NestReads(s: Spelled, t: bytes, depth: nat)
    requires GoodSpelling(s) && s.Nest? && s.kids != [] && depth < MAX_DEPTH
    requires ParseMembers(Bodies(s.obj, s.kids) + t, depth, s.obj)
             == if PartLevels(s.kids) + depth + 1 > MAX_DEPTH then Fail else Done(MeaningOfParts(s.obj, s.kids), t)
    ensures ParseValue(Spell(s) + t, depth) == if Levels(s) + depth > MAX_DEPTH then Fail else Done(MeaningOfValue(s), t)
  {
    hide Spell, Bodies, SkipWs, ParseMembers, PartLevels, MeaningOfParts;
    var u := Bodies(s.obj, s.kids) + t;
    NestStart(s.obj, s.inner, s.kids, t);
    BodyStarts(s.obj, s.kids, t);
    WhiteSkipped(s.kids[0].before, u);
  }

  lemma LastPart(obj: bool, kids: seq<Part>)
    requires |kids| == 1 && GoodParts(obj, kids)
    ensures PartLevels(kids) == Levels(kids[0].value)
    ensures MeaningOfParts(obj, kids) == [Member(MeaningOf(kids[0].key), MeaningOfValue(kids[0].value))]
  {
    hide MeaningOf, MeaningOfValue, Levels, GoodText, GoodSpelling;
    assert kids[1..] == [] && PartLevels([]) == 0 && MeaningOfParts(obj, []) == [];
  }

  lemma {:induction false} PartsRead(obj: bool, kids: seq<Part>, t: bytes, depth: nat)
    requires kids != [] && GoodParts(obj, kids) && depth < MAX_DEPTH
    ensures ParseMembers(Bodies(obj, kids) + t, depth, obj)
            == if PartLevels(kids) + depth + 1 > MAX_DEPTH then Fail else Done(MeaningOfParts(obj, kids), t)
    decreases kids, 0
  {
    hide Spell, Bodies, MemberKey, ParseValue, SkipWs, KeySpelled, MeaningOf, GoodText;
    var p, tail := kids[0], Tail(obj, kids, t);
    var rest := p.after + tail;
    BodiesAre(obj, kids, t);
    SpellingStarts(p.value, rest);
    KeyReads(obj, p, Spell(p.value) + rest);
    WhiteThen(p.after, tail);
    ValueReads(p.value, rest, depth + 1);
    WhiteSkipped(p.after, tail);
    if |kids| > 1 {
      BodyStarts(obj, kids[1..], t);
      WhiteSkipped(kids[1].before, Bodies(obj, kids[1..]) + t);
      assert tail[1..] == kids[1].before + (Bodies(obj, kids[1..]) + t);
      PartsRead(obj, kids[1..], t, depth);
    } else {
      assert tail[1..] == t && tail[0] == CloseOf(obj);
      LastPart(obj, kids);
    }
  }

  // ---- What is accepted ----

  /** Every value that is accepted is a spelling of what it is read as. */
  lemma {:induction false} ValueSpelled(t: bytes, depth: nat) returns (s: Spelled)
    requires ParseValue(t, depth).Done?
    ensures GoodSpelling(s) && t == Spell(s) + ParseValue(t, depth).rest && MeaningOfValue(s) == ParseValue(t, depth).value
    ensures s.Nest? ==> Levels(s) + depth <= MAX_DEPTH
    decreases |t|, 1
  {
    if t[0] == LBRACE || t[0] == LBRACKET {
      s := NestSpelled(t, depth);
    } else if t[0] == QUOTE {
      s := TextSpelled(t, depth);
    } else if t[0] == MINUS || IsDigit(t[0]) {
      hide Number, NumText, NumMeaning, GoodNum;
      var n := NumberSpelled(t);
      s := Numeral(n);
    } else {
      s := WordSpelled(t, depth);
    }
  }

  lemma TextSpelled(t: bytes, depth: nat) returns (s: Spelled)
    requires ParseValue(t, depth).Done? && t[0] == QUOTE
    ensures GoodSpelling(s) && t == Spell(s) + ParseValue(t, depth).rest && MeaningOfValue(s) == ParseValue(t, depth).value && s.Text?
  {
    hide TextOf, Unescape, GoodText, MeaningOf;
    var ps := StringSpelled(t[1..]);
    s := Text(ps);
    assert t == [QUOTE] + t[1..];
    Braced(QUOTE, TextOf(ps), [QUOTE], Unescape(t[1..]).rest);
    PairText(TextOf(ps), [QUOTE], Unescape(t[1..]).rest);
  }

  lemma WordSpelled(t: bytes, depth: nat) returns (s: Spelled)
    requires ParseValue(t, depth).Done? && t[0] in {0x74, 0x66, 0x6E}
    ensures GoodSpelling(s) && t == Spell(s) + ParseValue(t, depth).rest && MeaningOfValue(s) == ParseValue(t, depth).value && s.Word?
  {
    var v := if t[0] == 0x6E then Null else Bool(t[0] == 0x74);
    s := Word(v);
    var w := WordText(v);
    assert w == if t[0] == 0x74 then TRUE_WORD else if t[0] == 0x66 then FALSE_WORD else NULL_WORD;
    assert w <= t && t == t[..|w|] + t[|w|..];
  }

  lemma {:induction false} NestSpelled(t: bytes, depth: nat) returns (s: Spelled)
    requires ParseValue(t, depth).Done? && t[0] in {LBRACE, LBRACKET}
    ensures GoodSpelling(s) && t == Spell(s) + ParseValue(t, depth).rest && MeaningOfValue(s) == ParseValue(t, depth).value
    ensures s.Nest? && Levels(s) + depth <= MAX_DEPTH
    decreases |t|, 0
  {
    hide ParseMembers, SkipWs, TextOf;
    var obj := t[0] == LBRACE;
    var w := SkippedWhite(t[1..]);
    var u := SkipWs(t[1..]);
    assert t == [t[0]] + t[1..];
    if u != [] && u[0] == CloseOf(obj) {
      s := Nest(obj, w, []);
      assert u == [CloseOf(obj)] + u[1..];
      Braced(t[0], w, [CloseOf(obj)], u[1..]);
    } else {
      var kids := PartsSpelled(u, depth, obj);
      var rest := ParseMembers(u, depth, obj).rest;
      var p := kids[0].(before := w);
      var all := [p] + kids[1..];
      s := Nest(obj, [], all);
      SpaceBefore(obj, kids, w);
      hide Bodies, GoodParts, MeaningOfParts, PartLevels;
      Braced(t[0], w, Bodies(obj, all), rest);
    }
  }

  lemma Braced(open: byte, w: bytes, body: bytes, rest: bytes)
    ensures [open] + (w + (body + rest)) == [open] + (w + body) + rest
  {
  }

  /** The space before the first member is no part of what follows it. */
  lemma SpaceBefore(obj: bool, kids: seq<Part>, w: bytes)
    requires kids != [] && GoodParts(obj, kids) && White(w)
    ensures var all := [kids[0].(before := w)] + kids[1..];
            && GoodParts(obj, all) && Bodies(obj, all) == Bodies(obj, kids) && PartLevels(all) == PartLevels(kids)
            && MeaningOfParts(obj, all) == MeaningOfParts(obj, kids)
  {
    hide Spell, GoodSpelling, MeaningOf, MeaningOfValue, Levels, TextOf, GoodText;
    var all := [kids[0].(before := w)] + kids[1..];
    assert all[1..] == kids[1..];
    assert KeySpelled(obj, all[0]) == KeySpelled(obj, kids[0]);
  }

  /** A member: its name, its value and the space after it. */
  lemma {:induction false} PartSpelled(t: bytes, depth: nat, obj: bool) returns (p: Part)
    requires MemberKey(t, obj).Done? && ParseValue(MemberKey(t, obj).rest, depth + 1).Done?
    ensures GoodPart(obj, p) && GoodSpelling(p.value) && p.before == []
    ensures var k := MemberKey(t, obj);
            var v := ParseValue(k.rest, depth + 1);
            && t == KeySpelled(obj, p) + (Spell(p.value) + (p.after + SkipWs(v.rest)))
            && MeaningOf(p.key) == k.value && MeaningOfValue(p.value) == v.value
    ensures depth < MAX_DEPTH ==> Levels(p.value) + depth + 1 <= MAX_DEPTH
    decreases |t|, 2
  {
    hide ParseValue, MemberKey, SkipWs, TextOf, Spell, MeaningOf, MeaningOfValue, GoodText;
    var k := MemberKey(t, obj);
    KeyShrinks(t, obj);
    var key, before, after := KeyParts(t, obj);
    var value := ValueSpelled(k.rest, depth + 1);
    var v := ParseValue(k.rest, depth + 1);
    var w := SkippedWhite(v.rest);
    p := Part([], key, before, after, value, w);
    if !value.Nest? { LeafLevel(value); }
    assert KeySpelled(obj, p) == KeySpelled(obj, Part([], key, before, after, Word(Null), []));
    MemberText(KeySpelled(obj, p), Spell(value), w, SkipWs(v.rest));
  }

  lemma LeafLevel(s: Spelled)
    requires !s.Nest?
    ensures Levels(s) == 0
  {
  }

  lemma MemberText(k: bytes, v: bytes, w: bytes, rest: bytes)
    ensures k + (v + (w + rest)) == k + (v + w + rest)
  {
  }

  lemma KeyShrinks(t: bytes, obj: bool)
    ensures MemberKey(t, obj).Done? ==> |MemberKey(t, obj).rest| <= |t|
  {
  }

  /** A name with its colon that is accepted. */
  lemma KeyParts(t: bytes, obj: bool) returns (key: seq<Piece>, before: bytes, after: bytes)
    requires MemberKey(t, obj).Done?
    ensures var p := Part([], key, before, after, Word(Null), []);
            GoodPart(obj, p) && MeaningOf(key) == MemberKey(t, obj).value && t == KeySpelled(obj, p) + MemberKey(t, obj).rest
  {
    hide Unescape, SkipWs, TextOf, MeaningOf, GoodText;
    if obj {
      key := StringSpelled(t[1..]);
      var k := Unescape(t[1..]);
      before := SkippedWhite(k.rest);
      var u := SkipWs(k.rest);
      after := SkippedWhite(u[1..]);
      assert t == [QUOTE] + t[1..] && u == [COLON] + u[1..];
      KeyRegroup(TextOf(key), before, after, SkipWs(u[1..]));
    } else {
      key, before, after := [], [], [];
      NoText(key);
      assert t == [] + t;
    }
  }

  lemma KeyRegroup(text: bytes, a: bytes, b: bytes, t: bytes)
    ensures [QUOTE] + (text + [QUOTE] + (a + ([COLON] + (b + t)))) == [QUOTE] + (text + [QUOTE] + (a + ([COLON] + b))) + t
    ensures text + ([QUOTE] + (a + ([COLON] + b))) == text + [QUOTE] + (a + ([COLON] + b))
  {
    Assoc(a, [COLON], b, t);
    var x := text + [QUOTE];
    assert [QUOTE] + (x + (a + ([COLON] + b))) + t == [QUOTE] + (x + (a + ([COLON] + b) + t));
  }

  lemma {:induction false} PartsSpelled(t: bytes, depth: nat, obj: bool) returns (kids: seq<Part>)
    requires ParseMembers(t, depth, obj).Done? && depth < MAX_DEPTH
    ensures kids != [] && GoodParts(obj, kids) && t == Bodies(obj, kids) + ParseMembers(t, depth, obj).rest
    ensures MeaningOfParts(obj, kids) == ParseMembers(t, depth, obj).value && PartLevels(kids) + depth + 1 <= MAX_DEPTH
    decreases |t|, 3
  {
    hide ParseValue, MemberKey, SkipWs, TextOf, Spell, MeaningOf, MeaningOfValue, GoodText, GoodSpelling, GoodPart, KeySpelled, Levels;
    var p := PartSpelled(t, depth, obj);
    var v := ParseValue(MemberKey(t, obj).rest, depth + 1);
    var u := SkipWs(v.rest);
    MemberShrinks(t, obj, depth);
    if u[0] == COMMA {
      var w := SkippedWhite(u[1..]);
      assert u == [COMMA] + u[1..];
      var more := PartsSpelled(SkipWs(u[1..]), depth, obj);
      kids := [p] + ([more[0].(before := w)] + more[1..]);
      SpaceBefore(obj, more, w);
      MorePart(obj, p, [more[0].(before := w)] + more[1..], ParseMembers(t, depth, obj).rest);
    } else {
      kids := [p];
      assert u == [CloseOf(obj)] + u[1..];
      OnlyPart(obj, p, u[1..]);
    }
  }

  lemma MemberShrinks(t: bytes, obj: bool, depth: nat)
    ensures var k := MemberKey(t, obj);
            k.Done? && ParseValue(k.rest, depth + 1).Done? ==> |SkipWs(ParseValue(k.rest, depth + 1).rest)| < |t|
  {
    hide MemberKey, ParseValue, SkipWs;
    KeyShrinks(t, obj);
  }

  lemma OnlyPart(obj: bool, p: Part, t: bytes)
    requires GoodPart(obj, p) && GoodSpelling(p.value)
    ensures GoodParts(obj, [p]) && PartLevels([p]) == Levels(p.value)
    ensures MeaningOfParts(obj, [p]) == [Member(MeaningOf(p.key), MeaningOfValue(p.value))]
    ensures Bodies(obj, [p]) + t == KeySpelled(obj, p) + (Spell(p.value) + (p.after + ([CloseOf(obj)] + t)))
  {
    hide Spell, MeaningOf, MeaningOfValue, GoodText, GoodSpelling, KeySpelled, Levels;
    assert [p][1..] == [];
    LastPart(obj, [p]);
    BodiesAre(obj, [p], t);
  }

  lemma MorePart(obj: bool, p: Part, more: seq<Part>, t: bytes)
    requires GoodPart(obj, p) && GoodSpelling(p.value) && more != [] && GoodParts(obj, more)
    ensures var kids := [p] + more;
            && GoodParts(obj, kids)
            && PartLevels(kids) == (if Levels(p.value) > PartLevels(more) then Levels(p.value) else PartLevels(more))
            && MeaningOfParts(obj, kids) == [Member(MeaningOf(p.key), MeaningOfValue(p.value))] + MeaningOfParts(obj, more)
            && Bodies(obj, kids) + t
               == KeySpelled(obj, p) + (Spell(p.value) + (p.after + ([COMMA] + (more[0].before + (Bodies(obj, more) + t)))))
  {
    hide Spell, MeaningOf, MeaningOfValue, GoodText, GoodSpelling, KeySpelled, Levels, GoodPart;
    var kids := [p] + more;
    assert kids[1..] == more && kids[0] == p;
    BodiesAre(obj, kids, t);
  }

  // ---- Documents ----

  /** The text is white space, a spelling of the value that goes no deeper than 256 levels, and white space. */
  ghost predicate Denotes(text: bytes, v: Value)
  {
    exists a, s, b :: IsDocument(text, a, s, b) && MeaningOfValue(s) == v
  }

  predicate IsDocument(text: bytes, a: bytes, s: Spelled, b: bytes)
  {
    White(a) && White(b) && GoodSpelling(s) && Levels(s) <= 256 && text == a + (Spell(s) + b)
  }

  /** The parser accepts exactly the documents of RFC 8259 that nest no deeper than 256 levels, as what they denote. */
  lemma ParsesExactlyTheStandard(text: bytes, v: Value)
    ensures ParseDocument(text) == Done(v, []) <==> Denotes(text, v)
  {
    hide ParseValue, Spell, SkipWs, GoodSpelling, MeaningOfValue, Levels;
    if ParseDocument(text) == Done(v, []) {
      var a := SkippedWhite(text);
      var s := ValueSpelled(SkipWs(text), 0);
      var b := SkippedWhite(ParseValue(SkipWs(text), 0).rest);
      assert b + [] == b;
      if !s.Nest? { LeafLevel(s); }
      assert IsDocument(text, a, s, b);
    }
    if Denotes(text, v) {
      var a, s, b :| IsDocument(text, a, s, b) && MeaningOfValue(s) == v;
      SpellingStarts(s, b);
      WhiteSkipped(a, Spell(s) + b);
      WhiteFollows(b);
      ValueReads(s, b, 0);
      assert b + [] == b;
      WhiteSkipped(b, []);
    }
  }

  lemma WhiteFollows(b: bytes)
    requires White(b)
    ensures Follows(b)
  {
  }
}
