/**
 * Printing and reading times (src/base/time.cpp, formatCivil and
 * parseIsoMicros). The language's names and the local time zone are parameters.
 */
module IsoTime {
  import opened Calendar
  import opened Wrappers

  datatype Names = Names(month: int -> string, monthShort: int -> string, weekday: int -> string, dayPeriod: int -> string)

  // ---- Numbers ----

  function Digit(d: int): char
    requires 0 <= d <= 9
  {
    '0' + d as char
  }

  function Decimal(n: nat): string
  {
    if n < 10 then [Digit(n)] else Decimal(n / 10) + [Digit(n % 10)]
  }

  /** "%02d" for width 2, else "%d". */
  function Num(v: int, width: nat): string
  {
    if v < 0 then "-" + Decimal(-v) else if width == 2 && v < 10 then "0" + Decimal(v) else Decimal(v)
  }

  lemma TwoDigits(v: int)
    requires 0 <= v <= 99
    ensures Num(v, 2) == [Digit(v / 10), Digit(v % 10)]
  {
    assert v >= 10 ==> Decimal(v / 10) == [Digit(v / 10)];
    assert v < 10 ==> Num(v, 2) == "0" + [Digit(v)];
  }

  lemma FourDigits(v: int)
    requires 1000 <= v <= 9999
    ensures Num(v, 1) == [Digit(v / 1000), Digit(v / 100 % 10), Digit(v / 10 % 10), Digit(v % 10)]
  {
    assert Decimal(v / 1000) == [Digit(v / 1000)];
    assert Decimal(v / 100) == Decimal(v / 1000) + [Digit(v / 100 % 10)];
    assert Decimal(v / 10) == Decimal(v / 100) + [Digit(v / 10 % 10)];
    assert Decimal(v) == Decimal(v / 10) + [Digit(v % 10)];
  }

  // ---- Printing by a pattern ----

  /** Literal text from `j` up to its closing quote, a doubled quote standing for one; and where it stops. */
  function Quoted(p: string, j: nat): (r: (string, nat))
    requires j <= |p|
    ensures j <= r.1 <= |p|
    decreases |p| - j
  {
    if j == |p| || (p[j] == '\'' && (j + 1 == |p| || p[j + 1] != '\'')) then ("", j)
    else
      var (text, end) := Quoted(p, j + if p[j] == '\'' then 2 else 1);
      ([p[j]] + text, end)
  }

  /** How often the letter at `i` is repeated. */
  function RunLength(p: string, i: nat): (n: nat)
    requires i < |p|
    ensures 1 <= n <= |p| - i
    decreases |p| - i
  {
    if i + 1 < |p| && p[i + 1] == p[i] then 1 + RunLength(p, i + 1) else 1
  }

  function Field(c: CivilTime, names: Names, ch: char, n: nat, text: string): string
  {
    if ch == 'y' && n == 4 then Num(c.year, 1)
    else if ch == 'M' && n >= 4 then names.month(c.month)
    else if ch == 'M' && n == 3 then names.monthShort(c.month)
    else if ch == 'M' then Num(c.month, n)
    else if ch == 'd' && n == 4 then names.weekday(c.weekday)
    else if ch == 'd' && n <= 2 then Num(c.day, n)
    else if ch == 'H' && n <= 2 then Num(c.hour, n)
    else if ch == 'h' && n <= 2 then Num(if TruncMod(c.hour, 12) == 0 then 12 else TruncMod(c.hour, 12), n)
    else if ch == 'm' && n <= 2 then Num(c.minute, n)
    else if ch == 's' && n <= 2 then Num(c.second, n)
    else text
  }

  function Formatted(c: CivilTime, names: Names, p: string, i: nat): string
    decreases |p| - i
  {
    if i >= |p| then ""
    else if p[i] == '\'' then
      if i + 1 < |p| && p[i + 1] == '\'' then "'" + Formatted(c, names, p, i + 2)
      else
        var (text, end) := Quoted(p, i + 1);
        text + Formatted(c, names, p, end + 1)
    else if p[i] == 'A' && i + 1 < |p| && p[i + 1] == 'P' then names.dayPeriod(c.hour) + Formatted(c, names, p, i + 2)
    else
      var n := RunLength(p, i);
      Field(c, names, p[i], n, p[i..i + n]) + Formatted(c, names, p, i + n)
  }

  method FormatCivil(c: CivilTime, names: Names, p: string) returns (out: string)
    ensures out == Formatted(c, names, p, 0)
  {
    hide Field, RunLength, Quoted;
    out := "";
    var i: nat := 0;
    while i < |p|
      invariant out + Formatted(c, names, p, i) == Formatted(c, names, p, 0)
      decreases |p| - i
    {
      var ch := p[i];
      var next: nat, text := i, "";
      if ch == '\'' {
        if i + 1 < |p| && p[i + 1] == '\'' {
          text, next := "'", i + 2;
        } else {
          text, next := ReadQuoted(p, i + 1);
          next := next + 1;
        }
      } else if ch == 'A' && i + 1 < |p| && p[i + 1] == 'P' {
        text, next := names.dayPeriod(c.hour), i + 2;
      } else {
        var n := CountRun(p, i);
        text, next := Field(c, names, ch, n, p[i..i + n]), i + n;
      }
      assert Formatted(c, names, p, i) == text + Formatted(c, names, p, next);
      Regroup(out, text, Formatted(c, names, p, next));
      out := out + text;
      i := next;
    }
  }

  lemma Regroup(a: string, b: string, c: string)
    ensures a + (b + c) == a + b + c
  {
  }

  method ReadQuoted(p: string, j0: nat) returns (text: string, j: nat)
    requires j0 <= |p|
    ensures (text, j) == Quoted(p, j0)
  {
    text, j := "", j0;
    assert "" + Quoted(p, j).0 == Quoted(p, j).0;
    while j < |p|
      invariant j0 <= j <= |p| && Quoted(p, j0) == (text + Quoted(p, j).0, Quoted(p, j).1)
    {
      if p[j] == '\'' && (j + 1 >= |p| || p[j + 1] != '\'') { break; }
      Regroup(text, [p[j]], Quoted(p, j + if p[j] == '\'' then 2 else 1).0);
      text := text + [p[j]];
      j := j + if p[j] == '\'' then 2 else 1;
    }
    assert text + "" == text;
  }

  method CountRun(p: string, i: nat) returns (n: nat)
    requires i < |p|
    ensures n == RunLength(p, i)
  {
    n := 1;
    while i + n < |p| && p[i + n] == p[i]
      invariant 1 <= n <= |p| - i && p[i + n - 1] == p[i]
      invariant RunLength(p, i) == n - 1 + RunLength(p, i + n - 1)
    {
      n := n + 1;
    }
  }

  // ---- Reading ----

  /** `n` digits at `i` as a number, and where they end; -1 when they are not all digits. */
  function DigitsFrom(s: string, i: nat, n: nat, v: int): int
    requires i + n <= |s|
    decreases n
  {
    if n == 0 then v
    else if '0' <= s[i] <= '9' then DigitsFrom(s, i + 1, n - 1, v * 10 + (s[i] - '0') as int)
    else -1
  }

  function IsoDigits(s: string, i: nat, n: nat): (int, nat)
  {
    if i + n > |s| then (-1, i)
    else
      var v := DigitsFrom(s, i, n, 0);
      (v, if v == -1 then i else i + n)
  }

  lemma {:induction false} DigitsAreNumbers(s: string, i: nat, n: nat, v: int)
    requires i + n <= |s| && v >= 0
    ensures DigitsFrom(s, i, n, v) >= -1
    decreases n
  {
    if n > 0 && '0' <= s[i] <= '9' { DigitsAreNumbers(s, i + 1, n - 1, v * 10 + (s[i] - '0') as int); }
  }

  method ReadDigits(s: string, i0: nat, n: nat) returns (v: int, i: nat)
    ensures (v, i) == IsoDigits(s, i0, n)
  {
    i := i0;
    if i + n > |s| { return -1, i; }
    v := 0;
    var k: nat := 0;
    while k < n
      invariant k <= n && v >= 0 && DigitsFrom(s, i0, n, 0) == DigitsFrom(s, i0 + k, n - k, v)
    {
      var c := s[i + k];
      if c < '0' || c > '9' { return -1, i; }
      v := v * 10 + (c - '0') as int;
      k := k + 1;
    }
    i := i + n;
  }

  predicate At(s: string, i: nat, c: char) { i < |s| && s[i] == c }

  /** A separator and two digits; -1 without the separator. */
  function Part(s: string, i: nat, sep: char): (int, nat)
  {
    if At(s, i, sep) then IsoDigits(s, i + 1, 2) else (-1, i)
  }

  method ReadPart(s: string, i0: nat, sep: char) returns (v: int, i: nat)
    ensures (v, i) == Part(s, i0, sep)
  {
    v, i := -1, i0;
    if At(s, i, sep) { v, i := ReadDigits(s, i + 1, 2); }
  }

  /** The first six decimals, and where the digits end. */
  function Decimals(s: string, i: nat, digits: nat, frac: int): (int, nat)
    decreases |s| - i
  {
    if i < |s| && '0' <= s[i] <= '9'
    then Decimals(s, i + 1, digits + 1, if digits < 6 then frac * 10 + (s[i] - '0') as int else frac)
    else (ScaleTo6(frac, digits), i)
  }

  function ScaleTo6(frac: int, digits: nat): int
    decreases 6 - digits
  {
    if digits >= 6 then frac else ScaleTo6(frac * 10, digits + 1)
  }

  method ReadDecimals(s: string, i0: nat) returns (frac: int, i: nat)
    ensures (frac, i) == Decimals(s, i0, 0, 0)
  {
    frac, i := 0, i0;
    var digits: nat := 0;
    while i < |s| && '0' <= s[i] <= '9'
      invariant i0 <= i && Decimals(s, i0, 0, 0) == Decimals(s, i, digits, frac)
    {
      if digits < 6 { frac := frac * 10 + (s[i] - '0') as int; }
      i, digits := i + 1, digits + 1;
    }
    while digits < 6
      invariant Decimals(s, i0, 0, 0) == (ScaleTo6(frac, digits), i)
    {
      frac, digits := frac * 10, digits + 1;
    }
  }

  /** The offset from UTC in seconds, if `i` begins a zone that ends the text. */
  function Zone(s: string, i: nat): (bool, int)
    requires i < |s|
  {
    if s[i] == 'Z' || s[i] == 'z' then (i + 1 == |s|, 0)
    else if s[i] == '+' || s[i] == '-' then
      var (oh, i1) := IsoDigits(s, i + 1, 2);
      var (om, i2) := IsoDigits(s, if At(s, i1, ':') then i1 + 1 else i1, 2);
      (0 <= oh <= 23 && 0 <= om <= 59 && i2 == |s|, (if s[i] == '-' then -1 else 1) * (oh * 3600 + om * 60))
    else (false, 0)
  }

  datatype Clock = Clock(valid: bool, year: int, month: int, day: int, hour: int, minute: int, second: int, frac: int, next: nat)

  function DatePart(s: string): Clock
  {
    var (y, i1) := IsoDigits(s, 0, 4);
    var (mo, i2) := Part(s, i1, '-');
    var (d, i3) := Part(s, i2, '-');
    Clock(y >= 0 && 1 <= mo <= 12 && 1 <= d <= 31 && (At(s, i3, 'T') || At(s, i3, ' ')), y, mo, d, 0, 0, 0, 0, i3 + 1)
  }

  function TimePart(s: string, c: Clock): Clock
  {
    var (h, i1) := IsoDigits(s, c.next, 2);
    var (mi, i2) := Part(s, i1, ':');
    var (sec, i3) := if At(s, i2, ':') then IsoDigits(s, i2 + 1, 2) else (0, i2);
    var dot := At(s, i3, '.') || At(s, i3, ',');
    var (frac, i4) := if dot then Decimals(s, i3 + 1, 0, 0) else (0, i3);
    c.(valid := c.valid && 0 <= h <= 23 && 0 <= mi <= 59 && 0 <= sec <= 60 && (dot ==> i4 > i3 + 1),
       hour := h, minute := mi, second := sec, frac := frac, next := i4)
  }

  /** Microseconds since 1970; 0 when the text is no date and time. */
  function ParsedMicros(s: string, fromLocal: Clock -> int): int
  {
    var c := TimePart(s, DatePart(s));
    if !c.valid then 0
    else if c.next >= |s| then fromLocal(c) * 1000000 + c.frac
    else
      var (ok, offset) := Zone(s, c.next);
      if !ok then 0
      else (DaysFromCivil(c.year, c.month, c.day) * 86400 + c.hour * 3600 + c.minute * 60 + c.second - offset) * 1000000 + c.frac
  }

  method ReadDate(s: string) returns (c: Clock)
    ensures c == DatePart(s)
  {
    var y, i := ReadDigits(s, 0, 4);
    var mo, d;
    mo, i := ReadPart(s, i, '-');
    d, i := ReadPart(s, i, '-');
    var ok := y >= 0 && 1 <= mo <= 12 && 1 <= d <= 31 && i < |s| && (s[i] == 'T' || s[i] == ' ');
    c := Clock(ok, y, mo, d, 0, 0, 0, 0, i + 1);
  }

  method ReadTime(s: string, c0: Clock) returns (c: Clock)
    ensures c == TimePart(s, c0)
  {
    var h, i := ReadDigits(s, c0.next, 2);
    var mi;
    mi, i := ReadPart(s, i, ':');
    var sec := 0;
    if At(s, i, ':') { sec, i := ReadDigits(s, i + 1, 2); }
    var frac, ok := 0, true;
    if i < |s| && (s[i] == '.' || s[i] == ',') {
      var from := i + 1;
      frac, i := ReadDecimals(s, from);
      ok := i > from;
    }
    c := c0.(valid := c0.valid && 0 <= h <= 23 && 0 <= mi <= 59 && 0 <= sec <= 60 && ok,
             hour := h, minute := mi, second := sec, frac := frac, next := i);
  }

  method ParseIsoMicros(s: string, fromLocal: Clock -> int) returns (micros: int)
    ensures micros == ParsedMicros(s, fromLocal)
  {
    hide IsoDigits, Part, Decimals, DaysFromCivil, DatePart, TimePart;
    var c := ReadDate(s);
    c := ReadTime(s, c);
    if !c.valid { return 0; }
    var i := c.next;
    if i >= |s| { return fromLocal(c) * 1000000 + c.frac; }
    var offset := 0;
    if s[i] == 'Z' || s[i] == 'z' {
      i := i + 1;
    } else if s[i] == '+' || s[i] == '-' {
      var sign := if s[i] == '-' then -1 else 1;
      var oh, om;
      oh, i := ReadDigits(s, i + 1, 2);
      if At(s, i, ':') { i := i + 1; }
      om, i := ReadDigits(s, i, 2);
      if oh < 0 || oh > 23 || om < 0 || om > 59 { return 0; }
      offset := sign * (oh * 3600 + om * 60);
    } else {
      return 0;
    }
    if i != |s| { return 0; }
    micros := (DaysFromCivil(c.year, c.month, c.day) * 86400 + c.hour * 3600 + c.minute * 60 + c.second - offset) * 1000000 + c.frac;
  }

  // ---- Printing, then reading ----

  const ISO := "yyyy-MM-dd'T'HH:mm:ss'Z'"

  function IsoText(t: CivilTime): string
  {
    Num(t.year, 1) + "-" + Num(t.month, 2) + "-" + Num(t.day, 2) + "T"
    + Num(t.hour, 2) + ":" + Num(t.minute, 2) + ":" + Num(t.second, 2) + "Z"
  }

  lemma LetterStep(c: CivilTime, names: Names, p: string, i: nat, n: nat, rest: string)
    requires i < |p| && p[i] != '\'' && p[i] != 'A' && RunLength(p, i) == n && Formatted(c, names, p, i + n) == rest
    ensures Formatted(c, names, p, i) == Field(c, names, p[i], n, p[i..i + n]) + rest
  {
    hide Field, RunLength;
  }

  lemma QuoteStep(c: CivilTime, names: Names, p: string, i: nat, text: string, end: nat, rest: string)
    requires i + 1 < |p| && p[i] == '\'' && p[i + 1] != '\'' && Quoted(p, i + 1) == (text, end)
    requires Formatted(c, names, p, end + 1) == rest
    ensures Formatted(c, names, p, i) == text + rest
  {
    hide Field, RunLength, Quoted;
  }

  /** What printing needs to know of the pattern's pieces. */
  predicate IsoShape(p: string)
  {
    && |p| == 24
    && p[0..4] == "yyyy" && p[4..5] == "-" && p[5..7] == "MM" && p[7..8] == "-" && p[8..10] == "dd"
    && p[13..15] == "HH" && p[15..16] == ":" && p[16..18] == "mm" && p[18..19] == ":" && p[19..21] == "ss"
    && p[0] == 'y' && p[4] == '-' && p[5] == 'M' && p[7] == '-' && p[8] == 'd' && p[10] == '\'' && p[11] == 'T'
    && p[13] == 'H' && p[15] == ':' && p[16] == 'm' && p[18] == ':' && p[19] == 's' && p[21] == '\'' && p[22] == 'Z'
    && RunLength(p, 0) == 4 && RunLength(p, 5) == 2 && RunLength(p, 8) == 2
    && RunLength(p, 13) == 2 && RunLength(p, 16) == 2 && RunLength(p, 19) == 2
    && RunLength(p, 4) == 1 && RunLength(p, 7) == 1 && RunLength(p, 15) == 1 && RunLength(p, 18) == 1
    && Quoted(p, 11) == ("T", 12) && Quoted(p, 22) == ("Z", 23)
  }

  lemma OneLetter(p: string, i: nat)
    requires i < |p| && (i + 1 == |p| || p[i + 1] != p[i])
    ensures RunLength(p, i) == 1
  {
  }

  lemma TwoLetters(p: string, i: nat)
    requires i + 1 < |p| && p[i + 1] == p[i] && (i + 2 == |p| || p[i + 2] != p[i])
    ensures RunLength(p, i) == 2
  {
    OneLetter(p, i + 1);
  }

  lemma QuotedLetter(p: string, i: nat)
    requires i + 1 < |p| && p[i] != '\'' && p[i + 1] == '\'' && (i + 2 == |p| || p[i + 2] != '\'')
    ensures Quoted(p, i) == ([p[i]], i + 1)
  {
    assert Quoted(p, i + 1) == ("", i + 1);
    assert [p[i]] + "" == [p[i]];
  }

  predicate IsoLetters(p: string)
  {
    && |p| == 24 && p[0] == p[1] == p[2] == p[3] == 'y' && p[4] == p[7] == '-' && p[5] == p[6] == 'M' && p[8] == p[9] == 'd'
    && p[10] == p[12] == p[21] == p[23] == '\'' && p[11] == 'T' && p[13] == p[14] == 'H' && p[15] == p[18] == ':'
    && p[16] == p[17] == 'm' && p[19] == p[20] == 's' && p[22] == 'Z'
  }

  lemma IsoHasShape()
    ensures IsoShape(ISO)
  {
    hide IsoShape;
    assert IsoLetters(ISO);
    LettersGiveShape(ISO);
  }

  lemma TextsOfLetters(p: string)
    requires IsoLetters(p)
    ensures p[0..4] == "yyyy" && p[4..5] == "-" && p[5..7] == "MM" && p[7..8] == "-" && p[8..10] == "dd"
    ensures p[13..15] == "HH" && p[15..16] == ":" && p[16..18] == "mm" && p[18..19] == ":" && p[19..21] == "ss"
  {
  }

  lemma LettersGiveShape(p: string)
    requires IsoLetters(p)
    ensures IsoShape(p)
  {
    hide RunLength, Quoted;
    TextsOfLetters(p);
    TwoLetters(p, 2);
    FourLetters(p);
    TwoLetters(p, 5);
    TwoLetters(p, 8);
    TwoLetters(p, 13);
    TwoLetters(p, 16);
    TwoLetters(p, 19);
    OneLetter(p, 4);
    OneLetter(p, 7);
    OneLetter(p, 15);
    OneLetter(p, 18);
    QuotedLetter(p, 11);
    QuotedLetter(p, 22);
  }

  lemma FourLetters(p: string)
    requires |p| > 3 && p[0] == p[1] == p[2] && RunLength(p, 2) == 2
    ensures RunLength(p, 0) == 4
  {
    assert RunLength(p, 1) == 3;
  }

  lemma TimeFormatted(c: CivilTime, names: Names, p: string)
    requires IsoShape(p)
    ensures Formatted(c, names, p, 10)
            == "T" + (Num(c.hour, 2) + (":" + (Num(c.minute, 2) + (":" + (Num(c.second, 2) + ("Z" + ""))))))
  {
    assert Formatted(c, names, p, 24) == "";
    hide Formatted, Quoted, RunLength, Num;
    QuoteStep(c, names, p, 21, "Z", 23, "");
    var zone := "Z" + "";
    LetterStep(c, names, p, 19, 2, zone);
    var secs := Num(c.second, 2) + zone;
    LetterStep(c, names, p, 18, 1, secs);
    LetterStep(c, names, p, 16, 2, ":" + secs);
    var mins := Num(c.minute, 2) + (":" + secs);
    LetterStep(c, names, p, 15, 1, mins);
    LetterStep(c, names, p, 13, 2, ":" + mins);
    QuoteStep(c, names, p, 10, "T", 12, Num(c.hour, 2) + (":" + mins));
  }

  lemma DateFormatted(c: CivilTime, names: Names, p: string, time: string)
    requires IsoShape(p) && Formatted(c, names, p, 10) == time
    ensures Formatted(c, names, p, 0)
            == Num(c.year, 1) + ("-" + (Num(c.month, 2) + ("-" + (Num(c.day, 2) + time))))
  {
    hide Formatted, Quoted, RunLength, Num;
    LetterStep(c, names, p, 8, 2, time);
    var day := Num(c.day, 2) + time;
    LetterStep(c, names, p, 7, 1, day);
    LetterStep(c, names, p, 5, 2, "-" + day);
    var month := Num(c.month, 2) + ("-" + day);
    LetterStep(c, names, p, 4, 1, month);
    LetterStep(c, names, p, 0, 4, "-" + month);
  }

  lemma IsoPattern(c: CivilTime, names: Names)
    ensures Formatted(c, names, ISO, 0) == IsoText(c)
  {
    hide Formatted, IsoShape, Num;
    IsoHasShape();
    TimeFormatted(c, names, ISO);
    DateFormatted(c, names, ISO, Formatted(c, names, ISO, 10));
    Together(Num(c.year, 1), Num(c.month, 2), Num(c.day, 2), Num(c.hour, 2), Num(c.minute, 2), Num(c.second, 2));
  }

  lemma Together(y: string, mo: string, d: string, h: string, mi: string, s: string)
    ensures y + ("-" + (mo + ("-" + (d + ("T" + (h + (":" + (mi + (":" + (s + ("Z" + "")))))))))))
            == y + "-" + mo + "-" + d + "T" + h + ":" + mi + ":" + s + "Z"
  {
  }

  lemma DigitStep(s: string, i: nat, n: nat, v: int, d: int)
    requires i + n <= |s| && n > 0 && 0 <= d <= 9 && s[i] == Digit(d)
    ensures DigitsFrom(s, i, n, v) == DigitsFrom(s, i + 1, n - 1, v * 10 + d)
  {
  }

  lemma ReadTwo(s: string, i: nat, v: int)
    requires i + 2 <= |s| && 0 <= v <= 99 && s[i] == Digit(v / 10) && s[i + 1] == Digit(v % 10)
    ensures IsoDigits(s, i, 2) == (v, i + 2)
  {
    DigitStep(s, i, 2, 0, v / 10);
    DigitStep(s, i + 1, 1, v / 10, v % 10);
    assert DigitsFrom(s, i + 2, 0, v) == v;
    hide DigitsFrom, Digit;
  }

  lemma ReadFour(s: string, v: int)
    requires |s| >= 4 && 1000 <= v <= 9999
    requires s[0] == Digit(v / 1000) && s[1] == Digit(v / 100 % 10) && s[2] == Digit(v / 10 % 10) && s[3] == Digit(v % 10)
    ensures IsoDigits(s, 0, 4) == (v, 4)
  {
    LastDigit(v);
    LastDigit(v / 10);
    LastDigit(v / 100);
    FourFrom(s, v / 1000, v / 100 % 10, v / 10 % 10, v % 10);
  }

  lemma LastDigit(v: int)
    requires v >= 0
    ensures v / 10 * 10 + v % 10 == v && v / 10 / 10 == v / 100 && v / 100 / 10 == v / 1000
  {
  }

  lemma FourFrom(s: string, a: int, b: int, c: int, d: int)
    requires |s| >= 4 && 0 <= a <= 9 && 0 <= b <= 9 && 0 <= c <= 9 && 0 <= d <= 9
    requires s[0] == Digit(a) && s[1] == Digit(b) && s[2] == Digit(c) && s[3] == Digit(d)
    ensures IsoDigits(s, 0, 4) == (a * 1000 + b * 100 + c * 10 + d, 4)
  {
    var v := a * 1000 + b * 100 + c * 10 + d;
    assert DigitsFrom(s, 4, 0, v) == v;
    hide DigitsFrom, Digit;
    DigitStep(s, 0, 4, 0, a);
    DigitStep(s, 1, 3, a, b);
    DigitStep(s, 2, 2, a * 10 + b, c);
    DigitStep(s, 3, 1, a * 100 + b * 10 + c, d);
  }

  /** Where the printed fields stand. */
  lemma IsoTextAt(t: CivilTime)
    requires 1000 <= t.year <= 9999 && 0 <= t.month <= 99 && 0 <= t.day <= 99
    requires 0 <= t.hour <= 99 && 0 <= t.minute <= 99 && 0 <= t.second <= 99
    ensures var s := IsoText(t);
            && |s| == 20 && s[4] == s[7] == '-' && s[10] == 'T' && s[13] == s[16] == ':' && s[19] == 'Z'
            && s[..4] == Num(t.year, 1) && s[5..7] == Num(t.month, 2) && s[8..10] == Num(t.day, 2)
            && s[11..13] == Num(t.hour, 2) && s[14..16] == Num(t.minute, 2) && s[17..19] == Num(t.second, 2)
  {
    hide Num;
    FourDigits(t.year);
    TwoDigits(t.month);
    TwoDigits(t.day);
    TwoDigits(t.hour);
    TwoDigits(t.minute);
    TwoDigits(t.second);
  }

  lemma ReadTwoAt(s: string, i: nat, v: int)
    requires i + 2 <= |s| && 0 <= v <= 99 && s[i..i + 2] == Num(v, 2)
    ensures IsoDigits(s, i, 2) == (v, i + 2)
  {
    TwoDigits(v);
    assert s[i] == s[i..i + 2][0] && s[i + 1] == s[i..i + 2][1];
    ReadTwo(s, i, v);
  }

  lemma ReadFourAt(s: string, v: int)
    requires |s| >= 4 && 1000 <= v <= 9999 && s[..4] == Num(v, 1)
    ensures IsoDigits(s, 0, 4) == (v, 4)
  {
    FourDigits(v);
    assert s[0] == s[..4][0] && s[1] == s[..4][1] && s[2] == s[..4][2] && s[3] == s[..4][3];
    ReadFour(s, v);
  }

  /** A printed date and time reads as its fields. */
  lemma IsoTextReads(t: CivilTime)
    requires 1000 <= t.year <= 9999 && 1 <= t.month <= 12 && 1 <= t.day <= 31
    requires 0 <= t.hour <= 23 && 0 <= t.minute <= 59 && 0 <= t.second <= 59
    ensures TimePart(IsoText(t), DatePart(IsoText(t)))
            == Clock(true, t.year, t.month, t.day, t.hour, t.minute, t.second, 0, 19)
  {
    hide IsoDigits, IsoText, Num;
    var s := IsoText(t);
    IsoTextAt(t);
    ReadFourAt(s, t.year);
    ReadTwoAt(s, 5, t.month);
    ReadTwoAt(s, 8, t.day);
    ReadTwoAt(s, 11, t.hour);
    ReadTwoAt(s, 14, t.minute);
    ReadTwoAt(s, 17, t.second);
  }

  /** Printing an instant of the years 1000 to 9999 in ISO form and reading it back gives the instant. */
  lemma IsoRoundTrip(secs: int, names: Names, fromLocal: Clock -> int)
    requires 1000 <= UtcTime(secs).year <= 9999
    ensures ParsedMicros(Formatted(UtcTime(secs), names, ISO, 0), fromLocal) == secs * 1000000
  {
    hide UtcTime, DaysFromCivil, Formatted, IsoText, TimePart, DatePart, DaysIn;
    var t := UtcTime(secs);
    UtcTimeRecomposes(secs);
    IsoPattern(t, names);
    MonthsAreShort(t.year, t.month);
    IsoTextReads(t);
    IsoTextAt(t);
  }

  lemma MonthsAreShort(y: int, m: int)
    ensures DaysIn(y, m) <= 31
  {
  }

  // ---- Reading any spelling ----

  datatype ZoneText = Utc(letter: char) | Offset(sign: char, hours: int, minutes: int, colon: bool)

  /** A date and time as it may be written: seconds, a fraction and the colon of the zone may be missing. */
  datatype Stamp = Stamp(year: int, month: int, day: int, sep: char, hour: int, minute: int, second: Option<int>,
                         frac: Option<(char, string)>, zone: ZoneText)

  function Two(v: int): string
    requires 0 <= v <= 99
  {
    [Digit(v / 10), Digit(v % 10)]
  }

  function Four(v: int): string
    requires 0 <= v <= 9999
  {
    [Digit(v / 1000), Digit(v / 100 % 10), Digit(v / 10 % 10), Digit(v % 10)]
  }

  predicate Digits(s: string) { forall i :: 0 <= i < |s| ==> '0' <= s[i] <= '9' }

  predicate GoodZone(z: ZoneText)
  {
    match z
    case Utc(c) => c in {'Z', 'z'}
    case Offset(sign, h, m, _) => sign in {'+', '-'} && 0 <= h <= 99 && 0 <= m <= 99
  }

  /** The fields have their digits and the marks are those the parser knows. */
  predicate Written(t: Stamp)
  {
    && 0 <= t.year <= 9999 && 0 <= t.month <= 99 && 0 <= t.day <= 99 && t.sep in {'T', ' '}
    && 0 <= t.hour <= 99 && 0 <= t.minute <= 99 && (t.second.Some? ==> 0 <= t.second.value <= 99)
    && (t.frac.Some? ==> t.frac.value.0 in {'.', ','} && t.frac.value.1 != "" && Digits(t.frac.value.1))
    && GoodZone(t.zone)
  }

  /** The fields are within a day and a year; a leap second is let through, the day is checked against 31 only. */
  predicate InRange(t: Stamp)
  {
    && 1 <= t.month <= 12 && 1 <= t.day <= 31 && t.hour <= 23 && t.minute <= 59 && (t.second.Some? ==> t.second.value <= 60)
    && (t.zone.Offset? ==> t.zone.hours <= 23 && t.zone.minutes <= 59)
  }

  function ZoneOf(z: ZoneText): string
    requires z.Offset? ==> 0 <= z.hours <= 99 && 0 <= z.minutes <= 99
  {
    match z
    case Utc(c) => [c]
    case Offset(sign, h, m, colon) => [sign] + (Two(h) + ((if colon then ":" else "") + Two(m)))
  }

  function FracOf(t: Stamp): string { if t.frac.Some? then [t.frac.value.0] + t.frac.value.1 else "" }

  function SecondsOf(t: Stamp): string
    requires Written(t)
  {
    if t.second.Some? then ":" + Two(t.second.value) else ""
  }

  function StampText(t: Stamp): string
    requires Written(t)
  {
    Four(t.year) + ("-" + (Two(t.month) + ("-" + (Two(t.day) + ([t.sep]
    + (Two(t.hour) + (":" + (Two(t.minute) + (SecondsOf(t) + (FracOf(t) + ZoneOf(t.zone)))))))))))
  }

  /** The value of a decimal numeral. */
  function ValueOf(ds: string): int
    requires Digits(ds)
  {
    if ds == "" then 0 else ValueOf(ds[..|ds| - 1]) * 10 + (ds[|ds| - 1] - '0') as int
  }

  /** A fraction's first six digits, zeros for those that are missing. */
  function MicrosOf(ds: string): int
    requires Digits(ds)
  {
    ValueOf((ds + "000000")[..6])
  }

  function OffsetOf(z: ZoneText): int { if z.Utc? then 0 else (if z.sign == '-' then -1 else 1) * (z.hours * 3600 + z.minutes * 60) }

  /** The microseconds it names. */
  function MicrosNamed(t: Stamp): int
    requires Written(t)
  {
    var second := if t.second.Some? then t.second.value else 0;
    (DaysFromCivil(t.year, t.month, t.day) * 86400 + t.hour * 3600 + t.minute * 60 + second - OffsetOf(t.zone)) * 1000000
    + if t.frac.Some? then MicrosOf(t.frac.value.1) else 0
  }

  lemma TwoReads(s: string, i: nat, v: int, rest: string)
    requires i <= |s| && 0 <= v <= 99 && s[i..] == Two(v) + rest
    ensures i + 2 <= |s| && IsoDigits(s, i, 2) == (v, i + 2) && s[i + 2..] == rest
  {
    assert s[i] == s[i..][0] == Digit(v / 10) && s[i + 1] == s[i..][1] == Digit(v % 10);
    assert s[i + 2..] == s[i..][2..];
    ReadTwo(s, i, v);
  }

  lemma FourReads(s: string, v: int, rest: string)
    requires 0 <= v <= 9999 && s == Four(v) + rest
    ensures |s| >= 4 && IsoDigits(s, 0, 4) == (v, 4) && s[4..] == rest
  {
    LastDigit(v);
    LastDigit(v / 10);
    LastDigit(v / 100);
    FourFrom(s, v / 1000, v / 100 % 10, v / 10 % 10, v % 10);
  }

  lemma MarkReads(s: string, i: nat, c: char, rest: string)
    requires i <= |s| && s[i..] == [c] + rest
    ensures i < |s| && s[i] == c && s[i + 1..] == rest
  {
    assert s[i] == s[i..][0];
    assert s[i + 1..] == s[i..][1..];
  }

  /** A mark and two digits. */
  lemma PartReads(s: string, i: nat, sep: char, v: int, rest: string)
    requires i <= |s| && 0 <= v <= 99 && s[i..] == [sep] + (Two(v) + rest)
    ensures i + 3 <= |s| && Part(s, i, sep) == (v, i + 3) && s[i + 3..] == rest
  {
    hide IsoDigits, Two;
    MarkReads(s, i, sep, Two(v) + rest);
    TwoReads(s, i + 1, v, rest);
  }

  lemma DateReads(t: Stamp) returns (rest: string)
    requires Written(t)
    ensures rest == Two(t.hour) + (":" + (Two(t.minute) + (SecondsOf(t) + (FracOf(t) + ZoneOf(t.zone)))))
    ensures var s, c := StampText(t), DatePart(StampText(t));
            && |s| >= 11 && s[11..] == rest
            && c == Clock(1 <= t.month <= 12 && 1 <= t.day <= 31, t.year, t.month, t.day, 0, 0, 0, 0, 11)
  {
    hide IsoDigits, Two, Four, Part, SecondsOf, FracOf, ZoneOf;
    var s := StampText(t);
    rest := Two(t.hour) + (":" + (Two(t.minute) + (SecondsOf(t) + (FracOf(t) + ZoneOf(t.zone)))));
    var r3 := [t.sep] + rest;
    var r2 := Two(t.day) + r3;
    var r1 := "-" + (Two(t.month) + ("-" + r2));
    FourReads(s, t.year, r1);
    PartReads(s, 4, '-', t.month, "-" + r2);
    PartReads(s, 7, '-', t.day, r3);
    MarkReads(s, 10, t.sep, rest);
  }

  /** The scale of what was read of a fraction: its value so far, and how many digits it has. */
  lemma {:induction false} ScalesUp(p: string, k: nat)
    requires Digits(p) && |p| == (if k < 6 then k else 6)
    ensures ScaleTo6(ValueOf(p), k) == ValueOf((p + "000000")[..6])
    decreases 6 - k
  {
    if k >= 6 {
      assert (p + "000000")[..6] == p;
    } else {
      var q := p + "0";
      assert q[..k] == p;
      ScalesUp(q, k + 1);
      assert (p + "000000")[..6] == (q + "000000")[..6];
    }
  }

  lemma {:induction false} DecimalsRead(s: string, i: nat, done: string, ds: string, rest: string)
    requires i <= |s| && s[i..] == ds + rest && Digits(done) && Digits(ds) && (rest == "" || !('0' <= rest[0] <= '9'))
    ensures var p := if |done| < 6 then done else done[..6];
            Decimals(s, i, |done|, ValueOf(p)) == (MicrosOf(done + ds), i + |ds|)
    decreases |ds|
  {
    var p := if |done| < 6 then done else done[..6];
    if ds == "" {
      assert s[i..] == rest && done + ds == done;
      assert rest != "" ==> s[i] == rest[0];
      ScalesUp(p, |done|);
      assert (p + "000000")[..6] == (done + "000000")[..6];
    } else {
      var next := done + [ds[0]];
      assert s[i] == s[i..][0] == ds[0];
      assert s[i + 1..] == s[i..][1..] == ds[1..] + rest;
      assert done + ds == next + ds[1..];
      var q := if |next| < 6 then next else next[..6];
      NextDigit(done, ds[0]);
      hide ValueOf, MicrosOf, ScaleTo6;
      DecimalsRead(s, i + 1, next, ds[1..], rest);
    }
  }

  /** A digit more changes what was read only while there are fewer than six. */
  lemma NextDigit(done: string, d: char)
    requires Digits(done) && '0' <= d <= '9'
    ensures var next := done + [d];
            var p, q := if |done| < 6 then done else done[..6], if |next| < 6 then next else next[..6];
            Digits(next) && ValueOf(q) == if |done| < 6 then ValueOf(p) * 10 + (d - '0') as int else ValueOf(p)
  {
    var next := done + [d];
    if |done| < 6 {
      assert next[..|done|] == done;
      assert |next| == 6 ==> next[..6] == next;
    } else {
      assert next[..6] == done[..6];
    }
  }

  /** What may follow the minutes or seconds, and what the parser makes of it. */
  lemma FractionReads(s: string, i: nat, t: Stamp)
    requires Written(t) && i <= |s| && s[i..] == FracOf(t) + ZoneOf(t.zone)
    ensures var dot := At(s, i, '.') || At(s, i, ',');
            var (frac, j) := if dot then Decimals(s, i + 1, 0, 0) else (0, i);
            && (dot <==> t.frac.Some?) && (dot ==> j > i + 1) && j <= |s| && s[j..] == ZoneOf(t.zone)
            && frac == if t.frac.Some? then MicrosOf(t.frac.value.1) else 0
    ensures !At(s, i, ':')
  {
    hide MicrosOf, ZoneOf, Decimals;
    var z := ZoneOf(t.zone);
    ZoneStarts(t.zone);
    if t.frac.Some? {
      var (c, ds) := t.frac.value;
      Grouped([c], ds, z);
      MarkReads(s, i, c, ds + z);
      FractionDigits(s, i + 1, ds, z);
    } else {
      assert "" + z == z;
      assert s[i] == s[i..][0] == z[0];
    }
  }

  lemma FractionDigits(s: string, i: nat, ds: string, rest: string)
    requires i <= |s| && s[i..] == ds + rest && Digits(ds) && (rest == "" || !('0' <= rest[0] <= '9'))
    ensures Decimals(s, i, 0, 0) == (MicrosOf(ds), i + |ds|) && i + |ds| <= |s| && s[i + |ds|..] == rest
  {
    hide MicrosOf, Decimals;
    DecimalsRead(s, i, "", ds, rest);
    assert "" + ds == ds && ValueOf("") == 0;
    assert s[i + |ds|..] == s[i..][|ds|..];
  }

  lemma Grouped(a: string, b: string, c: string)
    ensures a + b + c == a + (b + c)
  {
  }

  lemma ZoneStarts(z: ZoneText)
    requires GoodZone(z)
    ensures ZoneOf(z) != "" && ZoneOf(z)[0] in {'Z', 'z', '+', '-'}
  {
  }

  lemma TimeReads(t: Stamp)
    requires Written(t)
    ensures var s := StampText(t);
            var c := TimePart(s, DatePart(s));
            && (c.valid <==> 1 <= t.month <= 12 && 1 <= t.day <= 31 && t.hour <= 23 && t.minute <= 59 && (t.second.Some? ==> t.second.value <= 60))
            && (c.year, c.month, c.day, c.hour, c.minute) == (t.year, t.month, t.day, t.hour, t.minute)
            && c.second == (if t.second.Some? then t.second.value else 0)
            && c.frac == (if t.frac.Some? then MicrosOf(t.frac.value.1) else 0)
            && c.next < |s| && s[c.next..] == ZoneOf(t.zone)
  {
    hide IsoDigits, Two, Part, FracOf, ZoneOf, Decimals, StampText, MicrosOf;
    var s := StampText(t);
    var rest := DateReads(t);
    var r2 := SecondsOf(t) + (FracOf(t) + ZoneOf(t.zone));
    TwoReads(s, 11, t.hour, ":" + (Two(t.minute) + r2));
    PartReads(s, 13, ':', t.minute, r2);
    ZoneStarts(t.zone);
    if t.second.Some? {
      var r3 := FracOf(t) + ZoneOf(t.zone);
      Grouped(":", Two(t.second.value), r3);
      MarkReads(s, 16, ':', Two(t.second.value) + r3);
      TwoReads(s, 17, t.second.value, r3);
      FractionReads(s, 19, t);
    } else {
      assert r2 == FracOf(t) + ZoneOf(t.zone);
      FractionReads(s, 16, t);
    }
  }

  lemma ZoneReads(s: string, i: nat, z: ZoneText)
    requires i < |s| && GoodZone(z) && s[i..] == ZoneOf(z)
    ensures Zone(s, i).0 <==> (z.Offset? ==> z.hours <= 23 && z.minutes <= 59)
    ensures Zone(s, i).0 ==> Zone(s, i).1 == OffsetOf(z)
  {
    hide IsoDigits, Two;
    match z {
      case Utc(c) => MarkReads(s, i, c, "");
      case Offset(sign, h, m, colon) =>
        var r := (if colon then ":" else "") + Two(m);
        assert Two(m) + "" == Two(m);
        MarkReads(s, i, sign, Two(h) + r);
        TwoReads(s, i + 1, h, r);
        if colon {
          MarkReads(s, i + 3, ':', Two(m));
          TwoReads(s, i + 4, m, "");
        } else {
          assert r == Two(m);
          NoColon(s, i + 3, m);
          TwoReads(s, i + 3, m, "");
        }
    }
  }

  lemma NoColon(s: string, i: nat, m: int)
    requires i <= |s| && 0 <= m <= 99 && s[i..] == Two(m)
    ensures !At(s, i, ':')
  {
    assert s[i] == s[i..][0] == Digit(m / 10);
  }

  /**
   * A date and time with a zone, however it is written, is read as the
   * microseconds it names, its offset taken off and its fraction cut at six
   * digits; as 0 when a field is out of range.
   */
  lemma StampReads(t: Stamp, fromLocal: Clock -> int)
    requires Written(t)
    ensures ParsedMicros(StampText(t), fromLocal) == if InRange(t) then MicrosNamed(t) else 0
  {
    hide IsoDigits, StampText, ZoneOf, Zone, TimePart, DatePart, DaysFromCivil, MicrosOf;
    var s := StampText(t);
    var c := TimePart(s, DatePart(s));
    TimeReads(t);
    ZoneReads(s, c.next, t.zone);
  }

  /** The hours of a twelve-hour clock: 12, 1, 2 and so on to 11, twice a day. */
  lemma TwelveHours(c: CivilTime, names: Names, n: nat)
    requires 0 <= c.hour <= 23 && 1 <= n <= 2
    ensures exists h :: 1 <= h <= 12 && (h == c.hour || h == c.hour - 12 || h == c.hour + 12) && Field(c, names, 'h', n, "") == Num(h, n)
  {
    hide Num;
    var h := if c.hour % 12 == 0 then 12 else c.hour % 12;
    assert Field(c, names, 'h', n, "") == Num(h, n);
  }
}
