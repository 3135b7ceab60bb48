/**
 * Bidirectional levels of a paragraph (src/text/unicode.cpp, resolveBidi). Each
 * rule of UAX #9, sections 3.3.4 to 3.3.6 and L1, is stated by what surrounds a
 * character; the code's loops rewrite the types in place.
 */
module Bidi {
  datatype Class = L | R | AL | EN | ES | ET | AN | CS | NSM | BN | B | S | WS | ON

  const TAB := 9

  predicate Strong(c: Class) { c.L? || c.R? || c.AL? }

  predicate Neutral(c: Class) { c.B? || c.S? || c.WS? || c.ON? || c.BN? }

  /** European and Arabic numbers count as right-to-left. */
  function Dir(c: Class): Class { if c.L? then L else R }

  // ---- The rules, by position ----

  /** W1: a mark takes the type of the character it follows. */
  function Base(t: seq<Class>, i: nat, sos: Class): Class
    requires i < |t|
  {
    if !t[i].NSM? then t[i] else if i == 0 then sos else Base(t, i - 1, sos)
  }

  function W1(t: seq<Class>, sos: Class): (r: seq<Class>)
    ensures |r| == |t|
  {
    seq(|t|, i requires 0 <= i < |t| => Base(t, i, sos))
  }

  /** The last strong type before `i`. */
  function LastStrong(t: seq<Class>, i: nat, sos: Class): Class
    requires i <= |t|
  {
    if i == 0 then sos else if Strong(t[i - 1]) then t[i - 1] else LastStrong(t, i - 1, sos)
  }

  function W2(t: seq<Class>, sos: Class): (r: seq<Class>)
    ensures |r| == |t|
  {
    seq(|t|, i requires 0 <= i < |t| => if t[i].EN? && LastStrong(t, i, sos).AL? then AN else t[i])
  }

  function W3(t: seq<Class>): (r: seq<Class>)
    ensures |r| == |t|
  {
    seq(|t|, i requires 0 <= i < |t| => if t[i].AL? then R else t[i])
  }

  /** A single separator between two numbers of its kind. */
  function Joined(t: seq<Class>, i: nat): Class
    requires i < |t|
  {
    if i == 0 || i + 1 >= |t| then t[i]
    else if t[i].ES? && t[i - 1].EN? && t[i + 1].EN? then EN
    else if t[i].CS? && t[i - 1] == t[i + 1] && (t[i - 1].EN? || t[i - 1].AN?) then t[i - 1]
    else t[i]
  }

  function W4(t: seq<Class>): (r: seq<Class>)
    ensures |r| == |t|
  {
    seq(|t|, i requires 0 <= i < |t| => Joined(t, i))
  }

  /** What stands before, and after, the terminators around `i`; neutral at the text's ends. */
  function BeforeTerminators(t: seq<Class>, i: nat): Class
    requires i < |t|
  {
    if !t[i].ET? then t[i] else if i == 0 then ON else BeforeTerminators(t, i - 1)
  }

  function AfterTerminators(t: seq<Class>, i: nat): Class
    requires i < |t|
    decreases |t| - i
  {
    if !t[i].ET? then t[i] else if i + 1 == |t| then ON else AfterTerminators(t, i + 1)
  }

  /** W5, and W6 for the terminators left. */
  function W5(t: seq<Class>): (r: seq<Class>)
    ensures |r| == |t|
  {
    seq(|t|, i requires 0 <= i < |t| =>
      if !t[i].ET? then t[i]
      else if BeforeTerminators(t, i).EN? || AfterTerminators(t, i).EN? then EN else ON)
  }

  /** W6 for separators, W7: a European number after L is L. */
  function W67(t: seq<Class>, sos: Class): (r: seq<Class>)
    ensures |r| == |t|
  {
    seq(|t|, i requires 0 <= i < |t| =>
      if t[i].ES? || t[i].CS? then ON else if t[i].EN? && LastStrong(t, i, sos).L? then L else t[i])
  }

  function BeforeNeutrals(t: seq<Class>, i: nat, sos: Class): Class
    requires i < |t|
  {
    if !Neutral(t[i]) then Dir(t[i]) else if i == 0 then sos else BeforeNeutrals(t, i - 1, sos)
  }

  function AfterNeutrals(t: seq<Class>, i: nat, sos: Class): Class
    requires i < |t|
    decreases |t| - i
  {
    if !Neutral(t[i]) then Dir(t[i]) else if i + 1 == |t| then sos else AfterNeutrals(t, i + 1, sos)
  }

  /** N1, N2: neutrals take the direction on both sides, else the paragraph's. */
  function N12(t: seq<Class>, sos: Class): (r: seq<Class>)
    ensures |r| == |t|
  {
    seq(|t|, i requires 0 <= i < |t| =>
      if !Neutral(t[i]) then t[i]
      else if BeforeNeutrals(t, i, sos) == AfterNeutrals(t, i, sos) then BeforeNeutrals(t, i, sos) else sos)
  }

  /** I1, I2. */
  function Implicit(c: Class, para: nat): nat
  {
    if para == 0 then if c.R? then 1 else if c.AN? || c.EN? then 2 else 0
    else if c.R? then 1 else 2
  }

  predicate Whitespace(c: Class) { c.WS? || c.S? || c.B? || c.BN? }

  /** L1: only whitespace follows, from `i` to the end. */
  predicate Trailing(cls: seq<Class>, i: nat) { forall k :: i <= k < |cls| ==> Whitespace(cls[k]) }

  function Sos(para: nat): Class { if para == 0 then L else R }

  function Weak(cls: seq<Class>, sos: Class): (r: seq<Class>)
    ensures |r| == |cls|
  {
    W67(W5(W4(W3(W2(W1(cls, sos), sos)))), sos)
  }

  function Resolved(cls: seq<Class>, para: nat): (r: seq<Class>)
    ensures |r| == |cls|
  {
    N12(Weak(cls, Sos(para)), Sos(para))
  }

  /** The levels all the passes give. */
  function Levels(cps: seq<nat>, cls: seq<Class>, para: nat): (r: seq<nat>)
    requires |cps| == |cls|
    ensures |r| == |cps|
  {
    var t := Resolved(cls, para);
    seq(|cps|, i requires 0 <= i < |cps| => if Trailing(cls, i) || cps[i] == TAB then para else Implicit(t[i], para))
  }

  /** P2, P3: the first strong character; left-to-right when there is none. */
  function Paragraph(cls: seq<Class>): (para: nat)
    ensures para <= 1
  {
    if cls == [] then 0 else if Strong(cls[0]) then if cls[0].L? then 0 else 1 else Paragraph(cls[1..])
  }

  // ---- What the rules say, without the helpers above ----

  /** P2, P3: right-to-left exactly when the first character that is L, R or AL is R or AL. */
  ghost predicate ParagraphIs(cls: seq<Class>, para: nat)
  {
    && para <= 1
    && (para == 1 <==> exists i :: 0 <= i < |cls| && cls[i] in {R, AL} && forall j :: 0 <= j < i ==> cls[j] !in {L, R, AL})
  }

  lemma {:induction false} FirstStrong(cls: seq<Class>)
    ensures ParagraphIs(cls, Paragraph(cls))
  {
    if cls == [] {
    } else if cls[0] in {L, R, AL} {
      assert cls[0] != L ==> cls[0] in {R, AL};
    } else {
      var rest := cls[1..];
      FirstStrong(rest);
      if Paragraph(cls) == 1 {
        var i :| 0 <= i < |rest| && rest[i] in {R, AL} && forall j :: 0 <= j < i ==> rest[j] !in {L, R, AL};
        assert cls[i + 1] in {R, AL} && forall j :: 0 <= j < i + 1 ==> cls[j] !in {L, R, AL} by {
          forall j | 0 <= j < i + 1 ensures cls[j] !in {L, R, AL} { assert j > 0 ==> cls[j] == rest[j - 1]; }
        }
      }
      forall i | 0 <= i < |cls| && cls[i] in {R, AL} && forall j :: 0 <= j < i ==> cls[j] !in {L, R, AL} ensures Paragraph(cls) == 1 {
        assert rest[i - 1] in {R, AL};
        forall j | 0 <= j < i - 1 ensures rest[j] !in {L, R, AL} { assert rest[j] == cls[j + 1]; }
      }
    }
  }

  /** `j` is the nearest place before `i` of one of these classes. */
  ghost predicate NearestBefore(t: seq<Class>, i: nat, j: nat, cs: set<Class>)
    requires i <= |t|
  {
    j < i && t[j] in cs && forall k :: j < k < i ==> t[k] !in cs
  }

  lemma {:induction false} LastStrongIs(t: seq<Class>, i: nat, sos: Class)
    requires i <= |t|
    ensures forall j: nat :: NearestBefore(t, i, j, {L, R, AL}) ==> LastStrong(t, i, sos) == t[j]
    ensures (forall j :: 0 <= j < i ==> t[j] !in {L, R, AL}) ==> LastStrong(t, i, sos) == sos
  {
    if i == 0 {
    } else {
      LastStrongIs(t, i - 1, sos);
      forall j: nat | NearestBefore(t, i, j, {L, R, AL}) ensures LastStrong(t, i, sos) == t[j] {
        if j < i - 1 { assert NearestBefore(t, i - 1, j, {L, R, AL}) && t[i - 1] !in {L, R, AL}; }
      }
    }
  }

  /** W1: a mark takes the class of the nearest character before that is no mark, or of the paragraph's start. */
  lemma {:induction false} MarkRule(t: seq<Class>, i: nat, sos: Class)
    requires i < |t|
    ensures t[i] != NSM ==> W1(t, sos)[i] == t[i]
    ensures t[i] == NSM ==> forall j :: 0 <= j < i && t[j] != NSM && (forall k :: j < k < i ==> t[k] == NSM) ==> W1(t, sos)[i] == t[j]
    ensures (forall j :: 0 <= j <= i ==> t[j] == NSM) ==> W1(t, sos)[i] == sos
  {
    if i == 0 {
    } else {
      MarkRule(t, i - 1, sos);
      assert t[i] == NSM ==> W1(t, sos)[i] == W1(t, sos)[i - 1];
    }
  }

  /** W2: a European number is Arabic exactly when the nearest strong character before it is an Arabic letter. */
  lemma ArabicNumberRule(t: seq<Class>, i: nat, sos: Class)
    requires i < |t| && sos in {L, R}
    ensures W2(t, sos)[i] == if t[i] == EN && (exists j: nat :: NearestBefore(t, i, j, {L, R, AL}) && t[j] == AL) then AN else t[i]
  {
    hide LastStrong;
    LastStrongIs(t, i, sos);
    if exists j :: 0 <= j < i && t[j] in {L, R, AL} { var j := NearestOne(t, i, {L, R, AL}); }
  }

  lemma {:induction false} NearestOne(t: seq<Class>, i: nat, cs: set<Class>) returns (j: nat)
    requires i <= |t| && exists k :: 0 <= k < i && t[k] in cs
    ensures NearestBefore(t, i, j, cs)
  {
    if t[i - 1] in cs {
      j := i - 1;
    } else {
      j := NearestOne(t, i - 1, cs);
    }
  }

  /** W3. */
  lemma ArabicLetterRule(t: seq<Class>, i: nat)
    requires i < |t|
    ensures W3(t)[i] == if t[i] == AL then R else t[i]
  {
  }

  /** W4: a plus or minus between European numbers, a comma or colon between two numbers of one kind. */
  lemma SeparatorRule(t: seq<Class>, i: nat)
    requires i < |t|
    ensures var c := W4(t)[i];
            if 0 < i < |t| - 1 && t[i] in {ES, CS} && t[i - 1] == EN && t[i + 1] == EN then c == EN
            else if 0 < i < |t| - 1 && t[i] == CS && t[i - 1] == AN && t[i + 1] == AN then c == AN
            else c == t[i]
  {
  }

  /** A stretch of terminators from `a` to before `b` that can be made no longer. */
  predicate Terminators(t: seq<Class>, a: nat, b: nat)
  {
    && a < b <= |t| && (forall k :: a <= k < b ==> t[k] == ET)
    && (a > 0 ==> t[a - 1] != ET) && (b < |t| ==> t[b] != ET)
  }

  lemma {:induction false} BeforeStretch(t: seq<Class>, a: nat, b: nat, i: nat)
    requires Terminators(t, a, b) && a <= i < b
    ensures BeforeTerminators(t, i) == if a == 0 then ON else t[a - 1]
  {
    if i == a {
    } else {
      BeforeStretch(t, a, b, i - 1);
    }
  }

  lemma {:induction false} AfterStretch(t: seq<Class>, a: nat, b: nat, i: nat)
    requires Terminators(t, a, b) && a <= i < b
    ensures AfterTerminators(t, i) == if b == |t| then ON else t[b]
    decreases b - i
  {
    if i + 1 == b {
    } else {
      AfterStretch(t, a, b, i + 1);
    }
  }

  /** W5, W6: terminators are numbers when their stretch touches a European number, else neutral. */
  lemma TerminatorRule(t: seq<Class>, a: nat, b: nat, i: nat)
    requires i < |t|
    ensures t[i] != ET ==> W5(t)[i] == t[i]
    ensures Terminators(t, a, b) && a <= i < b ==>
              W5(t)[i] == if (a > 0 && t[a - 1] == EN) || (b < |t| && t[b] == EN) then EN else ON
  {
    hide BeforeTerminators, AfterTerminators;
    if Terminators(t, a, b) && a <= i < b {
      BeforeStretch(t, a, b, i);
      AfterStretch(t, a, b, i);
    }
  }

  /** W6, W7: separators left are neutral; a European number is L when the nearest strong character before it, or the start, is L. */
  lemma LatinNumberRule(t: seq<Class>, i: nat, sos: Class)
    requires i < |t| && sos in {L, R}
    ensures var c := W67(t, sos)[i];
            if t[i] in {ES, CS} then c == ON
            else if t[i] == EN && ((exists j: nat :: NearestBefore(t, i, j, {L, R, AL}) && t[j] == L)
                                   || (sos == L && forall j :: 0 <= j < i ==> t[j] !in {L, R, AL})) then c == L
            else c == t[i]
  {
    hide LastStrong;
    LastStrongIs(t, i, sos);
    if exists j :: 0 <= j < i && t[j] in {L, R, AL} { var j := NearestOne(t, i, {L, R, AL}); }
  }

  /** A stretch of neutrals that can be made no longer. */
  predicate Neutrals(t: seq<Class>, a: nat, b: nat)
  {
    && a < b <= |t| && (forall k :: a <= k < b ==> t[k] in {B, S, WS, ON, BN})
    && (a > 0 ==> t[a - 1] !in {B, S, WS, ON, BN}) && (b < |t| ==> t[b] !in {B, S, WS, ON, BN})
  }

  lemma {:induction false} BeforeNeutralStretch(t: seq<Class>, a: nat, b: nat, i: nat, sos: Class)
    requires Neutrals(t, a, b) && a <= i < b && sos in {L, R}
    ensures BeforeNeutrals(t, i, sos) == L <==> if a == 0 then sos == L else t[a - 1] == L
    ensures BeforeNeutrals(t, i, sos) in {L, R}
  {
    assert Neutral(t[i]);
    if i == a {
    } else {
      BeforeNeutralStretch(t, a, b, i - 1, sos);
    }
  }

  lemma {:induction false} AfterNeutralStretch(t: seq<Class>, a: nat, b: nat, i: nat, sos: Class)
    requires Neutrals(t, a, b) && a <= i < b && sos in {L, R}
    ensures AfterNeutrals(t, i, sos) == L <==> if b == |t| then sos == L else t[b] == L
    ensures AfterNeutrals(t, i, sos) in {L, R}
    decreases b - i
  {
    assert Neutral(t[i]);
    if i + 1 == b {
    } else {
      AfterNeutralStretch(t, a, b, i + 1, sos);
    }
  }

  /**
   * N1, N2: a stretch of neutrals is L between two sides that are L, R between
   * two that are not, the paragraph's direction otherwise; a side off the text
   * counts as the paragraph's, numbers as R.
   */
  lemma NeutralRule(t: seq<Class>, a: nat, b: nat, i: nat, sos: Class)
    requires i < |t| && sos in {L, R}
    ensures t[i] !in {B, S, WS, ON, BN} ==> N12(t, sos)[i] == t[i]
    ensures Neutrals(t, a, b) && a <= i < b ==>
              var before, after := if a == 0 then sos == L else t[a - 1] == L, if b == |t| then sos == L else t[b] == L;
              N12(t, sos)[i] == if before && after then L else if !before && !after then R else sos
  {
    hide BeforeNeutrals, AfterNeutrals;
    if Neutrals(t, a, b) && a <= i < b {
      BeforeNeutralStretch(t, a, b, i, sos);
      AfterNeutralStretch(t, a, b, i, sos);
    }
  }

  predicate RightToLeft(c: Class) { c.R? || c.AL? || c.AN? }

  // ---- What the passes leave ----

  predicate Directional(c: Class) { c.L? || c.R? || c.EN? || c.AN? }

  lemma {:induction false} BaseIsNoMark(t: seq<Class>, i: nat, sos: Class)
    requires i < |t| && !sos.NSM?
    ensures !Base(t, i, sos).NSM?
  {
    if t[i].NSM? && i > 0 { BaseIsNoMark(t, i - 1, sos); }
  }

  lemma WeakLeaves(cls: seq<Class>, sos: Class, i: nat)
    requires i < |cls| && (sos.L? || sos.R?)
    ensures var c := Weak(cls, sos)[i]; Directional(c) || Neutral(c)
  {
    hide Base, LastStrong, BeforeTerminators, AfterTerminators;
    BaseIsNoMark(cls, i, sos);
    var t1 := W1(cls, sos);
    if i > 0 { BaseIsNoMark(cls, i - 1, sos); }
    if i + 1 < |cls| { BaseIsNoMark(cls, i + 1, sos); }
    var t3 := W3(W2(t1, sos));
    assert !t3[i].NSM? && !t3[i].AL?;
    var t4 := W4(t3);
    assert !t4[i].NSM? && !t4[i].AL?;
    var t5 := W5(t4);
    assert !t5[i].NSM? && !t5[i].AL? && !t5[i].ET?;
  }

  lemma {:induction false} SidesAreStrong(t: seq<Class>, i: nat, sos: Class)
    requires i < |t| && (sos.L? || sos.R?)
    ensures var c := BeforeNeutrals(t, i, sos); c.L? || c.R?
  {
    if Neutral(t[i]) && i > 0 { SidesAreStrong(t, i - 1, sos); }
  }

  /** After N1 and N2 no neutral is left. */
  lemma NoNeutralSurvives(cls: seq<Class>, para: nat, i: nat)
    requires i < |cls|
    ensures Directional(Resolved(cls, para)[i])
  {
    hide Weak, BeforeNeutrals, AfterNeutrals;
    WeakLeaves(cls, Sos(para), i);
    SidesAreStrong(Weak(cls, Sos(para)), i, Sos(para));
  }

  /**
   * Levels are 0 to 2 in a left-to-right paragraph, 1 or 2 in a right-to-left
   * one. But for tabs and trailing space, every character has got a direction,
   * and its level is odd exactly when that is right-to-left; numbers are at 2.
   */
  lemma LevelsInRange(cps: seq<nat>, cls: seq<Class>, para: nat, i: nat)
    requires i < |cps| == |cls| && para <= 1
    ensures para <= Levels(cps, cls, para)[i] <= 2
    ensures !Trailing(cls, i) && cps[i] != TAB ==>
      var c, level := Resolved(cls, para)[i], Levels(cps, cls, para)[i];
      && Directional(c) && (level % 2 == 1 <==> c.R?)
      && (level == 0 <==> para == 0 && c.L?) && (c.EN? || c.AN? ==> level == 2)
    ensures (cps[i] == TAB || forall k :: i <= k < |cls| ==> cls[k] in {WS, S, B, BN}) ==> Levels(cps, cls, para)[i] == para
  {
    NoNeutralSurvives(cls, para, i);
  }

  // ---- The all left-to-right shortcut ----

  predicate Leftish(t: seq<Class>) { forall i :: 0 <= i < |t| ==> !RightToLeft(t[i]) }

  lemma {:induction false} BaseLeftish(t: seq<Class>, i: nat)
    requires i < |t| && Leftish(t)
    ensures !RightToLeft(Base(t, i, L))
  {
    if t[i].NSM? && i > 0 { BaseLeftish(t, i - 1); }
  }

  lemma {:induction false} LastStrongIsL(t: seq<Class>, i: nat)
    requires i <= |t| && Leftish(t)
    ensures LastStrong(t, i, L) == L
  {
    if i > 0 && !Strong(t[i - 1]) { LastStrongIsL(t, i - 1); }
  }

  lemma WeakLeftish(cls: seq<Class>)
    requires Leftish(cls)
    ensures var t := Weak(cls, L); forall i :: 0 <= i < |t| ==> t[i].L? || Neutral(t[i])
  {
    hide Base, LastStrong, BeforeTerminators, AfterTerminators;
    var t1 := W1(cls, L);
    forall i | 0 <= i < |cls| ensures !RightToLeft(t1[i]) { BaseLeftish(cls, i); }
    var t2 := W2(t1, L);
    forall i | 0 <= i < |cls| ensures t2[i] == t1[i] { LastStrongIsL(t1, i); }
    var t5 := W5(W4(W3(t2)));
    assert Leftish(t5) by { StillLeftish(t2); }
    forall i | 0 <= i < |cls| ensures Weak(cls, L)[i].L? || Neutral(Weak(cls, L)[i]) {
      LastStrongIsL(t5, i);
      WeakLeaves(cls, L, i);
    }
  }

  lemma StillLeftish(t: seq<Class>)
    requires Leftish(t)
    ensures Leftish(W5(W4(W3(t))))
  {
    hide BeforeTerminators, AfterTerminators;
    var t3 := W3(t);
    assert forall i :: 0 <= i < |t| ==> t3[i] == t[i];
    var t4 := W4(t3);
    assert forall i :: 0 <= i < |t| ==> !RightToLeft(t4[i]);
  }

  lemma {:induction false} BetweenLeft(t: seq<Class>, i: nat)
    requires i < |t| && forall k :: 0 <= k < |t| ==> t[k].L? || Neutral(t[k])
    ensures BeforeNeutrals(t, i, L) == L
  {
    if Neutral(t[i]) && i > 0 { BetweenLeft(t, i - 1); }
  }

  /** Without right-to-left characters in a left-to-right paragraph, all the passes would give level 0. */
  lemma ShortcutIsFull(cps: seq<nat>, cls: seq<Class>)
    requires |cps| == |cls| && Leftish(cls)
    ensures forall i :: 0 <= i < |cps| ==> Levels(cps, cls, 0)[i] == 0
  {
    hide Weak, BeforeNeutrals, AfterNeutrals;
    WeakLeftish(cls);
    forall i | 0 <= i < |cps| ensures Levels(cps, cls, 0)[i] == 0 { BetweenLeft(Weak(cls, L), i); }
  }

  // ---- The loops ----

  method MarksInPlace(t: array<Class>, sos: Class)
    modifies t
    ensures t[..] == W1(old(t[..]), sos)
  {
    ghost var t0 := t[..];
    var i: nat := 0;
    while i < t.Length
      invariant i <= t.Length
      invariant forall k :: 0 <= k < i ==> t[k] == Base(t0, k, sos)
      invariant forall k :: i <= k < t.Length ==> t[k] == t0[k]
    {
      if t[i].NSM? { t[i] := if i > 0 then t[i - 1] else sos; }
      i := i + 1;
    }
    assert t[..] == W1(t0, sos);
  }

  method ArabicNumbersInPlace(t: array<Class>, sos: Class)
    modifies t
    ensures t[..] == W2(old(t[..]), sos)
  {
    ghost var t0 := t[..];
    var strong := sos;
    var i: nat := 0;
    while i < t.Length
      invariant i <= t.Length && strong == LastStrong(t0, i, sos)
      invariant forall k :: 0 <= k < i ==> t[k] == if t0[k].EN? && LastStrong(t0, k, sos).AL? then AN else t0[k]
      invariant forall k :: i <= k < t.Length ==> t[k] == t0[k]
    {
      if t[i].L? || t[i].R? || t[i].AL? {
        strong := t[i];
      } else if t[i].EN? && strong.AL? {
        t[i] := AN;
      }
      i := i + 1;
    }
    assert t[..] == W2(t0, sos);
  }

  method ArabicLettersInPlace(t: array<Class>)
    modifies t
    ensures t[..] == W3(old(t[..]))
  {
    ghost var t0 := t[..];
    var i: nat := 0;
    while i < t.Length
      invariant i <= t.Length
      invariant forall k :: 0 <= k < i ==> t[k] == if t0[k].AL? then R else t0[k]
      invariant forall k :: i <= k < t.Length ==> t[k] == t0[k]
    {
      if t[i].AL? { t[i] := R; }
      i := i + 1;
    }
    assert t[..] == W3(t0);
  }

  /** Looks at what the pass has rewritten, and still joins only single separators. */
  method SeparatorsInPlace(t: array<Class>)
    modifies t
    ensures t[..] == W4(old(t[..]))
  {
    ghost var t0 := t[..];
    var i: nat := 1;
    while i + 1 < t.Length
      invariant 1 <= i && (i + 1 <= t.Length || t.Length < 2)
      invariant forall k :: 0 <= k < i && k < t.Length ==> t[k] == Joined(t0, k)
      invariant forall k :: i <= k < t.Length ==> t[k] == t0[k]
    {
      if t[i].ES? && t[i - 1].EN? && t[i + 1].EN? {
        t[i] := EN;
      } else if t[i].CS? && t[i - 1] == t[i + 1] && (t[i - 1].EN? || t[i - 1].AN?) {
        t[i] := t[i - 1];
      }
      i := i + 1;
    }
    assert t[..] == W4(t0);
  }

  lemma TerminatorRun(t: seq<Class>, i: nat, j: nat, k: nat)
    requires i <= k < j <= |t| && forall m :: i <= m < j ==> t[m].ET?
    requires (i == 0 || !t[i - 1].ET?) && (j == |t| || !t[j].ET?)
    ensures BeforeTerminators(t, k) == if i == 0 then ON else t[i - 1]
    ensures AfterTerminators(t, k) == if j == |t| then ON else t[j]
  {
    TerminatorsBefore(t, i, k);
    TerminatorsAfter(t, j, k);
  }

  lemma {:induction false} TerminatorsBefore(t: seq<Class>, i: nat, k: nat)
    requires i <= k < |t| && (forall m :: i <= m <= k ==> t[m].ET?) && (i == 0 || !t[i - 1].ET?)
    ensures BeforeTerminators(t, k) == if i == 0 then ON else t[i - 1]
  {
    if k > i { TerminatorsBefore(t, i, k - 1); }
  }

  lemma {:induction false} TerminatorsAfter(t: seq<Class>, j: nat, k: nat)
    requires k < j <= |t| && (forall m :: k <= m < j ==> t[m].ET?) && (j == |t| || !t[j].ET?)
    ensures AfterTerminators(t, k) == if j == |t| then ON else t[j]
    decreases j - k
  {
    if k + 1 < j { TerminatorsAfter(t, j, k + 1); }
  }

  /** The rule has been applied before `i`, where no stretch is cut. */
  ghost predicate Upto(t0: seq<Class>, t: seq<Class>, rule: seq<Class>, i: nat)
  {
    && |t| == |t0| == |rule| && i <= |t|
    && (forall k :: 0 <= k < i ==> t[k] == rule[k]) && (forall k :: i <= k < |t| ==> t[k] == t0[k])
  }

  method TerminatorsInPlace(t: array<Class>)
    modifies t
    ensures t[..] == W5(old(t[..]))
  {
    hide W5;
    ghost var t0 := t[..];
    var i: nat := 0;
    while i < t.Length
      invariant i <= t.Length && (i == 0 || i == t.Length || !t0[i - 1].ET? || !t0[i].ET?)
      invariant Upto(t0, t[..], W5(t0), i)
    {
      if !t[i].ET? {
        NotTerminator(t0, i);
        i := i + 1;
        continue;
      }
      var j := i;
      while j < t.Length && t[j].ET?
        invariant i <= j <= t.Length && forall k :: i <= k < j ==> t0[k].ET?
      {
        j := j + 1;
      }
      var en := (i > 0 && t[i - 1].EN?) || (j < t.Length && t[j].EN?);
      if i > 0 { NotTerminator(t0, i - 1); }
      forall k | i <= k < j ensures W5(t0)[k] == if en then EN else ON { RunBecomes(t0, i, j, k); }
      Fill(t, i, j, if en then EN else ON);
      i := j;
    }
    assert t[..] == W5(t0);
  }

  lemma NotTerminator(t: seq<Class>, i: nat)
    requires i < |t| && !t[i].ET?
    ensures W5(t)[i] == t[i]
  {
  }

  lemma RunBecomes(t: seq<Class>, i: nat, j: nat, k: nat)
    requires i <= k < j <= |t| && forall m :: i <= m < j ==> t[m].ET?
    requires (i == 0 || !t[i - 1].ET?) && (j == |t| || !t[j].ET?)
    ensures W5(t)[k] == if (i > 0 && t[i - 1].EN?) || (j < |t| && t[j].EN?) then EN else ON
  {
    TerminatorRun(t, i, j, k);
  }

  method Fill(t: array<Class>, i: nat, j: nat, c: Class)
    requires i <= j <= t.Length
    modifies t
    ensures forall k :: 0 <= k < t.Length ==> t[k] == if i <= k < j then c else old(t[k])
  {
    var k := i;
    while k < j
      invariant i <= k <= j
      invariant forall m :: 0 <= m < t.Length ==> t[m] == if i <= m < k then c else old(t[m])
    {
      t[k] := c;
      k := k + 1;
    }
  }

  method NumbersInPlace(t: array<Class>, sos: Class)
    requires forall k :: 0 <= k < t.Length ==> !t[k].AL?
    requires sos.L? || sos.R?
    modifies t
    ensures t[..] == W67(old(t[..]), sos)
  {
    ghost var t0 := t[..];
    var strong := sos;
    var i: nat := 0;
    while i < t.Length
      invariant i <= t.Length && strong == LastStrong(t0, i, sos)
      invariant forall k :: 0 <= k < i ==> t[k] == if t0[k].ES? || t0[k].CS? then ON else if t0[k].EN? && LastStrong(t0, k, sos).L? then L else t0[k]
      invariant forall k :: i <= k < t.Length ==> t[k] == t0[k]
    {
      if t[i].ES? || t[i].CS? { t[i] := ON; }
      if t[i].L? || t[i].R? {
        strong := t[i];
      } else if t[i].EN? && strong.L? {
        t[i] := L;
      }
      i := i + 1;
    }
    assert t[..] == W67(t0, sos);
  }

  lemma {:induction false} NeutralsBefore(t: seq<Class>, i: nat, k: nat, sos: Class)
    requires i <= k < |t| && (forall m :: i <= m <= k ==> Neutral(t[m])) && (i == 0 || !Neutral(t[i - 1]))
    ensures BeforeNeutrals(t, k, sos) == if i == 0 then sos else Dir(t[i - 1])
  {
    if k > i { NeutralsBefore(t, i, k - 1, sos); }
  }

  lemma {:induction false} NeutralsAfter(t: seq<Class>, j: nat, k: nat, sos: Class)
    requires k < j <= |t| && (forall m :: k <= m < j ==> Neutral(t[m])) && (j == |t| || !Neutral(t[j]))
    ensures AfterNeutrals(t, k, sos) == if j == |t| then sos else Dir(t[j])
    decreases j - k
  {
    if k + 1 < j { NeutralsAfter(t, j, k + 1, sos); }
  }

  lemma NotNeutral(t: seq<Class>, i: nat, sos: Class)
    requires i < |t| && !Neutral(t[i])
    ensures N12(t, sos)[i] == t[i]
  {
  }

  lemma NeutralsBecome(t: seq<Class>, i: nat, j: nat, k: nat, sos: Class)
    requires i <= k < j <= |t| && forall m :: i <= m < j ==> Neutral(t[m])
    requires (i == 0 || !Neutral(t[i - 1])) && (j == |t| || !Neutral(t[j]))
    ensures var before := if i > 0 then Dir(t[i - 1]) else sos;
            var after := if j < |t| then Dir(t[j]) else sos;
            N12(t, sos)[k] == if before == after then before else sos
  {
    NeutralsBefore(t, i, k, sos);
    NeutralsAfter(t, j, k, sos);
  }

  method NeutralsInPlace(t: array<Class>, sos: Class)
    modifies t
    ensures t[..] == N12(old(t[..]), sos)
  {
    hide N12, Neutral;
    ghost var t0 := t[..];
    var i: nat := 0;
    while i < t.Length
      invariant i <= t.Length && (i == 0 || i == t.Length || !Neutral(t0[i - 1]) || !Neutral(t0[i]))
      invariant Upto(t0, t[..], N12(t0, sos), i)
    {
      if !Neutral(t[i]) {
        NotNeutral(t0, i, sos);
        i := i + 1;
        continue;
      }
      var j := i;
      while j < t.Length && Neutral(t[j])
        invariant i <= j <= t.Length && forall k :: i <= k < j ==> Neutral(t0[k])
      {
        j := j + 1;
      }
      var before := if i > 0 then Dir(t[i - 1]) else sos;
      var after := if j < t.Length then Dir(t[j]) else sos;
      var res := if before == after then before else sos;
      if i > 0 { NotNeutral(t0, i - 1, sos); }
      forall k | i <= k < j ensures N12(t0, sos)[k] == res { NeutralsBecome(t0, i, j, k, sos); }
      Fill(t, i, j, res);
      i := j;
    }
    assert t[..] == N12(t0, sos);
  }

  /** I1, I2 and L1. */
  method LevelsFrom(cps: seq<nat>, ghost cls: seq<Class>, bidiClass: nat -> Class, t: array<Class>, para: nat)
    returns (levels: array<nat>)
    requires |cps| == |cls| == t.Length && forall i :: 0 <= i < |cps| ==> cls[i] == bidiClass(cps[i])
    ensures fresh(levels) && levels.Length == |cps|
    ensures forall i :: 0 <= i < |cps| ==> levels[i] == if Trailing(cls, i) || cps[i] == TAB then para else Implicit(t[i], para)
  {
    var n := |cps|;
    levels := new nat[n];
    var i: nat := 0;
    while i < n
      invariant i <= n && forall k :: 0 <= k < i ==> levels[k] == Implicit(t[k], para)
    {
      levels[i] := if para == 0 then if t[i].R? then 1 else if t[i].AN? || t[i].EN? then 2 else 0
                   else if t[i].R? then 1 else 2;
      i := i + 1;
    }
    i := n;
    while i > 0 && Whitespace(bidiClass(cps[i - 1]))
      invariant i <= n && Trailing(cls, i)
      invariant forall k :: 0 <= k < n ==> levels[k] == if k >= i then para else Implicit(t[k], para)
    {
      i := i - 1;
      levels[i] := para;
    }
    assert forall k :: 0 <= k < i ==> !Trailing(cls, k) by { NotTrailing(cls, i); }
    assert forall k :: i <= k < n ==> Trailing(cls, k);
    var j: nat := 0;
    while j < n
      invariant j <= n
      invariant forall k :: 0 <= k < n ==>
        levels[k] == if k >= i || (k < j && cps[k] == TAB) then para else Implicit(t[k], para)
    {
      if cps[j] == TAB { levels[j] := para; }
      j := j + 1;
    }
  }

  lemma NotTrailing(cls: seq<Class>, i: nat)
    requires i <= |cls| && (i > 0 ==> !Whitespace(cls[i - 1]))
    ensures forall k :: 0 <= k < i ==> !Trailing(cls, k)
  {
  }

  /** The paragraph's level and every character's. */
  method ResolveBidi(cps: seq<nat>, bidiClass: nat -> Class) returns (para: nat, levels: array<nat>)
    ensures var cls := seq(|cps|, i requires 0 <= i < |cps| => bidiClass(cps[i]));
            para == Paragraph(cls) && ParagraphIs(cls, para) && levels[..] == Levels(cps, cls, para)
    ensures fresh(levels)
  {
    hide ParagraphIs, Levels, W1, W2, W3, W4, W5, W67, N12, Weak;
    ghost var cls := seq(|cps|, i requires 0 <= i < |cps| => bidiClass(cps[i]));
    var t := new Class[|cps|];
    var anyRtl, found, i: nat := false, false, 0;
    para := 0;
    while i < |cps|
      invariant i <= |cps| && para <= 1 && forall k :: 0 <= k < i ==> t[k] == cls[k]
      invariant anyRtl <==> exists k :: 0 <= k < i && RightToLeft(cls[k])
      invariant if found then para == Paragraph(cls) else para == 0 && Paragraph(cls) == Paragraph(cls[i..])
    {
      t[i] := bidiClass(cps[i]);
      if t[i].R? || t[i].AL? || t[i].AN? { anyRtl := true; }
      assert cls[i..][0] == cls[i] && cls[i..][1..] == cls[i + 1..];
      if !found && (t[i].L? || t[i].R? || t[i].AL?) { found, para := true, if t[i].L? then 0 else 1; }
      i := i + 1;
    }
    assert para == Paragraph(cls) && t[..] == cls;
    FirstStrong(cls);
    if !anyRtl && para == 0 {
      ShortcutIsFull(cps, cls);
      levels := new nat[|cps|](_ => 0);
      assert levels[..] == Levels(cps, cls, 0);
      return;
    }
    var sos := if para == 1 then R else L;
    MarksInPlace(t, sos);
    ArabicNumbersInPlace(t, sos);
    ArabicLettersInPlace(t);
    SeparatorsInPlace(t);
    TerminatorsInPlace(t);
    NoArabicLetters(W2(W1(cls, sos), sos));
    NumbersInPlace(t, sos);
    assert t[..] == Weak(cls, sos) by { WeakIs(cls, sos); }
    NeutralsInPlace(t, sos);
    levels := LevelsFrom(cps, cls, bidiClass, t, para);
    assert levels[..] == Levels(cps, cls, para) by { LevelsAre(cps, cls, para, levels[..]); }
  }

  lemma NoArabicLetters(t: seq<Class>)
    ensures var r := W5(W4(W3(t))); forall k :: 0 <= k < |r| ==> !r[k].AL?
  {
    hide BeforeTerminators, AfterTerminators;
    var t3 := W3(t);
    assert forall k :: 0 <= k < |t3| ==> !t3[k].AL?;
    var t4 := W4(t3);
    assert forall k :: 0 <= k < |t4| ==> !t4[k].AL?;
  }

  lemma WeakIs(cls: seq<Class>, sos: Class)
    ensures Weak(cls, sos) == W67(W5(W4(W3(W2(W1(cls, sos), sos)))), sos)
  {
  }

  lemma LevelsAre(cps: seq<nat>, cls: seq<Class>, para: nat, levels: seq<nat>)
    requires |cps| == |cls| == |levels|
    requires forall i :: 0 <= i < |cps| ==>
      levels[i] == if Trailing(cls, i) || cps[i] == TAB then para else Implicit(Resolved(cls, para)[i], para)
    ensures levels == Levels(cps, cls, para)
  {
    hide Resolved, Trailing;
  }
}
