/**
 * Case-insensitive search (src/base/utf8.cpp): the on-the-fly folded search
 * against a byte search over folded copies.
 */
module Folding {
  import opened Utf8

  /** Simple 1:1 case folding; `cp | 1` is `cp` made odd. */
  function FoldCase(cp: int): (r: int)
    ensures IsScalar(cp) ==> IsScalar(r)
    ensures 0 <= cp < 0x80 ==> 0 <= r < 0x80
  {
    if cp < 0x80 then
      if 0x41 <= cp <= 0x5A then cp + 32 else cp
    else if cp < 0x100 then
      if 0xC0 <= cp <= 0xDE && cp != 0xD7 then cp + 32 else cp
    else if cp < 0x180 then
      if cp == 0x130 then 0x69
      else if cp == 0x178 then 0xFF
      else if cp == 0x17F then 0x73
      else if 0x139 <= cp <= 0x148 || 0x179 <= cp <= 0x17E then
        if cp % 2 == 1 then cp + 1 else cp
      else if cp == 0x131 || cp == 0x138 || cp == 0x149 then cp
      else MadeOdd(cp)
    else if 0x391 <= cp <= 0x3AB && cp != 0x3A2 then cp + 32
    else if cp == 0x3C2 then 0x3C3
    else if 0x410 <= cp <= 0x42F then cp + 32
    else if 0x400 <= cp <= 0x40F then cp + 80
    else if 0x460 <= cp <= 0x481 || 0x48A <= cp <= 0x4BF then MadeOdd(cp)
    else if 0x531 <= cp <= 0x556 then cp + 48
    else if 0x1E00 <= cp <= 0x1EFF && !(0x1E96 <= cp <= 0x1E9F) then MadeOdd(cp)
    else if 0xFF21 <= cp <= 0xFF3A then cp + 32
    else cp
  }

  /** What was folded is not changed by folding again. */
  lemma FoldsOnce(cp: int)
    requires cp >= 0
    ensures FoldCase(FoldCase(cp)) == FoldCase(cp)
  {
  }

  /** Letters and their small forms fold alike: Latin, Greek, Cyrillic, Armenian, full-width. */
  lemma CapitalsFold(d: nat)
    ensures d < 26 ==> FoldCase(0x41 + d) == FoldCase(0x61 + d) == 0x61 + d && FoldCase(0xFF21 + d) == FoldCase(0xFF41 + d) == 0xFF41 + d
    ensures d < 31 && d != 23 ==> FoldCase(0xC0 + d) == FoldCase(0xE0 + d) == 0xE0 + d
    ensures d < 27 && d != 17 ==> FoldCase(0x391 + d) == FoldCase(0x3B1 + d) == 0x3B1 + d
    ensures FoldCase(0x3C2) == FoldCase(0x3C3) == FoldCase(0x3A3) == 0x3C3
    ensures d < 32 ==> FoldCase(0x410 + d) == FoldCase(0x430 + d) == 0x430 + d
    ensures d < 16 ==> FoldCase(0x400 + d) == FoldCase(0x450 + d) == 0x450 + d
    ensures d < 38 ==> FoldCase(0x531 + d) == FoldCase(0x561 + d) == 0x561 + d
    ensures FoldCase(0xD7) == 0xD7 && FoldCase(0xF7) == 0xF7 && FoldCase(0x178) == 0xFF && FoldCase(0x130) == 0x69 && FoldCase(0x17F) == 0x73
  {
  }

  function MadeOdd(cp: int): int { if cp % 2 == 0 then cp + 1 else cp }

  /** The folded code points of the text from `i` on. */
  function FoldedFrom(s: bytes, i: nat): (r: seq<int>)
    requires i <= |s|
    ensures AllScalars(r)
    decreases |s| - i
  {
    if i == |s| then [] else [FoldCase(Decode(s, i).0)] + FoldedFrom(s, Next(s, i))
  }

  predicate MatchesAt<T(==)>(a: seq<T>, b: seq<T>, k: nat) { k + |b| <= |a| && a[k..k + |b|] == b }

  /** `b` occurs as a contiguous stretch of `a`. */
  predicate Occurs<T(==)>(a: seq<T>, b: seq<T>) { exists k :: 0 <= k <= |a| && MatchesAt(a, b, k) }

  /** Folding a copy of the text, with the ASCII fast path. */
  method FoldText(s: bytes) returns (out: bytes)
    ensures out == EncodeAll(FoldedFrom(s, 0))
    ensures Valid(out) && DecodeAll(out) == FoldedFrom(s, 0)
  {
    out := [];
    var i := 0;
    ghost var seen := [];
    while i < |s|
      invariant i <= |s|
      invariant FoldedFrom(s, 0) == seen + FoldedFrom(s, i)
      invariant out == EncodeAll(seen)
    {
      ghost var cp := FoldCase(Decode(s, i).0);
      EncodeAllPush(seen, cp);
      PushFront(seen, cp, FoldedFrom(s, Next(s, i)));
      if s[i] < 0x80 {
        var c := s[i];
        i := i + 1;
        AsciiEncodes(FoldCase(c));
        out := out + [if 0x41 <= c <= 0x5A then c + 32 else c];
      } else {
        var d, next := DecodeStep(s, i);
        out := out + Encode(FoldCase(d));
        i := next;
      }
      seen := seen + [cp];
    }
    assert seen + [] == seen;
    EncodeAllIsValid(seen);
    DecodeInvertsEncode(seen);
  }

  lemma AsciiEncodes(cp: int)
    requires 0 <= cp < 0x80
    ensures Encode(cp) == [cp]
  {
  }

  lemma PrefixStep(x: int, a: seq<int>, y: int, b: seq<int>)
    ensures [x] + a <= [y] + b <==> x == y && a <= b
  {
    assert ([x] + a)[1..] == a && ([y] + b)[1..] == b;
    if x == y && a <= b { assert [x] + a == ([y] + b)[..1 + |a|]; }
    if [x] + a <= [y] + b {
      assert [x] + a == ([y] + b)[..1 + |a|];
      assert a == ([x] + a)[1..] == b[..|a|];
      assert x == ([x] + a)[0];
    }
  }

  /** Whether `n` matches the folded text of `h` from byte `start` on. */
  method FoldedMatchAt(h: bytes, start: nat, n: bytes) returns (r: bool)
    requires start <= |h|
    ensures r <==> DecodeAll(n) <= FoldedFrom(h, start)
  {
    var i: nat, k: nat := start, 0;
    while k < |n|
      invariant i <= |h| && k <= |n|
      invariant DecodeAll(n) <= FoldedFrom(h, start) <==> DecodeFrom(n, k) <= FoldedFrom(h, i)
      decreases |n| - k
    {
      if i >= |h| { return false; }
      PrefixStep(Decode(n, k).0, DecodeFrom(n, Next(n, k)), FoldCase(Decode(h, i).0), FoldedFrom(h, Next(h, i)));
      var a, b := h[i], n[k];
      if a < 0x80 && b < 0x80 {
        if (if 0x41 <= a <= 0x5A then a + 32 else a) != b { return false; }
        i, k := i + 1, k + 1;
      } else {
        var ca, cb;
        ca, i := DecodeStep(h, i);
        cb, k := DecodeStep(n, k);
        if FoldCase(ca) != cb { return false; }
      }
    }
    r := true;
  }

  lemma OccursStep(x: int, a: seq<int>, b: seq<int>)
    ensures Occurs([x] + a, b) <==> b <= [x] + a || Occurs(a, b)
  {
    var s := [x] + a;
    assert MatchesAt(s, b, 0) <==> b <= s;
    hide MatchesAt;
    if Occurs(s, b) {
      var k :| 0 <= k <= |s| && MatchesAt(s, b, k);
      if k > 0 { MatchesShift(x, a, b, k - 1); }
    }
    if Occurs(a, b) {
      var k :| 0 <= k <= |a| && MatchesAt(a, b, k);
      MatchesShift(x, a, b, k);
      assert MatchesAt(s, b, k + 1);
    }
  }

  lemma MatchesShift(x: int, a: seq<int>, b: seq<int>, k: nat)
    requires k <= |a|
    ensures MatchesAt([x] + a, b, k + 1) <==> MatchesAt(a, b, k)
  {
    if k + |b| <= |a| { assert ([x] + a)[k + 1..k + 1 + |b|] == a[k..k + |b|]; }
  }

  /**
   * The search without a copy: true exactly when the needle's code points
   * occur contiguously in the haystack's folded ones, whatever the bytes.
   */
  method ContainsFoldedNeedle(h: bytes, n: bytes) returns (r: bool)
    ensures r <==> Occurs(FoldedFrom(h, 0), DecodeAll(n))
    ensures Valid(n) ==> (r <==> ContainsPrefolded(EncodeAll(FoldedFrom(h, 0)), n))
  {
    ghost var want := DecodeAll(n);
    if Valid(n) { FoldedCopySearch(FoldedFrom(h, 0), n); }
    if n == [] {
      assert MatchesAt(FoldedFrom(h, 0), want, 0);
      return true;
    }
    var n0 := n[0];
    var start := 0;
    while start < |h|
      invariant start <= |h|
      invariant Occurs(FoldedFrom(h, 0), want) <==> Occurs(FoldedFrom(h, start), want)
      decreases |h| - start
    {
      OccursStep(FoldCase(Decode(h, start).0), FoldedFrom(h, Next(h, start)), want);
      var c := h[start];
      if c < 0x80 {
        if (if 0x41 <= c <= 0x5A then c + 32 else c) == n0 {
          var here := FoldedMatchAt(h, start, n);
          if here { return true; }
        } else {
          assert want[0] == Decode(n, 0).0 != FoldedFrom(h, start)[0];
        }
        start := start + 1;
      } else {
        var here := FoldedMatchAt(h, start, n);
        if here { return true; }
        start := NextBoundary(h, start);
      }
    }
    r := false;
  }

  /** A plain byte search. */
  predicate ContainsPrefolded(h: bytes, n: bytes) { n == [] || Occurs(h, n) }

  lemma {:induction false} ReachedSuffix(s: bytes, b: nat, k: nat) returns (before: seq<int>)
    requires b <= k <= |s| && Reaches(s, b, k)
    ensures DecodeFrom(s, b) == before + DecodeFrom(s, k)
    ensures ValidFrom(s, b) ==> ValidFrom(s, k)
    decreases |s| - b
  {
    if b == k {
      before := [];
    } else {
      var rest := ReachedSuffix(s, Next(s, b), k);
      before := [Decode(s, b).0] + rest;
    }
  }

  /** Encodings are prefix-free: a byte prefix of valid text that is itself valid is a code point prefix. */
  lemma {:induction false} BytePrefixIsTextPrefix(a: seq<int>, b: seq<int>)
    requires AllScalars(a) && AllScalars(b) && EncodeAll(a) <= EncodeAll(b)
    ensures a <= b
  {
    if a != [] && b != [] {
      var s := EncodeAll(b);
      var ea, eb := Encode(a[0]), Encode(b[0]);
      assert s[0..|ea|] == EncodeAll(a)[0..|ea|] == ea;
      assert s[0..|eb|] == eb;
      EncodedForm(a[0], s, 0);
      EncodedForm(b[0], s, 0);
      assert EncodeAll(a[1..]) == EncodeAll(a)[|ea|..];
      assert EncodeAll(b[1..]) == s[|ea|..];
      BytePrefixIsTextPrefix(a[1..], b[1..]);
      assert a == [a[0]] + a[1..] && b == [b[0]] + b[1..];
    }
  }

  lemma ByteMatchIsTextMatch(h: bytes, n: bytes, k: nat)
    requires Valid(h) && Valid(n) && n != [] && MatchesAt(h, n, k)
    ensures Occurs(DecodeAll(h), DecodeAll(n))
  {
    assert h[k] == n[0];
    NotContinuationIsBoundary(h, k);
    var before := ReachedSuffix(h, 0, k);
    ValidFromReencodes(h, k);
    ValidIffReencodes(n);
    var rest, want := DecodeFrom(h, k), DecodeAll(n);
    assert EncodeAll(want) <= EncodeAll(rest) by { assert h[k..][..|n|] == n; }
    BytePrefixIsTextPrefix(want, rest);
    assert MatchesAt(DecodeAll(h), want, |before|);
  }

  lemma TextMatchIsByteMatch(cps: seq<int>, want: seq<int>)
    requires Occurs(cps, want)
    ensures ContainsPrefolded(EncodeAll(cps), EncodeAll(want))
  {
    var k :| 0 <= k <= |cps| && MatchesAt(cps, want, k);
    assert cps == cps[..k] + want + cps[k + |want|..];
    EncodeAllAppend(cps[..k] + want, cps[k + |want|..]);
    EncodeAllAppend(cps[..k], want);
    var at := |EncodeAll(cps[..k])|;
    assert MatchesAt(EncodeAll(cps), EncodeAll(want), at);
  }

  /** On valid text a byte search finds exactly the code point matches. */
  lemma FoldedCopySearch(cps: seq<int>, n: bytes)
    requires AllScalars(cps) && Valid(n)
    ensures ContainsPrefolded(EncodeAll(cps), n) <==> Occurs(cps, DecodeAll(n))
  {
    var h := EncodeAll(cps);
    EncodeAllIsValid(cps);
    DecodeInvertsEncode(cps);
    ValidIffReencodes(n);
    if Occurs(cps, DecodeAll(n)) { TextMatchIsByteMatch(cps, DecodeAll(n)); }
    if ContainsPrefolded(h, n) {
      if n == [] {
        assert MatchesAt(cps, DecodeAll(n), 0);
      } else {
        var k :| 0 <= k <= |h| && MatchesAt(h, n, k);
        ByteMatchIsTextMatch(h, n, k);
      }
    }
  }
}
