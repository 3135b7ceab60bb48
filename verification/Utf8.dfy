/**
 * The UTF-8 decoder, encoder and boundary stepping (src/prim/utf8.cpp,
 * src/base/utf8.cpp). Bit masks and shifts are written as the arithmetic they
 * stand for: `b & 0x3F` is `b % 64`, `cp << 6 | x` with `x < 64` is `cp * 64 + x`.
 */
module Utf8 {
  type byte = b: int | 0 <= b < 0x100
  type bytes = seq<byte>

  const REPLACEMENT := 0xFFFD

  predicate IsContinuation(b: byte) { 0x80 <= b < 0xC0 }

  /** The Unicode scalar values: what an encoder may be given. */
  predicate IsScalar(cp: int) { 0 <= cp <= 0x10FFFF && !(0xD800 <= cp <= 0xDFFF) }

  predicate AllScalars(cps: seq<int>) { forall k :: 0 <= k < |cps| ==> IsScalar(cps[k]) }

  // ---- Encoding ----

  /** The UTF-8 form of `cp`; U+FFFD for surrogates and values out of range. */
  function Encode(cp: int): (r: bytes)
    ensures 1 <= |r| <= 4
    ensures !IsContinuation(r[0]) && forall k :: 1 <= k < |r| ==> IsContinuation(r[k])
  {
    var c := if IsScalar(cp) then cp else REPLACEMENT;
    var c6, c12, c18 := c / 64, c / 64 / 64, c / 64 / 64 / 64;
    if c < 0x80 then [c]
    else if c < 0x800 then [0xC0 + c6, 0x80 + c % 64]
    else if c < 0x10000 then [0xE0 + c12, 0x80 + c6 % 64, 0x80 + c % 64]
    else [0xF0 + c18, 0x80 + c12 % 64, 0x80 + c6 % 64, 0x80 + c % 64]
  }

  function EncodeAll(cps: seq<int>): bytes
  {
    if cps == [] then [] else Encode(cps[0]) + EncodeAll(cps[1..])
  }

  // ---- Decoding ----

  /** How many bytes a sequence led by `b` takes; 0 when `b` leads none. */
  function LeadLength(b: byte): nat
  {
    if b < 0x80 then 1
    else if b < 0xC0 then 0
    else if b < 0xE0 then 2
    else if b < 0xF0 then 3
    else if b < 0xF8 then 4
    else 0
  }

  function LeadPayload(b: byte): nat
  {
    if b < 0x80 then b else if b < 0xE0 then b % 32 else if b < 0xF0 then b % 16 else b % 8
  }

  /** `b & 0x3F` */
  function SixBits(b: byte): nat { b % 64 }

  function LeastOfLength(len: nat): nat
  {
    if len == 2 then 0x80 else if len == 3 then 0x800 else if len == 4 then 0x10000 else 0
  }

  /** The value of the first `k` bytes of the sequence led at `i`. */
  function Gathered(s: bytes, i: nat, k: nat): int
    requires 1 <= k && i + k <= |s| && LeadLength(s[i]) > 0
  {
    if k == 1 then LeadPayload(s[i]) else Gathered(s, i, k - 1) * 64 + SixBits(s[i + k - 1])
  }

  predicate ContinuedAt(s: bytes, i: nat, len: nat)
    requires i + len <= |s|
  {
    forall k :: i < k < i + len ==> IsContinuation(s[k])
  }

  /** A complete sequence of two bytes or more whose value the decoder accepts starts at `i`. */
  predicate MultiByteAt(s: bytes, i: nat)
  {
    && i < |s|
    && var len := LeadLength(s[i]);
    && 2 <= len
    && i + len <= |s|
    && ContinuedAt(s, i, len)
    && LeastOfLength(len) <= Gathered(s, i, len)
    && IsScalar(Gathered(s, i, len))
  }

  /** The code point at `i` and the index after it; a bad byte is U+FFFD and takes one byte. */
  function Decode(s: bytes, i: nat): (r: (int, nat))
    ensures i < |s| ==> i < r.1 <= |s| && r.1 <= i + 4 && IsScalar(r.0)
    ensures i >= |s| ==> r == (REPLACEMENT, i)
  {
    if i >= |s| then (REPLACEMENT, i)
    else if s[i] < 0x80 then (s[i], i + 1)
    else if MultiByteAt(s, i) then (Gathered(s, i, LeadLength(s[i])), i + LeadLength(s[i]))
    else (REPLACEMENT, i + 1)
  }

  function Next(s: bytes, i: nat): nat { Decode(s, i).1 }

  function DecodeFrom(s: bytes, i: nat): (r: seq<int>)
    requires i <= |s|
    ensures AllScalars(r)
    decreases |s| - i
  {
    if i == |s| then [] else [Decode(s, i).0] + DecodeFrom(s, Next(s, i))
  }

  function DecodeAll(s: bytes): (r: seq<int>)
    ensures AllScalars(r)
  {
    DecodeFrom(s, 0)
  }

  /** The decoder's own control flow: lead byte, gathering loop, range checks. */
  method DecodeStep(s: bytes, i: nat) returns (cp: int, next: nat)
    ensures (cp, next) == Decode(s, i)
  {
    if i >= |s| { return REPLACEMENT, i; }
    var b0 := s[i];
    if b0 < 0x80 { return b0, i + 1; }
    var len, least;
    if 0xC0 <= b0 < 0xE0 {
      len, cp, least := 2, b0 % 32, 0x80;
    } else if 0xE0 <= b0 < 0xF0 {
      len, cp, least := 3, b0 % 16, 0x800;
    } else if 0xF0 <= b0 < 0xF8 {
      len, cp, least := 4, b0 % 8, 0x10000;
    } else {
      return REPLACEMENT, i + 1;
    }
    if i + len > |s| { return REPLACEMENT, i + 1; }
    var k := 1;
    while k < len
      invariant 1 <= k <= len
      invariant ContinuedAt(s, i, k)
      invariant cp == Gathered(s, i, k)
    {
      var b := s[i + k];
      if !(0x80 <= b < 0xC0) { return REPLACEMENT, i + 1; }
      cp := cp * 64 + SixBits(b);
      k := k + 1;
    }
    if cp < least || cp > 0x10FFFF || 0xD800 <= cp <= 0xDFFF { return REPLACEMENT, i + 1; }
    next := i + len;
  }

  /** Section 4 of RFC 3629: the byte ranges of the well-formed sequences of two bytes or more. */
  predicate Rfc3629At(s: bytes, i: nat)
  {
    || (i + 2 <= |s| && 0xC2 <= s[i] <= 0xDF && IsContinuation(s[i + 1]))
    || (&& i + 3 <= |s| && IsContinuation(s[i + 1]) && IsContinuation(s[i + 2])
        && (|| (s[i] == 0xE0 && 0xA0 <= s[i + 1])
            || 0xE1 <= s[i] <= 0xEC
            || (s[i] == 0xED && s[i + 1] <= 0x9F)
            || 0xEE <= s[i] <= 0xEF))
    || (&& i + 4 <= |s| && IsContinuation(s[i + 1]) && IsContinuation(s[i + 2]) && IsContinuation(s[i + 3])
        && (|| (s[i] == 0xF0 && 0x90 <= s[i + 1])
            || 0xF1 <= s[i] <= 0xF3
            || (s[i] == 0xF4 && s[i + 1] <= 0x8F)))
  }

  lemma GatheredForms(s: bytes, i: nat, k: nat)
    requires 1 <= k <= 4 && i + k <= |s| && LeadLength(s[i]) > 0
    ensures k == 1 ==> Gathered(s, i, k) == LeadPayload(s[i])
    ensures k == 2 ==> Gathered(s, i, k) == LeadPayload(s[i]) * 64 + SixBits(s[i + 1])
    ensures k == 3 ==> Gathered(s, i, k) == (LeadPayload(s[i]) * 64 + SixBits(s[i + 1])) * 64 + SixBits(s[i + 2])
    ensures k == 4 ==> Gathered(s, i, k)
                       == ((LeadPayload(s[i]) * 64 + SixBits(s[i + 1])) * 64 + SixBits(s[i + 2])) * 64 + SixBits(s[i + 3])
  {
    if k > 1 { GatheredForms(s, i, k - 1); }
  }

  lemma AcceptsOfTwo(s: bytes, i: nat)
    requires i + 2 <= |s| && LeadLength(s[i]) == 2
    ensures MultiByteAt(s, i) <==> Rfc3629At(s, i)
  {
    hide Gathered;
    GatheredForms(s, i, 2);
    assert ContinuedAt(s, i, 2) <==> IsContinuation(s[i + 1]);
  }

  lemma AcceptsOfThree(s: bytes, i: nat)
    requires i + 3 <= |s| && LeadLength(s[i]) == 3
    ensures MultiByteAt(s, i) <==> Rfc3629At(s, i)
  {
    hide Gathered;
    GatheredForms(s, i, 3);
    assert ContinuedAt(s, i, 3) <==> IsContinuation(s[i + 1]) && IsContinuation(s[i + 2]);
  }

  lemma AcceptsOfFour(s: bytes, i: nat)
    requires i + 4 <= |s| && LeadLength(s[i]) == 4
    ensures MultiByteAt(s, i) <==> Rfc3629At(s, i)
  {
    hide Gathered;
    GatheredForms(s, i, 4);
    assert ContinuedAt(s, i, 4) <==> IsContinuation(s[i + 1]) && IsContinuation(s[i + 2]) && IsContinuation(s[i + 3]);
  }

  /** The decoder's value checks accept exactly the byte sequences of the standard's grammar. */
  lemma AcceptsExactlyTheStandard(s: bytes, i: nat)
    ensures MultiByteAt(s, i) <==> Rfc3629At(s, i)
  {
    if i < |s| && 2 <= LeadLength(s[i]) && i + LeadLength(s[i]) <= |s| {
      hide MultiByteAt, Rfc3629At;
      match LeadLength(s[i])
      case 2 => AcceptsOfTwo(s, i);
      case 3 => AcceptsOfThree(s, i);
      case _ => AcceptsOfFour(s, i);
    }
  }

  // ---- Decoding and encoding undo each other ----

  lemma Push6(v: nat, x: nat)
    requires x < 64
    ensures (v * 64 + x) / 64 == v && (v * 64 + x) % 64 == x
  {
  }

  lemma ContinuationBits(b: byte)
    requires IsContinuation(b)
    ensures SixBits(b) < 64 && b == 0x80 + SixBits(b)
  {
  }

  lemma LeadBits(b: byte)
    requires LeadLength(b) >= 2
    ensures b == (if b < 0xE0 then 0xC0 else if b < 0xF0 then 0xE0 else 0xF0) + LeadPayload(b)
  {
  }

  lemma EncodedForm(cp: int, s: bytes, i: nat)
    requires IsScalar(cp)
    requires i + |Encode(cp)| <= |s| && s[i..i + |Encode(cp)|] == Encode(cp)
    ensures Decode(s, i) == (cp, i + |Encode(cp)|)
    ensures MultiByteAt(s, i) <==> cp >= 0x80
  {
    var e := Encode(cp);
    forall k | 0 <= k < |e| ensures s[i + k] == e[k] {
      assert s[i..i + |e|][k] == e[k];
    }
    if cp >= 0x80 {
      EncodedGathers(cp);
      assert LeadLength(s[i]) == |e|;
      assert ContinuedAt(s, i, |e|) by {
        forall k | i < k < i + |e| ensures IsContinuation(s[k]) { assert s[i + (k - i)] == e[k - i]; }
      }
      GatheredSame(s, i, e, 0, |e|);
    }
  }

  lemma {:induction false} GatheredSame(s: bytes, i: nat, e: bytes, j: nat, k: nat)
    requires 1 <= k && i + k <= |s| && j + k <= |e| && s[i..i + k] == e[j..j + k] && LeadLength(e[j]) > 0
    ensures s[i] == e[j] && Gathered(s, i, k) == Gathered(e, j, k)
  {
    assert s[i..i + k][0] == e[j..j + k][0] && s[i..i + k][k - 1] == e[j..j + k][k - 1];
    if k > 1 {
      assert s[i..i + (k - 1)] == s[i..i + k][..k - 1] == e[j..j + k][..k - 1] == e[j..j + (k - 1)];
      GatheredSame(s, i, e, j, k - 1);
    }
  }

  lemma EncodedGathers(cp: int)
    requires IsScalar(cp) && cp >= 0x80
    ensures LeadLength(Encode(cp)[0]) == |Encode(cp)| >= 2
    ensures Gathered(Encode(cp), 0, |Encode(cp)|) == cp
    ensures LeastOfLength(|Encode(cp)|) <= cp
  {
    var e := Encode(cp);
    GatheredForms(e, 0, |e|);
    LeadBits(e[0]);
    ContinuationBits(e[1]);
    if |e| >= 3 { ContinuationBits(e[2]); }
    if |e| >= 4 { ContinuationBits(e[3]); }
  }

  lemma EncodedDigits(p: nat, x: nat, y: nat, z: nat)
    requires p < 32 && x < 64 && y < 64 && z < 64
    ensures 0x80 <= p * 64 + x < 0x800 ==> Encode(p * 64 + x) == [0xC0 + p, 0x80 + x]
    ensures var v := (p * 64 + x) * 64 + y;
            p < 16 && 0x800 <= v && IsScalar(v) ==> Encode(v) == [0xE0 + p, 0x80 + x, 0x80 + y]
    ensures var v := ((p * 64 + x) * 64 + y) * 64 + z;
            p < 8 && 0x10000 <= v && IsScalar(v) ==> Encode(v) == [0xF0 + p, 0x80 + x, 0x80 + y, 0x80 + z]
  {
    Push6(p, x);
    Push6(p * 64 + x, y);
    Push6((p * 64 + x) * 64 + y, z);
  }

  lemma DecodedTwo(s: bytes, i: nat)
    requires MultiByteAt(s, i) && LeadLength(s[i]) == 2
    ensures Encode(Gathered(s, i, 2)) == [s[i], s[i + 1]]
  {
    hide Encode, Gathered;
    GatheredForms(s, i, 2);
    LeadBits(s[i]);
    ContinuationBits(s[i + 1]);
    EncodedDigits(LeadPayload(s[i]), SixBits(s[i + 1]), 0, 0);
  }

  lemma DecodedThree(s: bytes, i: nat)
    requires MultiByteAt(s, i) && LeadLength(s[i]) == 3
    ensures Encode(Gathered(s, i, 3)) == [s[i], s[i + 1], s[i + 2]]
  {
    hide Encode, Gathered;
    GatheredForms(s, i, 3);
    LeadBits(s[i]);
    ContinuationBits(s[i + 1]);
    ContinuationBits(s[i + 2]);
    EncodedDigits(LeadPayload(s[i]), SixBits(s[i + 1]), SixBits(s[i + 2]), 0);
  }

  lemma DecodedFour(s: bytes, i: nat)
    requires MultiByteAt(s, i) && LeadLength(s[i]) == 4
    ensures Encode(Gathered(s, i, 4)) == [s[i], s[i + 1], s[i + 2], s[i + 3]]
  {
    hide Encode, Gathered;
    GatheredForms(s, i, 4);
    LeadBits(s[i]);
    ContinuationBits(s[i + 1]);
    ContinuationBits(s[i + 2]);
    ContinuationBits(s[i + 3]);
    EncodedDigits(LeadPayload(s[i]), SixBits(s[i + 1]), SixBits(s[i + 2]), SixBits(s[i + 3]));
  }

  lemma DecodedForm(s: bytes, i: nat)
    requires i < |s|
    requires s[i] < 0x80 || MultiByteAt(s, i)
    ensures Encode(Decode(s, i).0) == s[i..Next(s, i)]
  {
    if s[i] < 0x80 {
    } else {
      var len := LeadLength(s[i]);
      assert Decode(s, i) == (Gathered(s, i, len), i + len);
      hide Encode, Decode, Gathered;
      match len {
        case 2 =>
          DecodedTwo(s, i);
          assert s[i..i + 2] == [s[i], s[i + 1]];
        case 3 =>
          DecodedThree(s, i);
          assert s[i..i + 3] == [s[i], s[i + 1], s[i + 2]];
        case _ =>
          DecodedFour(s, i);
          assert s[i..i + 4] == [s[i], s[i + 1], s[i + 2], s[i + 3]];
      }
    }
  }

  lemma {:induction false} DecodeEncodeFrom(cps: seq<int>, s: bytes, i: nat)
    requires AllScalars(cps) && i <= |s| && s[i..] == EncodeAll(cps)
    ensures DecodeFrom(s, i) == cps
    decreases |cps|
  {
    hide Encode, MultiByteAt, Decode;
    if cps == [] {
    } else {
      var e := Encode(cps[0]);
      assert s[i..i + |e|] == s[i..][..|e|] == e;
      EncodedForm(cps[0], s, i);
      assert s[i + |e|..] == s[i..][|e|..] == EncodeAll(cps[1..]);
      DecodeEncodeFrom(cps[1..], s, i + |e|);
    }
  }

  /** Section 3 of RFC 3629: decoding gives back every sequence of scalar values that was encoded. */
  lemma DecodeInvertsEncode(cps: seq<int>)
    requires AllScalars(cps)
    ensures DecodeAll(EncodeAll(cps)) == cps
  {
    DecodeEncodeFrom(cps, EncodeAll(cps), 0);
  }

  // ---- Order ----

  /** `a` comes before `b` in the order of bytes. */
  predicate Precedes(a: bytes, b: bytes)
  {
    b != [] && (a == [] || a[0] < b[0] || (a[0] == b[0] && Precedes(a[1..], b[1..])))
  }

  lemma {:induction false} FirstDiffers(a: bytes, b: bytes, k: nat)
    requires k < |a| && k < |b| && a[k] < b[k] && forall j :: 0 <= j < k ==> a[j] == b[j]
    ensures Precedes(a, b)
  {
    if k > 0 { FirstDiffers(a[1..], b[1..], k - 1); }
  }

  lemma {:induction false} PrecedesIsStrict(a: bytes, b: bytes)
    requires Precedes(a, b)
    ensures a != b && !Precedes(b, a)
  {
    if a != [] && a[0] == b[0] { PrecedesIsStrict(a[1..], b[1..]); }
  }

  lemma LastDigit(x: nat, y: nat)
    requires x < y
    ensures x / 64 < y / 64 || (x / 64 == y / 64 && x % 64 < y % 64)
  {
  }

  lemma LongerFollows(x: int, y: int)
    requires IsScalar(x) && IsScalar(y) && x < y && |Encode(x)| != |Encode(y)|
    ensures Encode(x)[0] < Encode(y)[0]
  {
  }

  lemma SameLengthDiffers(x: int, y: int) returns (k: nat)
    requires IsScalar(x) && IsScalar(y) && x < y && |Encode(x)| == |Encode(y)|
    ensures var a, b := Encode(x), Encode(y); k < |a| && a[k] < b[k] && forall j :: 0 <= j < k ==> a[j] == b[j]
  {
    var x6, y6 := x / 64, y / 64;
    var x12, y12 := x6 / 64, y6 / 64;
    LastDigit(x, y);
    if x6 < y6 { LastDigit(x6, y6); }
    if x12 < y12 { LastDigit(x12, y12); }
    var below := if x6 == y6 then 0 else if x12 == y12 then 1 else if x12 / 64 == y12 / 64 then 2 else 3;
    k := if below >= |Encode(x)| then 0 else |Encode(x)| - 1 - below;
  }

  lemma SmallerPrecedes(x: int, y: int)
    requires IsScalar(x) && IsScalar(y) && x < y
    ensures Precedes(Encode(x), Encode(y))
  {
    hide Precedes, Encode;
    if |Encode(x)| != |Encode(y)| {
      LongerFollows(x, y);
      FirstDiffers(Encode(x), Encode(y), 0);
    } else {
      var k := SameLengthDiffers(x, y);
      FirstDiffers(Encode(x), Encode(y), k);
    }
  }

  /** Section 1 of RFC 3629: encodings are ordered as bytes like the code points they stand for. */
  lemma OrderIsKept(x: int, y: int)
    requires IsScalar(x) && IsScalar(y)
    ensures Precedes(Encode(x), Encode(y)) <==> x < y
  {
    hide Encode, Precedes;
    if x < y {
      SmallerPrecedes(x, y);
    } else if Precedes(Encode(x), Encode(y)) {
      PrecedesIsStrict(Encode(x), Encode(y));
      if y < x { SmallerPrecedes(y, x); }
    }
  }

  // ---- Validity ----

  /** The text is made of whole well-formed sequences from `i` on. */
  predicate ValidFrom(s: bytes, i: nat)
    requires i <= |s|
    decreases |s| - i
  {
    i == |s| || ((s[i] < 0x80 || MultiByteAt(s, i)) && ValidFrom(s, Next(s, i)))
  }

  predicate Valid(s: bytes) { ValidFrom(s, 0) }

  lemma {:induction false} ValidFromReencodes(s: bytes, i: nat)
    requires i <= |s|
    ensures ValidFrom(s, i) <==> EncodeAll(DecodeFrom(s, i)) == s[i..]
    decreases |s| - i
  {
    if i < |s| {
      var j := Next(s, i);
      ValidFromReencodes(s, j);
      var d := DecodeFrom(s, i);
      assert d[1..] == DecodeFrom(s, j);
      if s[i] < 0x80 || MultiByteAt(s, i) {
        DecodedForm(s, i);
        assert s[i..] == s[i..j] + s[j..];
        if EncodeAll(d) == s[i..] {
          assert EncodeAll(DecodeFrom(s, j)) == EncodeAll(d)[j - i..] == s[i..][j - i..] == s[j..];
        }
      } else if EncodeAll(d) == s[i..] {
        assert Encode(REPLACEMENT) == [0xEF, 0xBF, 0xBD];
        assert EncodeAll(d)[0] == s[i] && EncodeAll(d)[1] == s[i + 1] && EncodeAll(d)[2] == s[i + 2];
        AcceptsExactlyTheStandard(s, i);
        assert false;
      }
    }
  }

  lemma ValidIffReencodes(s: bytes)
    ensures Valid(s) <==> EncodeAll(DecodeAll(s)) == s
  {
    ValidFromReencodes(s, 0);
    assert s[0..] == s;
  }

  /** Valid text is exactly what encoding a sequence of scalar values yields. */
  lemma ValidIffEncoded(s: bytes)
    ensures Valid(s) <==> exists cps :: AllScalars(cps) && s == EncodeAll(cps)
  {
    ValidIffReencodes(s);
    if Valid(s) {
      assert AllScalars(DecodeAll(s)) && s == EncodeAll(DecodeAll(s));
    }
    forall cps | AllScalars(cps) && s == EncodeAll(cps) ensures Valid(s) {
      DecodeInvertsEncode(cps);
    }
  }

  lemma EncodeAllIsValid(cps: seq<int>)
    requires AllScalars(cps)
    ensures Valid(EncodeAll(cps))
  {
    ValidIffEncoded(EncodeAll(cps));
  }

  method IsLiteralReplacement(s: bytes, start: nat, end: nat) returns (r: bool)
    requires start < |s| && end == Next(s, start) && s[start] >= 0x80 && Decode(s, start).0 == REPLACEMENT
    ensures r <==> MultiByteAt(s, start)
  {
    r := end - start == 3 && s[start] == 0xEF;
    if MultiByteAt(s, start) { DecodedForm(s, start); }
  }

  method IsValid(s: bytes) returns (ok: bool)
    ensures ok <==> Valid(s)
  {
    var i := 0;
    while i < |s|
      invariant i <= |s|
      invariant Valid(s) <==> ValidFrom(s, i)
    {
      if s[i] < 0x80 {
        i := i + 1;
      } else {
        var start := i;
        var cp;
        cp, i := DecodeStep(s, i);
        if cp == REPLACEMENT {
          var literal := IsLiteralReplacement(s, start, i);
          if !literal { return false; }
        }
      }
    }
    ok := true;
  }

  lemma {:induction false} EncodeAllAppend(a: seq<int>, b: seq<int>)
    ensures EncodeAll(a + b) == EncodeAll(a) + EncodeAll(b)
  {
    if a == [] {
      assert a + b == b;
    } else {
      assert (a + b)[0] == a[0] && (a + b)[1..] == a[1..] + b;
      EncodeAllAppend(a[1..], b);
    }
  }

  lemma EncodeAllPush(a: seq<int>, cp: int)
    ensures EncodeAll(a + [cp]) == EncodeAll(a) + Encode(cp)
  {
    EncodeAllAppend(a, [cp]);
    assert EncodeAll([cp]) == Encode(cp) + EncodeAll([]);
  }

  lemma PushFront(a: seq<int>, x: int, b: seq<int>)
    ensures a + ([x] + b) == a + [x] + b
  {
  }

  /** What `Sanitize` appends for the step at `i` is what that step's code point encodes to. */
  lemma StepEncodes(s: bytes, i: nat)
    requires i < |s|
    ensures Encode(Decode(s, i).0)
            == if s[i] < 0x80 || MultiByteAt(s, i) then s[i..Next(s, i)] else Encode(REPLACEMENT)
  {
    if s[i] < 0x80 || MultiByteAt(s, i) {
      DecodedForm(s, i);
    } else {
      assert Decode(s, i).0 == REPLACEMENT;
    }
  }

  /** Every bad byte becomes one U+FFFD, the rest stays: valid text, and valid text is unchanged. */
  method Sanitize(s: bytes) returns (out: bytes)
    ensures Valid(out)
    ensures out == EncodeAll(DecodeAll(s))
    ensures out == s <==> Valid(s)
  {
    EncodeAllIsValid(DecodeAll(s));
    ValidIffReencodes(s);
    var valid := IsValid(s);
    if valid { return s; }
    out := [];
    var i := 0;
    ghost var seen := [];
    while i < |s|
      invariant i <= |s|
      invariant DecodeAll(s) == seen + DecodeFrom(s, i)
      invariant out == EncodeAll(seen)
    {
      var start := i;
      var cp;
      cp, i := DecodeStep(s, i);
      EncodeAllPush(seen, cp);
      StepEncodes(s, start);
      PushFront(seen, cp, DecodeFrom(s, i));
      var literal := false;
      if cp == REPLACEMENT && s[start] >= 0x80 { literal := IsLiteralReplacement(s, start, i); }
      if cp == REPLACEMENT && !literal {
        out := out + Encode(REPLACEMENT);
      } else {
        out := out + s[start..i];
      }
      seen := seen + [cp];
    }
    assert seen + [] == seen;
  }

  // ---- Boundaries ----

  /** Stepping forward from `b` arrives at `i`. */
  predicate Reaches(s: bytes, b: nat, i: nat)
    decreases |s| - b
  {
    b == i || (b < |s| && b < i && Reaches(s, Next(s, b), i))
  }

  predicate IsBoundary(s: bytes, i: nat) { i <= |s| && Reaches(s, 0, i) }

  /** A sequence that starts before `i` ends after it. */
  predicate Spans(s: bytes, j: nat, i: nat) { j < i && MultiByteAt(s, j) && i < j + LeadLength(s[j]) }

  lemma {:induction false} ReachedIsUnspanned(s: bytes, b: nat, j: nat, i: nat)
    requires Reaches(s, b, i) && b <= j < i
    ensures !Spans(s, j, i)
    decreases |s| - b
  {
    var n := Next(s, b);
    if n <= j {
      ReachedIsUnspanned(s, n, j, i);
    } else if b < j && MultiByteAt(s, b) {
      assert IsContinuation(s[j]);
    }
  }

  lemma {:induction false} UnspannedIsReached(s: bytes, b: nat, i: nat)
    requires b <= i <= |s| && forall j :: b <= j < i ==> !Spans(s, j, i)
    ensures Reaches(s, b, i)
    decreases i - b
  {
    if b < i {
      assert !Spans(s, b, i);
      UnspannedIsReached(s, Next(s, b), i);
    }
  }

  /** Self-synchronisation: whether `i` is a boundary is decided by the three bytes before it alone. */
  lemma BoundaryIffUnspanned(s: bytes, i: nat)
    requires i <= |s|
    ensures IsBoundary(s, i) <==> forall j :: i - 3 <= j < i && 0 <= j ==> !Spans(s, j, i)
  {
    if IsBoundary(s, i) {
      forall j: nat | j < i ensures !Spans(s, j, i) { ReachedIsUnspanned(s, 0, j, i); }
    } else if forall j :: i - 3 <= j < i && 0 <= j ==> !Spans(s, j, i) {
      forall j | 0 <= j < i ensures !Spans(s, j, i) { }
      UnspannedIsReached(s, 0, i);
    }
  }

  lemma InsideIsContinuation(s: bytes, j: nat)
    ensures forall k :: j < k < Next(s, j) && k < |s| ==> IsContinuation(s[k])
  {
  }

  lemma NotContinuationIsBoundary(s: bytes, i: nat)
    requires i < |s| && !IsContinuation(s[i])
    ensures IsBoundary(s, i)
  {
    forall j: nat | i - 3 <= j < i ensures !Spans(s, j, i) { InsideIsContinuation(s, j); }
    BoundaryIffUnspanned(s, i);
  }

  lemma {:induction false} ReachesStep(s: bytes, b: nat, i: nat)
    requires Reaches(s, b, i) && i < |s|
    ensures Reaches(s, b, Next(s, i))
    decreases |s| - b
  {
    if b != i { ReachesStep(s, Next(s, b), i); }
  }

  method NextBoundary(s: bytes, i: nat) returns (r: nat)
    ensures i < |s| ==> r == Next(s, i)
    ensures i >= |s| ==> r == |s|
    ensures IsBoundary(s, i) ==> IsBoundary(s, r) && forall b :: i < b < r ==> !IsBoundary(s, b)
  {
    if i >= |s| { return |s|; }
    var cp;
    cp, r := DecodeStep(s, i);
    if IsBoundary(s, i) {
      ReachesStep(s, 0, i);
      forall b | i < b < r ensures !IsBoundary(s, b) {
        if IsBoundary(s, b) { ReachedIsUnspanned(s, 0, i, b); }
      }
    }
  }

  /** Stepping back from a boundary lands on the boundary just before it, on any bytes. */
  method PrevBoundary(s: bytes, i: nat) returns (r: nat)
    ensures i == 0 ==> r == 0
    ensures i > |s| ==> r == |s|
    ensures 0 < i && IsBoundary(s, i) ==>
              r < i && IsBoundary(s, r) && Next(s, r) == i && forall b :: r < b < i ==> !IsBoundary(s, b)
  {
    if i == 0 { return 0; }
    if i > |s| { return |s|; }
    var j, k := i - 1, 0;
    while k < 3 && j > 0 && IsContinuation(s[j])
      invariant 0 <= k <= 3 && j == i - 1 - k && 0 <= j
      invariant forall m :: j < m < i ==> IsContinuation(s[m])
    {
      j, k := j - 1, k + 1;
    }
    var cp, probe := DecodeStep(s, j);
    r := if probe == i then j else i - 1;
    if IsBoundary(s, i) {
      if probe == i {
        if j != i - 1 {
          assert MultiByteAt(s, j);
          NotContinuationIsBoundary(s, j);
        }
      }
      LastStep(s, i, j);
    }
  }

  /** With only continuation bytes after `j`, the step that ends at `i` starts at `j` or just before `i`. */
  lemma LastStep(s: bytes, i: nat, j: nat)
    requires IsBoundary(s, i) && i - 4 <= j < i
    requires forall m :: j < m < i ==> IsContinuation(s[m])
    requires i - 4 < j ==> j == 0 || !IsContinuation(s[j])
    ensures var r := if Next(s, j) == i then j else i - 1;
            IsBoundary(s, r) && Next(s, r) == i && forall b :: r < b < i ==> !IsBoundary(s, b)
  {
    var p := Predecessor(s, 0, i);
    InsideIsContinuation(s, p);
    if p == i - 1 && Next(s, j) == i && j < p {
      NotContinuationIsBoundary(s, j);
      ReachedIsUnspanned(s, 0, j, p);
    }
    forall b | p < b < i ensures !IsBoundary(s, b) {
      if IsBoundary(s, b) { ReachedIsUnspanned(s, 0, p, b); }
    }
  }

  lemma {:induction false} Predecessor(s: bytes, b: nat, i: nat) returns (p: nat)
    requires Reaches(s, b, i) && b < i
    ensures Reaches(s, b, p) && b <= p < i && p < |s| && Next(s, p) == i
    decreases |s| - b
  {
    if Next(s, b) == i {
      p := b;
    } else {
      p := Predecessor(s, Next(s, b), i);
    }
  }

  /** The largest boundary at or below the limit: cutting there never splits a sequence. */
  method TruncateAt(s: bytes, maxBytes: nat) returns (r: nat)
    ensures r <= maxBytes && IsBoundary(s, r)
    ensures forall b :: r < b <= maxBytes ==> !IsBoundary(s, b)
  {
    if maxBytes >= |s| {
      BoundaryIffUnspanned(s, |s|);
      return |s|;
    }
    var lead, k := maxBytes, 0;
    while k < 3 && lead > 0 && IsContinuation(s[lead])
      invariant 0 <= k <= 3 && lead == maxBytes - k && 0 <= lead
      invariant forall m :: lead < m <= maxBytes ==> IsContinuation(s[m])
    {
      lead, k := lead - 1, k + 1;
    }
    BoundaryIffUnspanned(s, maxBytes);
    if IsContinuation(s[lead]) {
      return maxBytes;
    }
    var cp, end := DecodeStep(s, lead);
    NotContinuationIsBoundary(s, lead);
    r := if end > maxBytes then lead else maxBytes;
    if end > maxBytes {
      forall b | lead < b <= maxBytes ensures !IsBoundary(s, b) {
        if IsBoundary(s, b) { ReachedIsUnspanned(s, 0, lead, b); }
      }
    }
  }
}
