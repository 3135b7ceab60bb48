/**
 * A face's coverage (src/text/font_index.cpp): raw character-map ranges are
 * sorted, merged, coded as gaps in variable-length bytes, and looked up behind a
 * bitmap of 256-code-point blocks.
 */
module FontCoverage {
  import U = Utf8
  import opened Varints

  type byte = U.byte
  type bytes = U.bytes

  const MAX_CP := 0x10FFFF
  const BLOCKS := 768

  datatype Range = Range(first: nat, last: nat)

  predicate InRange(r: Range, cp: nat) { r.first <= cp <= r.last }

  ghost predicate InRanges(rs: seq<Range>, cp: nat) { exists r :: r in rs && InRange(r, cp) }

  /** What the character-map readers produce. */
  predicate Usable(rs: seq<Range>) { forall i :: 0 <= i < |rs| ==> rs[i].first <= rs[i].last <= MAX_CP }

  // ---- Sorting and merging ----

  predicate Before(a: Range, b: Range) { a.first < b.first || (a.first == b.first && a.last <= b.last) }

  predicate Sorted(rs: seq<Range>) { forall i, j :: 0 <= i < j < |rs| ==> Before(rs[i], rs[j]) }

  /** Stands for std::sort on pairs. */
  method SortRanges(raw: seq<Range>) returns (rs: seq<Range>)
    ensures Sorted(rs) && multiset(rs) == multiset(raw)
  {
    hide Sorted;
    rs := [];
    NoRanges();
    var i: nat := 0;
    while i < |raw|
      invariant i <= |raw| && Sorted(rs) && multiset(rs) == multiset(raw[..i])
    {
      OneMore(raw, i);
      rs := InsertRange(rs, raw[i]);
      i := i + 1;
    }
    assert raw[..i] == raw;
  }

  method InsertRange(rs: seq<Range>, x: Range) returns (r: seq<Range>)
    requires Sorted(rs)
    ensures Sorted(r) && multiset(r) == multiset(rs) + multiset{x}
  {
    var j: nat := |rs|;
    while j > 0 && !Before(rs[j - 1], x)
      invariant j <= |rs| && forall k :: j <= k < |rs| ==> Before(x, rs[k])
    {
      j := j - 1;
    }
    var a, b := rs[..j], rs[j..];
    assert rs == a + b;
    hide Before, Sorted;
    SortedInsert(a, x, b);
    Inserted(a, x, b);
    r := a + [x] + b;
  }

  lemma NoRanges()
    ensures Sorted([])
  {
  }

  lemma OneMore(raw: seq<Range>, i: nat)
    requires i < |raw|
    ensures multiset(raw[..i + 1]) == multiset(raw[..i]) + multiset{raw[i]}
  {
    assert raw[..i + 1] == raw[..i] + [raw[i]];
  }

  lemma Inserted(a: seq<Range>, x: Range, b: seq<Range>)
    ensures multiset(a + [x] + b) == multiset(a + b) + multiset{x}
  {
  }

  lemma SortedInsert(a: seq<Range>, x: Range, b: seq<Range>)
    requires Sorted(a + b) && (a != [] ==> Before(a[|a| - 1], x)) && forall k :: 0 <= k < |b| ==> Before(x, b[k])
    ensures Sorted(a + [x] + b)
  {
    var s, t := a + b, a + [x] + b;
    forall i | 0 <= i < |a| ensures Before(t[i], x) { assert s[i] == a[i] && s[|a| - 1] == a[|a| - 1]; }
    forall i, j | 0 <= i < j < |t| ensures Before(t[i], t[j]) {
      if i != |a| && j != |a| {
        assert t[i] == s[if i < |a| then i else i - 1] && t[j] == s[if j < |a| then j else j - 1];
      }
    }
  }

  /** In order, with at least one code point left out between two ranges. */
  predicate Separated(rs: seq<Range>)
  {
    && (forall i :: 0 <= i < |rs| ==> rs[i].first <= rs[i].last)
    && (forall i, j :: 0 <= i < j < |rs| ==> rs[i].last + 1 < rs[j].first)
  }

  /** The union of the raw ranges, in as few ranges as possible. */
  method Coverage(raw: seq<Range>) returns (merged: seq<Range>)
    requires Usable(raw)
    ensures Separated(merged) && Usable(merged) && (merged == [] <==> raw == [])
    ensures forall cp: nat :: InRanges(merged, cp) <==> InRanges(raw, cp)
  {
    hide InRanges, Before;
    var out := SortRanges(raw);
    SamePoints(raw, out);
    merged := [];
    var i: nat := 0;
    NoPoints();
    while i < |out|
      invariant i <= |out| && Separated(merged) && Usable(merged) && (merged == [] <==> i == 0)
      invariant i > 0 ==> merged[|merged| - 1].first <= out[i - 1].first
      invariant forall cp: nat :: InRanges(merged, cp) <==> InRanges(out[..i], cp)
    {
      var r, n := out[i], |merged|;
      assert r in out;
      assert out[..i + 1] == out[..i] + [r];
      assert i > 0 ==> Before(out[i - 1], r);
      ghost var was := merged;
      FirstInOrder(out, i);
      if n > 0 && r.first <= merged[n - 1].last + 1 {
        merged := merged[n - 1 := Range(merged[n - 1].first, if merged[n - 1].last < r.last then r.last else merged[n - 1].last)];
        forall cp: nat ensures InRanges(merged, cp) <==> InRanges(was, cp) || InRange(r, cp) { Extended(was, r, cp); }
      } else {
        merged := merged + [r];
        forall cp: nat ensures InRanges(merged, cp) <==> InRanges(was, cp) || InRange(r, cp) { Pushed(was, r, cp); }
      }
      forall cp: nat ensures InRanges(out[..i + 1], cp) <==> InRanges(out[..i], cp) || InRange(r, cp) { Pushed(out[..i], r, cp); }
      i := i + 1;
    }
    assert out[..i] == out;
  }

  lemma NoPoints()
    ensures forall cp: nat :: !InRanges([], cp)
  {
  }

  lemma FirstInOrder(out: seq<Range>, i: nat)
    requires Sorted(out) && i < |out|
    ensures i > 0 ==> out[i - 1].first <= out[i].first
  {
    assert i > 0 ==> Before(out[i - 1], out[i]);
  }

  lemma SamePoints(raw: seq<Range>, out: seq<Range>)
    requires multiset(out) == multiset(raw)
    ensures forall cp: nat :: InRanges(out, cp) <==> InRanges(raw, cp)
    ensures Usable(raw) ==> Usable(out)
    ensures raw == [] <==> out == []
  {
    forall r ensures r in out <==> r in raw { assert r in multiset(out) <==> r in multiset(raw); }
    if Usable(raw) {
      forall i | 0 <= i < |out| ensures out[i].first <= out[i].last <= MAX_CP { assert out[i] in raw; }
    }
    assert |multiset(out)| == |multiset(raw)|;
  }

  lemma Pushed(rs: seq<Range>, r: Range, cp: nat)
    ensures InRanges(rs + [r], cp) <==> InRanges(rs, cp) || InRange(r, cp)
  {
    assert r in rs + [r];
  }

  /** Stretching the last range over one that touches it. */
  lemma Extended(rs: seq<Range>, r: Range, cp: nat)
    requires rs != [] && rs[|rs| - 1].first <= r.first <= rs[|rs| - 1].last + 1 && r.first <= r.last
    ensures var b := rs[|rs| - 1];
            InRanges(rs[|rs| - 1 := Range(b.first, if b.last < r.last then r.last else b.last)], cp) <==> InRanges(rs, cp) || InRange(r, cp)
  {
    hide InRanges;
    var n, b := |rs| - 1, rs[|rs| - 1];
    var x := Range(b.first, if b.last < r.last then r.last else b.last);
    assert rs == rs[..n] + [b] && rs[n := x] == rs[..n] + [x];
    Pushed(rs[..n], b, cp);
    Pushed(rs[..n], x, cp);
  }

  // ---- Reading variable-length numbers ----

  /** Reads at `p` the bytes from number `k` of a value whose lower part is `x`. */
  function ReadVarint(v: bytes, p: nat, k: nat, x: nat): (r: (nat, nat))
    requires p <= |v| && k <= 5
    ensures p <= r.1 <= |v| && (p < |v| && k < 5 ==> p < r.1)
    decreases 5 - k
  {
    if p == |v| || k == 5 then (x, p)
    else
      var x1 := (x + v[p] % 0x80 * Pow128(k)) % WORD;
      if v[p] < 0x80 then (x1, p + 1) else ReadVarint(v, p + 1, k + 1, x1)
  }

  method GetVarint(v: bytes, p0: nat) returns (x: nat, p: nat)
    requires p0 <= |v|
    ensures (x, p) == ReadVarint(v, p0, 0, 0)
  {
    x, p := 0, p0;
    var k, unit: nat := 0, 1;
    while p < |v| && k < 5
      invariant p <= |v| && k <= 5 && unit == Pow128(k)
      invariant ReadVarint(v, p0, 0, 0) == ReadVarint(v, p, k, x)
      decreases 5 - k
    {
      var b := v[p];
      p := p + 1;
      x := (x + b % 0x80 * unit) % WORD;
      if b < 0x80 { return; }
      k, unit := k + 1, 0x80 * unit;
    }
  }

  /** A written 32-bit number is read back, up to its last byte and no further. */
  lemma {:induction false} VarintReadsBack(v: bytes, p: nat, k: nat, low: nat, x: nat)
    requires p <= |v| && k < 5 && Varint(x) <= v[p..] && low + x * Pow128(k) < WORD
    ensures ReadVarint(v, p, k, low) == (low + x * Pow128(k), p + |Varint(x)|)
    decreases x
  {
    hide Pow128, ReadVarint;
    VarintBytes(x);
    var w := Varint(x);
    assert v[p] == v[p..][0] == w[0];
    if x < 0x80 {
      LastDigit(v, p, k, low);
    } else {
      MoreDigits(k, low, x);
      TailOfPrefix(w, v, p);
      VarintReadsBack(v, p + 1, k + 1, low + x % 0x80 * Pow128(k), x / 0x80);
      NextDigit(v, p, k, low);
    }
  }

  lemma LastDigit(v: bytes, p: nat, k: nat, low: nat)
    requires p < |v| && v[p] < 0x80 && k < 5 && low + v[p] * Pow128(k) < WORD
    ensures ReadVarint(v, p, k, low) == (low + v[p] * Pow128(k), p + 1)
  {
    hide Pow128;
  }

  lemma NextDigit(v: bytes, p: nat, k: nat, low: nat)
    requires p < |v| && v[p] >= 0x80 && k < 5 && low + v[p] % 0x80 * Pow128(k) < WORD
    ensures ReadVarint(v, p, k, low) == ReadVarint(v, p + 1, k + 1, low + v[p] % 0x80 * Pow128(k))
  {
    hide Pow128;
    var sum := low + v[p] % 0x80 * Pow128(k);
    SmallWord(sum);
    ReadStep(v, p, k, low, sum);
  }

  lemma ReadStep(v: bytes, p: nat, k: nat, low: nat, sum: nat)
    requires p < |v| && v[p] >= 0x80 && k < 5 && sum == (low + v[p] % 0x80 * Pow128(k)) % WORD
    ensures ReadVarint(v, p, k, low) == ReadVarint(v, p + 1, k + 1, sum)
  {
    hide Pow128;
  }

  lemma TailOfPrefix(w: bytes, v: bytes, p: nat)
    requires p < |v| && w <= v[p..] && w != []
    ensures w[1..] <= v[p + 1..]
  {
    assert v[p..][1..] == v[p + 1..];
  }

  // ---- Coding ----

  function Encoded(rs: seq<Range>, prevEnd: nat): bytes
    requires Separated(rs) && (rs != [] ==> prevEnd <= rs[0].first)
  {
    if rs == [] then []
    else Varint(rs[0].first - prevEnd) + Varint(rs[0].last - rs[0].first) + Encoded(rs[1..], rs[0].last)
  }

  /** Bit b: some code point of block b is covered. */
  ghost predicate BlocksOf(blocks: seq<bool>, rs: seq<Range>)
  {
    |blocks| == BLOCKS && forall b: nat :: b < BLOCKS ==> (blocks[b] <==> exists r :: r in rs && r.first / 0x100 <= b <= r.last / 0x100)
  }

  /** The coverage bytes appended to the index, and the face's bitmap. */
  method Encode(cov0: bytes, rs: seq<Range>) returns (cov: bytes, blocks: seq<bool>)
    requires Separated(rs)
    ensures cov == cov0 + Encoded(rs, 0) && BlocksOf(blocks, rs)
  {
    hide Encoded, Varint, BlocksOf, Separated;
    cov, blocks := cov0, seq(BLOCKS, _ => false);
    NothingCoded(blocks);
    var prevEnd: nat, i: nat := 0, 0;
    assert rs[0..] == rs;
    while i < |rs|
      invariant i <= |rs| && (i < |rs| ==> prevEnd <= rs[i].first) && Separated(rs[i..])
      invariant cov + Encoded(rs[i..], prevEnd) == cov0 + Encoded(rs, 0)
      invariant BlocksOf(blocks, rs[..i])
    {
      var r := rs[i];
      EncodedStep(rs, i, prevEnd);
      Regroup(cov, Varint(r.first - prevEnd), Varint(r.last - r.first), Encoded(rs[i + 1..], r.last));
      cov := PutVarint(cov, r.first - prevEnd);
      cov := PutVarint(cov, r.last - r.first);
      prevEnd := r.last;
      blocks := MarkBlocks(blocks, r, rs[..i]);
      assert rs[..i + 1] == rs[..i] + [r];
      i := i + 1;
    }
    assert rs[..i] == rs;
  }

  lemma NothingCoded(blocks: seq<bool>)
    requires |blocks| == BLOCKS && forall b :: 0 <= b < BLOCKS ==> !blocks[b]
    ensures BlocksOf(blocks, []) && Encoded([], 0) == [] && forall p: nat :: Encoded([], p) == []
  {
  }

  lemma Regroup(a: bytes, b: bytes, c: bytes, d: bytes)
    ensures a + (b + c + d) == a + b + c + d
  {
  }

  lemma EncodedStep(rs: seq<Range>, i: nat, prevEnd: nat)
    requires i < |rs| && Separated(rs) && prevEnd <= rs[i].first
    ensures rs[i].first <= rs[i].last && Separated(rs[i..]) && Separated(rs[i + 1..]) && (i + 1 < |rs| ==> rs[i].last <= rs[i + 1].first)
    ensures Encoded(rs[i..], prevEnd)
            == Varint(rs[i].first - prevEnd) + Varint(rs[i].last - rs[i].first) + Encoded(rs[i + 1..], rs[i].last)
  {
    var t := rs[i..];
    assert t[1..] == rs[i + 1..] && t[0] == rs[i];
    assert i + 1 < |rs| ==> t[1] == rs[i + 1];
  }

  method MarkBlocks(blocks0: seq<bool>, r: Range, ghost done: seq<Range>) returns (blocks: seq<bool>)
    requires BlocksOf(blocks0, done) && r.first <= r.last
    ensures BlocksOf(blocks, done + [r])
  {
    blocks := blocks0;
    var b: nat := r.first / 0x100;
    while b <= r.last / 0x100 && b < BLOCKS
      invariant r.first / 0x100 <= b <= r.last / 0x100 + 1 && |blocks| == BLOCKS
      invariant forall c: nat :: c < BLOCKS ==> blocks[c] == (blocks0[c] || r.first / 0x100 <= c < b)
    {
      blocks := blocks[b := true];
      b := b + 1;
    }
    ghost var all := done + [r];
    assert r in all && forall x :: x in all <==> x in done || x == r;
    assert forall c: nat :: c < BLOCKS ==> (blocks[c] <==> blocks0[c] || r.first / 0x100 <= c <= r.last / 0x100);
  }

  // ---- Looking up ----

  function CoversFrom(code: bytes, p: nat, prevEnd: nat, cp: nat): bool
    requires p <= |code|
    decreases |code| - p
  {
    if p == |code| then false
    else
      var (gap, p1) := ReadVarint(code, p, 0, 0);
      var (len, p2) := ReadVarint(code, p1, 0, 0);
      var start := (prevEnd + gap) % WORD;
      var last := (start + len) % WORD;
      if cp < start then false else if cp <= last then true else CoversFrom(code, p2, last, cp)
  }

  predicate CoversIn(blocks: seq<bool>, code: bytes, cp: nat)
    requires |blocks| == BLOCKS
  {
    if cp < 0x30000 && !blocks[cp / 0x100] then false else CoversFrom(code, 0, 0, cp)
  }

  method Covers(blocks: seq<bool>, cov: bytes, covOff: nat, covLen: nat, cp: nat) returns (r: bool)
    requires |blocks| == BLOCKS && covOff + covLen <= |cov|
    ensures r == CoversIn(blocks, cov[covOff..covOff + covLen], cp)
  {
    if cp < 0x30000 && !blocks[cp / 0x100] { return false; }
    var code, p, prevEnd: nat := cov[covOff..covOff + covLen], 0, 0;
    while p < |code|
      invariant p <= |code| && CoversFrom(code, 0, 0, cp) == CoversFrom(code, p, prevEnd, cp)
      decreases |code| - p
    {
      var gap, p1 := GetVarint(code, p);
      var start := (prevEnd + gap) % WORD;
      var len, p2 := GetVarint(code, p1);
      var last := (start + len) % WORD;
      if cp < start { return false; }
      if cp <= last { return true; }
      prevEnd, p := last, p2;
    }
    r := false;
  }

  lemma ReadEncoded(code: bytes, p: nat, x: nat, more: bytes)
    requires p <= |code| && code[p..] == Varint(x) + more && x < WORD
    ensures ReadVarint(code, p, 0, 0) == (x, p + |Varint(x)|)
    ensures code[p + |Varint(x)|..] == more
  {
    assert Pow128(0) == 1;
    VarintReadsBack(code, p, 0, 0, x);
    assert code[p + |Varint(x)|..] == code[p..][|Varint(x)|..];
  }

  lemma HeadPoint(rs: seq<Range>, cp: nat)
    requires Separated(rs) && rs != []
    ensures cp < rs[0].first ==> !InRanges(rs, cp)
    ensures InRanges(rs, cp) <==> InRange(rs[0], cp) || InRanges(rs[1..], cp)
  {
    assert rs == [rs[0]] + rs[1..];
    if cp < rs[0].first {
      forall r | r in rs ensures !InRange(r, cp) { var i :| 0 <= i < |rs| && rs[i] == r; }
    }
  }

  /** One coded range looked at. */
  lemma CoversStep(code: bytes, p: nat, prevEnd: nat, gap: nat, p1: nat, len: nat, p2: nat, cp: nat)
    requires p < |code| && ReadVarint(code, p, 0, 0) == (gap, p1) && ReadVarint(code, p1, 0, 0) == (len, p2)
    requires prevEnd + gap + len < WORD
    ensures var start, last := prevEnd + gap, prevEnd + gap + len;
            CoversFrom(code, p, prevEnd, cp) <==> cp >= start && (cp <= last || CoversFrom(code, p2, last, cp))
  {
    hide ReadVarint;
    SmallWord(prevEnd + gap);
    SmallWord(prevEnd + gap + len);
  }

  /** Decoding the coded ranges finds exactly their code points. */
  lemma {:induction false} DecodingFinds(code: bytes, p: nat, rs: seq<Range>, prevEnd: nat, cp: nat)
    requires Separated(rs) && Usable(rs) && prevEnd <= MAX_CP && (rs != [] ==> prevEnd <= rs[0].first)
    requires p <= |code| && code[p..] == Encoded(rs, prevEnd)
    ensures CoversFrom(code, p, prevEnd, cp) <==> InRanges(rs, cp)
    decreases rs
  {
    hide InRanges, ReadVarint, Varint;
    if rs == [] {
      NoPoints();
    } else {
      hide CoversFrom;
      var gap, len, tail := Varint(rs[0].first - prevEnd), Varint(rs[0].last - rs[0].first), Encoded(rs[1..], rs[0].last);
      assert code[p..] == gap + (len + tail);
      ReadEncoded(code, p, rs[0].first - prevEnd, len + tail);
      ReadEncoded(code, p + |gap|, rs[0].last - rs[0].first, tail);
      HeadPoint(rs, cp);
      CoversStep(code, p, prevEnd, rs[0].first - prevEnd, p + |gap|, rs[0].last - rs[0].first, p + |gap| + |len|, cp);
      DecodingFinds(code, p + |gap| + |len|, rs[1..], rs[0].last, cp);
    }
  }

  /** The bitmap rejects no covered code point. */
  lemma BlocksAllow(blocks: seq<bool>, rs: seq<Range>, cp: nat)
    requires BlocksOf(blocks, rs) && InRanges(rs, cp) && cp < 0x30000
    ensures blocks[cp / 0x100]
  {
    var r :| r in rs && InRange(r, cp);
    assert r.first / 0x100 <= cp / 0x100 <= r.last / 0x100;
  }

  /** A face covers exactly its merged ranges' code points, whatever the quick reject says first. */
  lemma CoversExactly(blocks: seq<bool>, rs: seq<Range>, cp: nat)
    requires Separated(rs) && Usable(rs) && BlocksOf(blocks, rs)
    ensures CoversIn(blocks, Encoded(rs, 0), cp) <==> InRanges(rs, cp)
  {
    hide InRanges, BlocksOf, CoversFrom, Encoded;
    BlocksSize(blocks, rs);
    var code := Encoded(rs, 0);
    assert code[0..] == code;
    DecodingFinds(code, 0, rs, 0, cp);
    if InRanges(rs, cp) && cp < 0x30000 { BlocksAllow(blocks, rs, cp); }
  }

  lemma BlocksSize(blocks: seq<bool>, rs: seq<Range>)
    requires BlocksOf(blocks, rs)
    ensures |blocks| == BLOCKS
  {
  }
}
