/**
 * Grapheme clusters: the scanner (src/text/unicode.cpp, GraphemeScanner) against
 * the rules GB3 to GB13 of UAX #29 the code follows, and stepping by clusters
 * (src/text/layout.cpp, nextGrapheme and prevGrapheme). Code points are given
 * by their classes; an inline box's own stepping is not modelled.
 */
module Graphemes {
  datatype Gcb = Other | CR | LF | Control | Extend | ZWJ | RI | Spacing | L | V | T | LV | LVT | Pict

  // ---- The rules ----

  predicate Breaking(c: Gcb) { c.CR? || c.LF? || c.Control? }

  predicate Hangul(p: Gcb, c: Gcb)
  {
    || (p.L? && (c.L? || c.V? || c.LV? || c.LVT?))
    || ((p.LV? || p.V?) && (c.V? || c.T?))
    || ((p.LVT? || p.T?) && c.T?)
  }

  /** The text up to `i` ends with a pictograph and extenders. */
  predicate InPict(s: seq<Gcb>, i: nat)
    requires i <= |s|
  {
    i > 0 && (s[i - 1].Pict? || (s[i - 1].Extend? && InPict(s, i - 1)))
  }

  /** How many regional indicators the text up to `i` ends with. */
  function RiRun(s: seq<Gcb>, i: nat): nat
    requires i <= |s|
  {
    if i > 0 && s[i - 1].RI? then RiRun(s, i - 1) + 1 else 0
  }

  predicate Joins(s: seq<Gcb>, i: nat)
    requires 0 < i < |s|
  {
    var p, c := s[i - 1], s[i];
    || (p.CR? && c.LF?)
    || (&& !Breaking(p) && !Breaking(c)
        && (|| Hangul(p, c)
            || c.Extend? || c.ZWJ? || c.Spacing?
            || (p.ZWJ? && c.Pict? && InPict(s, i - 1))
            || (p.RI? && c.RI? && RiRun(s, i) % 2 == 1)))
  }

  /** A cluster begins at `i`. */
  predicate Boundary(s: seq<Gcb>, i: nat)
    requires i <= |s|
  {
    i == 0 || i == |s| || !Joins(s, i)
  }

  /** A pictograph stands before `i` with nothing but extenders between. */
  lemma {:induction false} InPictIs(s: seq<Gcb>, i: nat)
    requires i <= |s|
    ensures InPict(s, i) <==> exists j :: 0 <= j < i && s[j] == Pict && forall k :: j < k < i ==> s[k] == Extend
  {
    if i == 0 {
    } else {
      InPictIs(s, i - 1);
    }
  }

  /** `a` begins the stretch of regional indicators that ends at `i`. */
  lemma {:induction false} RiRunIs(s: seq<Gcb>, a: nat, i: nat)
    requires a <= i <= |s| && (forall k :: a <= k < i ==> s[k] == RI) && (a > 0 ==> s[a - 1] != RI)
    ensures RiRun(s, i) == i - a
  {
    if i == a {
    } else {
      RiRunIs(s, a, i - 1);
    }
  }

  /**
   * The rules GB3 to GB13 and GB999 one by one; `a` begins the stretch of
   * regional indicators before `i`.
   */
  lemma BoundaryRules(s: seq<Gcb>, a: nat, i: nat)
    requires a <= i < |s| && i > 0 && (forall k :: a <= k < i ==> s[k] == RI) && (a > 0 ==> s[a - 1] != RI)
    ensures s[i - 1] == CR && s[i] == LF ==> !Boundary(s, i)
    ensures s[i - 1] in {CR, LF, Control} && !(s[i - 1] == CR && s[i] == LF) ==> Boundary(s, i)
    ensures s[i] in {CR, LF, Control} && !(s[i - 1] == CR && s[i] == LF) ==> Boundary(s, i)
    ensures s[i - 1] == L && s[i] in {L, V, LV, LVT} ==> !Boundary(s, i)
    ensures s[i - 1] in {LV, V} && s[i] in {V, T} ==> !Boundary(s, i)
    ensures s[i - 1] in {LVT, T} && s[i] == T ==> !Boundary(s, i)
    ensures s[i - 1] !in {CR, LF, Control} && s[i] in {Extend, ZWJ, Spacing} ==> !Boundary(s, i)
    ensures s[i - 1] == ZWJ && s[i] == Pict ==>
              (Boundary(s, i) <==> !exists j :: 0 <= j < i - 1 && s[j] == Pict && forall k :: j < k < i - 1 ==> s[k] == Extend)
    ensures s[i - 1] == RI && s[i] == RI ==> (Boundary(s, i) <==> (i - a) % 2 == 0)
    ensures s[i] in {Other, Pict, RI} && s[i - 1] !in {ZWJ, RI} ==> Boundary(s, i)
    ensures s[i] in {L, LV, LVT} && s[i - 1] != L ==> Boundary(s, i)
    ensures s[i] == V && s[i - 1] !in {L, LV, V} ==> Boundary(s, i)
    ensures s[i] == T && s[i - 1] !in {LV, V, LVT, T} ==> Boundary(s, i)
    ensures (s[i] in {Other, RI} && s[i - 1] == ZWJ) || (s[i] in {Other, Pict} && s[i - 1] == RI) ==> Boundary(s, i)
  {
    hide InPict, RiRun;
    InPictIs(s, i - 1);
    RiRunIs(s, a, i);
  }

  // ---- The scanner ----

  datatype Prev = Nothing | Just(c: Gcb)

  class GraphemeScanner {
    var prev: Prev
    var riCount: nat
    var pictZwj: bool
    var inPict: bool

    constructor ()
      ensures forall s :: Scanned(s, 0)
    {
      prev, riCount, pictZwj, inPict := Nothing, 0, false, false;
    }

    /** The state after the first `i` code points. */
    ghost predicate Scanned(s: seq<Gcb>, i: nat)
      reads this
    {
      && i <= |s|
      && prev == (if i == 0 then Nothing else Just(s[i - 1]))
      && riCount == RiRun(s, i) && inPict == InPict(s, i)
      && pictZwj == (i > 0 && s[i - 1].ZWJ? && InPict(s, i - 1))
    }

    /** Whether a cluster begins before the next code point. */
    method Next(c: Gcb, ghost s: seq<Gcb>, ghost i: nat) returns (brk: bool)
      requires i < |s| && c == s[i] && Scanned(s, i)
      modifies this
      ensures Scanned(s, i + 1) && brk == Boundary(s, i)
    {
      if prev.Nothing? {
        brk := true;
      } else {
        var p := prev.c;
        if p.CR? && c.LF? {
          brk := false;
        } else if p.CR? || p.LF? || p.Control? || c.CR? || c.LF? || c.Control? {
          brk := true;
        } else if p.L? && (c.L? || c.V? || c.LV? || c.LVT?) {
          brk := false;
        } else if (p.LV? || p.V?) && (c.V? || c.T?) {
          brk := false;
        } else if (p.LVT? || p.T?) && c.T? {
          brk := false;
        } else if c.Extend? || c.ZWJ? || c.Spacing? {
          brk := false;
        } else if p.ZWJ? && c.Pict? && pictZwj {
          brk := false;
        } else if p.RI? && c.RI? && riCount % 2 == 1 {
          brk := false;
        } else {
          brk := true;
        }
      }
      pictZwj := c.ZWJ? && inPict;
      inPict := c.Pict? || (c.Extend? && inPict);
      riCount := if c.RI? then riCount + 1 else 0;
      prev := Just(c);
    }
  }

  // ---- A scan begun at a boundary ----

  lemma {:induction false} PictFromBoundary(s: seq<Gcb>, a: nat, i: nat)
    requires a <= i <= |s| && Boundary(s, a) && (a == i ==> a == |s| || s[a].Extend? || s[a].ZWJ?) && a < |s|
    ensures InPict(s, i) == InPict(s[a..], i - a)
    decreases i
  {
    if i > a {
      assert s[a..][i - a - 1] == s[i - 1];
      if s[i - 1].Extend? { PictFromBoundary(s, a, i - 1); }
    }
  }

  lemma {:induction false} RunFromBoundary(s: seq<Gcb>, a: nat, i: nat)
    requires a < i <= |s| && Boundary(s, a)
    ensures RiRun(s, i) % 2 == RiRun(s[a..], i - a) % 2
    decreases i
  {
    var t := s[a..];
    assert t[i - a - 1] == s[i - 1];
    if s[i - 1].RI? && i - 1 > a { RunFromBoundary(s, a, i - 1); }
  }

  /** Beginning afresh at a boundary finds the same boundaries from there on. */
  lemma RestartAgrees(s: seq<Gcb>, a: nat, i: nat)
    requires a <= i <= |s| && Boundary(s, a)
    ensures Boundary(s[a..], i - a) == Boundary(s, i)
  {
    if a < i < |s| {
      var t := s[a..];
      assert t[i - a] == s[i] && t[i - a - 1] == s[i - 1];
      if s[i - 1].ZWJ? { PictFromBoundary(s, a, i - 1); }
      RunFromBoundary(s, a, i);
    }
  }

  // ---- Stepping ----

  /** The next boundary after `off`. */
  ghost predicate IsNext(s: seq<Gcb>, off: nat, r: nat)
  {
    && off < r <= |s| && Boundary(s, r)
    && forall k :: off < k < r ==> !Boundary(s, k)
  }

  method NextGrapheme(s: seq<Gcb>, off: nat) returns (r: nat)
    ensures off >= |s| ==> r == |s|
    ensures off < |s| ==> off < r <= |s| && IsNext(s[off..], 0, r - off)
    ensures off < |s| && Boundary(s, off) ==> IsNext(s, off, r)
  {
    if off >= |s| { return |s|; }
    var gs := new GraphemeScanner();
    ghost var t := s[off..];
    var k := off;
    var first := gs.Next(s[k], t, 0);
    k := k + 1;
    while k < |s|
      invariant off < k <= |s| && gs.Scanned(t, k - off)
      invariant forall j :: 0 < j < k - off ==> !Boundary(t, j)
    {
      var brk := gs.Next(s[k], t, k - off);
      if brk { break; }
      k := k + 1;
    }
    r := k;
    if Boundary(s, off) {
      forall j | off < j <= r ensures Boundary(s, j) <==> j == r { RestartAgrees(s, off, j); }
    }
  }

  /** The starts of all clusters, marked by stepping through the text once. */
  method MarkStarts(s: seq<Gcb>) returns (starts: array<bool>)
    ensures fresh(starts) && starts.Length == |s| + 1
    ensures forall k :: 0 <= k < |s| ==> starts[k] == Boundary(s, k)
  {
    starts := new bool[|s| + 1](_ => false);
    var p: nat := 0;
    while p < |s|
      invariant p <= |s| && Boundary(s, p)
      invariant forall k :: 0 <= k < p ==> starts[k] == Boundary(s, k)
      invariant forall k :: p <= k < starts.Length ==> !starts[k]
      decreases |s| - p
    {
      starts[p] := true;
      var next := NextGrapheme(s, p);
      assert IsNext(s, p, next);
      p := next;
    }
  }

  /** The last boundary before `off`. */
  method PrevGrapheme(s: seq<Gcb>, off0: nat) returns (last: nat)
    requires off0 > 0 ==> s != []
    ensures off0 == 0 ==> last == 0
    ensures off0 > 0 ==>
      var off := if off0 < |s| then off0 else |s|;
      last < off && Boundary(s, last) && forall k :: last < k < off ==> !Boundary(s, k)
  {
    if off0 == 0 { return 0; }
    var starts := MarkStarts(s);
    var off := if off0 < |s| then off0 else |s|;
    last := off - 1;
    while last > 0 && !starts[last]
      invariant last < off && forall k :: last < k < off ==> !Boundary(s, k)
    {
      last := last - 1;
    }
  }

  /** Stepping back undoes stepping forward, and the other way round. */
  method NextThenPrev(s: seq<Gcb>, p: nat) returns (back: nat)
    requires p < |s| && Boundary(s, p)
    ensures back == p
  {
    var q := NextGrapheme(s, p);
    assert IsNext(s, p, q);
    back := PrevGrapheme(s, q);
  }

  method PrevThenNext(s: seq<Gcb>, q: nat) returns (forth: nat)
    requires 0 < q <= |s| && Boundary(s, q)
    ensures forth == q
  {
    var p := PrevGrapheme(s, q);
    forth := NextGrapheme(s, p);
    assert IsNext(s, p, forth);
  }
}
