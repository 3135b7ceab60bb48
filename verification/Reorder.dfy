/**
 * Visual order of a line's pieces (src/text/layout.cpp, makeLine): rule L2 of
 * UAX #9, section 3.4, by reversing stretches in place, and the positions of
 * the pieces on the line.
 */
module Reorder {
  /** A piece with its place in logical order and its embedding level. */
  datatype Piece = Piece(id: nat, level: nat, x: real, w: real)

  const NO_ODD := 0xFF

  function Lo(p: nat, q: nat): nat { if p < q then p else q }

  function Hi(p: nat, q: nat): nat { if p < q then q else p }

  // ---- What the order is ----

  predicate AllAtLeast(L: seq<nat>, lo: nat, hi: nat, k: nat)
    requires hi < |L|
  {
    forall t :: lo <= t <= hi ==> L[t] >= k
  }

  /** The lowest level from `lo` to `hi`, both included. */
  function Least(L: seq<nat>, lo: nat, hi: nat): (m: nat)
    requires lo <= hi < |L|
    ensures AllAtLeast(L, lo, hi, m) && exists t :: lo <= t <= hi && L[t] == m
    decreases hi - lo
  {
    if lo == hi then L[lo]
    else
      var m := Least(L, lo, hi - 1);
      if L[hi] < m then assert forall t :: lo <= t < hi ==> L[t] >= L[hi]; L[hi] else m
  }

  /** How often a pair is swapped by reversing at every level above `lv`. */
  function Flips(min: nat, lv: nat): nat { if min > lv then min - lv else 0 }

  /** For two logical places, the lowest level between them. */
  function Valley(L: seq<nat>, i: nat, j: nat): nat
    requires i < |L| && j < |L|
  {
    Least(L, Lo(i, j), Hi(i, j))
  }

  /** Two pieces are in logical order exactly when they were swapped an even number of times. */
  ghost predicate Ordered(ids: seq<nat>, L: seq<nat>, lv: nat)
    requires |ids| == |L| && forall p :: 0 <= p < |ids| ==> ids[p] < |L|
  {
    forall p, q :: 0 <= p < q < |ids| ==>
      ids[p] != ids[q] && (ids[p] < ids[q] <==> Flips(Valley(L, ids[p], ids[q]), lv) % 2 == 0)
  }

  /** A piece has only moved within a stretch above level `lv`. */
  ghost predicate Local(ids: seq<nat>, L: seq<nat>, lv: nat)
    requires |ids| == |L|
  {
    forall p :: 0 <= p < |ids| ==>
      ids[p] < |L| && (ids[p] != p ==> AllAtLeast(L, Lo(p, ids[p]), Hi(p, ids[p]), lv + 1))
  }

  /** Rule L2: reading left to right, pieces keep their order unless the lowest level between them is odd. */
  ghost predicate Visual(ids: seq<nat>, L: seq<nat>)
  {
    && |ids| == |L| && (forall p :: 0 <= p < |ids| ==> ids[p] < |L|)
    && forall p, q :: 0 <= p < q < |ids| ==>
         ids[p] != ids[q] && (ids[p] < ids[q] <==> Valley(L, ids[p], ids[q]) % 2 == 0)
  }

  // ---- Stretches ----

  function StretchStart(L: seq<nat>, p: nat, k: nat): (r: nat)
    requires p < |L|
    ensures r <= p && AllAtLeast(L, r, p, if L[p] < k then 0 else k)
    ensures L[p] < k ==> r == p
    ensures L[p] >= k && r > 0 ==> L[r - 1] < k
  {
    if L[p] < k || p == 0 || L[p - 1] < k then p else StretchStart(L, p - 1, k)
  }

  function StretchEnd(L: seq<nat>, p: nat, k: nat): (r: nat)
    requires p < |L|
    ensures p < r <= |L| && AllAtLeast(L, p, r - 1, if L[p] < k then 0 else k)
    ensures L[p] < k ==> r == p + 1
    ensures L[p] >= k && r < |L| ==> L[r] < k
    decreases |L| - p
  {
    if L[p] < k || p + 1 == |L| || L[p + 1] < k then p + 1 else StretchEnd(L, p + 1, k)
  }

  /** Where a pass at level `k` takes the piece for place `p` from. */
  function Mirror(L: seq<nat>, p: nat, k: nat): (r: nat)
    requires p < |L|
    ensures StretchStart(L, p, k) <= r < StretchEnd(L, p, k)
  {
    StretchStart(L, p, k) + StretchEnd(L, p, k) - 1 - p
  }

  lemma NotInside(L: seq<nat>, lo: nat, hi: nat, k: nat, t: nat)
    requires hi < |L| && t < |L| && AllAtLeast(L, lo, hi, k) && L[t] < k
    ensures !(lo <= t <= hi)
  {
  }

  lemma WholeStretch(L: seq<nat>, i: nat, j: nat, p: nat, k: nat)
    requires i <= p < j <= |L| && AllAtLeast(L, i, j - 1, k)
    requires (i == 0 || L[i - 1] < k) && (j == |L| || L[j] < k)
    ensures StretchStart(L, p, k) == i && StretchEnd(L, p, k) == j
  {
    assert L[p] >= k;
    var a, b := StretchStart(L, p, k), StretchEnd(L, p, k);
    if a > 0 { NotInside(L, i, j - 1, k, a - 1); }
    if i > 0 { NotInside(L, a, p, k, i - 1); }
    if b < |L| { NotInside(L, i, j - 1, k, b); }
    if j < |L| { NotInside(L, p, b - 1, k, j); }
  }

  /** Two places with no level below `k` between them lie in one stretch. */
  lemma SameStretch(L: seq<nat>, p: nat, q: nat, k: nat)
    requires p < |L| && q < |L| && AllAtLeast(L, Lo(p, q), Hi(p, q), k)
    ensures StretchStart(L, p, k) == StretchStart(L, q, k) && StretchEnd(L, p, k) == StretchEnd(L, q, k)
  {
    assert L[p] >= k && L[q] >= k;
    var a, b := StretchStart(L, p, k), StretchEnd(L, p, k);
    if a > 0 { NotInside(L, Lo(p, q), Hi(p, q), k, a - 1); }
    if b < |L| { NotInside(L, Lo(p, q), Hi(p, q), k, b); }
    AroundStretch(L, p, k);
    WholeStretch(L, a, b, p, k);
    WholeStretch(L, a, b, q, k);
  }

  lemma AroundStretch(L: seq<nat>, p: nat, k: nat)
    requires p < |L| && L[p] >= k
    ensures AllAtLeast(L, StretchStart(L, p, k), StretchEnd(L, p, k) - 1, k)
  {
    var a, b := StretchStart(L, p, k), StretchEnd(L, p, k);
    forall t | a <= t <= b - 1 ensures L[t] >= k {
      assert AllAtLeast(L, a, p, k) && AllAtLeast(L, p, b - 1, k);
    }
  }

  // ---- One pass ----

  ghost predicate Passed(ids0: seq<nat>, ids1: seq<nat>, L: seq<nat>, k: nat)
  {
    |ids0| == |ids1| == |L| && forall p :: 0 <= p < |L| ==> ids1[p] == ids0[Mirror(L, p, k)]
  }

  lemma PassLocal(ids0: seq<nat>, ids1: seq<nat>, L: seq<nat>, k: nat)
    requires Passed(ids0, ids1, L, k) && k > 0 && Local(ids0, L, k)
    ensures Local(ids1, L, k - 1)
  {
    forall p | 0 <= p < |ids1|
      ensures ids1[p] < |L| && (ids1[p] != p ==> AllAtLeast(L, Lo(p, ids1[p]), Hi(p, ids1[p]), k))
    {
      StaysInStretch(ids0, L, k, p);
    }
  }

  lemma FixedBelow(ids0: seq<nat>, L: seq<nat>, k: nat, p: nat)
    requires |ids0| == |L| && p < |L| && Local(ids0, L, k) && L[p] < k
    ensures ids0[p] == p
  {
  }

  /** What a pass brings to place `p` belongs to the stretch of `p`. */
  lemma StaysInStretch(ids0: seq<nat>, L: seq<nat>, k: nat, p: nat)
    requires |ids0| == |L| && p < |L| && Local(ids0, L, k)
    ensures var i := ids0[Mirror(L, p, k)];
            i < |L| && StretchStart(L, p, k) <= i < StretchEnd(L, p, k) && (L[p] < k ==> i == p)
    ensures var i := ids0[Mirror(L, p, k)];
            i != p ==> AllAtLeast(L, Lo(p, i), Hi(p, i), k)
  {
    var m := Mirror(L, p, k);
    var i := ids0[m];
    if L[p] < k {
      FixedBelow(ids0, L, k, p);
    } else {
      InStretch(L, p, m, k);
      SameStretch(L, p, m, k);
      if i != m {
        assert AllAtLeast(L, Lo(m, i), Hi(m, i), k + 1);
        SameStretch(L, m, i, k);
      }
      InStretch(L, p, i, k);
    }
  }

  lemma InStretch(L: seq<nat>, p: nat, q: nat, k: nat)
    requires p < |L| && L[p] >= k && StretchStart(L, p, k) <= q < StretchEnd(L, p, k)
    ensures AllAtLeast(L, Lo(p, q), Hi(p, q), k)
  {
    AroundStretch(L, p, k);
  }

  lemma LeastIs(L: seq<nat>, lo: nat, hi: nat, t: nat)
    requires lo <= t <= hi < |L|
    ensures Least(L, lo, hi) <= L[t]
  {
  }

  /** A pair of one stretch is swapped once more. */
  lemma PairInside(ids0: seq<nat>, L: seq<nat>, k: nat, p: nat, q: nat, i: nat, j: nat)
    requires |ids0| == |L| && k > 0 && p < q < |L| && q < StretchEnd(L, p, k) && Local(ids0, L, k) && Ordered(ids0, L, k)
    requires i == ids0[Mirror(L, p, k)] && j == ids0[Mirror(L, q, k)] && i < |L| && j < |L|
    requires StretchStart(L, p, k) <= i < StretchEnd(L, p, k) && StretchStart(L, q, k) <= j < StretchEnd(L, q, k)
    ensures i != j && (i < j <==> Flips(Valley(L, i, j), k - 1) % 2 == 0)
  {
    hide StretchStart, StretchEnd, Flips, Valley, Local, Ordered, AllAtLeast;
    InsideStretch(L, p, q, k);
    AroundStretch(L, p, k);
    assert Mirror(L, q, k) < Mirror(L, p, k);
    PairBefore(ids0, L, k, Mirror(L, q, k), Mirror(L, p, k));
    ValleyWithin(L, i, j, StretchStart(L, p, k), StretchEnd(L, p, k), k);
    FlipMore(Valley(L, i, j), k);
  }

  lemma ValleyWithin(L: seq<nat>, i: nat, j: nat, a: nat, b: nat, k: nat)
    requires a <= i < b <= |L| && a <= j < b && AllAtLeast(L, a, b - 1, k)
    ensures Valley(L, i, j) >= k && Valley(L, j, i) == Valley(L, i, j)
  {
  }

  lemma FlipMore(v: nat, k: nat)
    requires v >= k > 0
    ensures Flips(v, k - 1) % 2 == 0 <==> Flips(v, k) % 2 != 0
  {
  }

  lemma PairBefore(ids0: seq<nat>, L: seq<nat>, k: nat, p: nat, q: nat)
    requires |ids0| == |L| && p < q < |L| && Local(ids0, L, k) && Ordered(ids0, L, k)
    ensures ids0[p] < |L| && ids0[q] < |L| && ids0[p] != ids0[q]
    ensures ids0[p] < ids0[q] <==> Flips(Valley(L, ids0[p], ids0[q]), k) % 2 == 0
  {
    hide Valley, Flips, AllAtLeast;
  }

  /** A pair within one stretch is swapped once more, any other pair is not touched. */
  lemma PassPair(ids0: seq<nat>, ids1: seq<nat>, L: seq<nat>, k: nat, p: nat, q: nat)
    requires Passed(ids0, ids1, L, k) && |ids0| == |ids1| == |L| && k > 0 && p < q < |L|
    requires Local(ids0, L, k) && Ordered(ids0, L, k)
    requires ids1[p] < |L| && ids1[q] < |L|
    ensures ids1[p] != ids1[q] && (ids1[p] < ids1[q] <==> Flips(Valley(L, ids1[p], ids1[q]), k - 1) % 2 == 0)
  {
    hide Passed, StretchStart, StretchEnd, Local, Ordered, Mirror, Valley, AllAtLeast;
    PassAt(ids0, ids1, L, k, p);
    PassAt(ids0, ids1, L, k, q);
    StaysInStretch(ids0, L, k, p);
    StaysInStretch(ids0, L, k, q);
    if q < StretchEnd(L, p, k) {
      PairInside(ids0, L, k, p, q, ids1[p], ids1[q]);
    } else {
      AcrossStretches(L, p, q, k, ids1[p], ids1[q]);
    }
  }

  lemma PassAt(ids0: seq<nat>, ids1: seq<nat>, L: seq<nat>, k: nat, p: nat)
    requires Passed(ids0, ids1, L, k) && p < |L|
    ensures ids1[p] == ids0[Mirror(L, p, k)]
  {
  }

  lemma InsideStretch(L: seq<nat>, p: nat, q: nat, k: nat)
    requires p < q < |L| && q < StretchEnd(L, p, k)
    ensures L[p] >= k && StretchStart(L, p, k) == StretchStart(L, q, k) && StretchEnd(L, p, k) == StretchEnd(L, q, k)
  {
    InStretch(L, p, q, k);
    SameStretch(L, p, q, k);
  }

  lemma StretchesApart(L: seq<nat>, p: nat, q: nat, k: nat)
    requires p < q < |L| && q >= StretchEnd(L, p, k)
    ensures StretchEnd(L, p, k) <= StretchStart(L, q, k)
  {
    var e, s := StretchEnd(L, p, k), StretchStart(L, q, k);
    if L[q] >= k { NotInside(L, s, q, k, if L[p] < k then p else e); }
  }

  /** Two places of different stretches have a level below `k` between them, and so do their pieces. */
  lemma AcrossStretches(L: seq<nat>, p: nat, q: nat, k: nat, i: nat, j: nat)
    requires k > 0 && p < q < |L| && q >= StretchEnd(L, p, k) && i < |L| && j < |L|
    requires StretchStart(L, p, k) <= i < StretchEnd(L, p, k) && StretchStart(L, q, k) <= j < StretchEnd(L, q, k)
    requires (L[p] < k ==> i == p) && (L[q] < k ==> j == q)
    ensures Mirror(L, p, k) < Mirror(L, q, k) && i < j && Valley(L, i, j) < k
  {
    StretchesApart(L, p, q, k);
    var t := if L[p] < k then p else if L[q] < k then q else StretchEnd(L, p, k);
    if L[p] >= k && L[q] >= k { AfterStretch(L, p, q, k); }
    LeastIs(L, i, j, t);
  }

  lemma AfterStretch(L: seq<nat>, p: nat, q: nat, k: nat)
    requires p < q < |L| && L[p] >= k && L[q] >= k && q >= StretchEnd(L, p, k)
    ensures StretchEnd(L, p, k) < StretchStart(L, q, k)
  {
    NotInside(L, StretchStart(L, q, k), q, k, StretchEnd(L, p, k));
  }

  lemma PassKeeps(ids0: seq<nat>, ids1: seq<nat>, L: seq<nat>, k: nat)
    requires Passed(ids0, ids1, L, k) && k > 0 && Local(ids0, L, k) && Ordered(ids0, L, k)
    ensures Local(ids1, L, k - 1) && Ordered(ids1, L, k - 1)
  {
    hide Passed, Valley, Flips;
    PassLocal(ids0, ids1, L, k);
    SameSize(ids0, ids1, L, k);
    forall p, q | 0 <= p < q < |ids1|
      ensures ids1[p] != ids1[q] && (ids1[p] < ids1[q] <==> Flips(Valley(L, ids1[p], ids1[q]), k - 1) % 2 == 0)
    {
      PassPair(ids0, ids1, L, k, p, q);
    }
  }

  lemma SameSize(ids0: seq<nat>, ids1: seq<nat>, L: seq<nat>, k: nat)
    requires Passed(ids0, ids1, L, k)
    ensures |ids0| == |ids1| == |L|
  {
  }

  // ---- All passes ----

  /** The lowest odd level and the highest level settle which pairs end up swapped. */
  lemma FlipsAreParity(min: nat, loOdd: nat)
    requires loOdd % 2 == 1 && (min % 2 == 1 ==> min >= loOdd)
    ensures Flips(min, loOdd - 1) % 2 == min % 2
  {
  }

  lemma PassesDone(ids: seq<nat>, L: seq<nat>, loOdd: nat)
    requires |ids| == |L| && loOdd % 2 == 1 && (forall t :: 0 <= t < |L| && L[t] % 2 == 1 ==> L[t] >= loOdd)
    requires Local(ids, L, loOdd - 1) && Ordered(ids, L, loOdd - 1)
    ensures Visual(ids, L)
  {
    forall p, q | 0 <= p < q < |ids|
      ensures ids[p] != ids[q] && (ids[p] < ids[q] <==> Valley(L, ids[p], ids[q]) % 2 == 0)
    {
      FlipsAreParity(Valley(L, ids[p], ids[q]), loOdd);
    }
  }

  lemma NothingOdd(ids: seq<nat>, L: seq<nat>)
    requires |ids| == |L| && (forall t :: 0 <= t < |L| ==> L[t] % 2 == 0) && forall p :: 0 <= p < |ids| ==> ids[p] == p
    ensures Visual(ids, L)
  {
  }

  lemma Untouched(ids: seq<nat>, L: seq<nat>, hi: nat)
    requires |ids| == |L| && (forall t :: 0 <= t < |L| ==> L[t] <= hi) && forall p :: 0 <= p < |ids| ==> ids[p] == p
    ensures Local(ids, L, hi) && Ordered(ids, L, hi)
  {
    hide Valley;
    forall p, q | 0 <= p < q < |ids| ensures Flips(Valley(L, ids[p], ids[q]), hi) == 0 { ValleyAtMost(L, p, q, hi); }
  }

  lemma ValleyAtMost(L: seq<nat>, p: nat, q: nat, hi: nat)
    requires p < |L| && q < |L| && forall t :: 0 <= t < |L| ==> L[t] <= hi
    ensures Valley(L, p, q) <= hi
  {
    LeastIs(L, Lo(p, q), Hi(p, q), p);
  }

  function IdsOf(s: seq<Piece>): (r: seq<nat>)
    ensures |r| == |s| && forall p :: 0 <= p < |s| ==> r[p] == s[p].id
  {
    seq(|s|, p requires 0 <= p < |s| => s[p].id)
  }

  /** std::reverse on a[i..j]. */
  method Reverse(a: array<Piece>, i: nat, j: nat)
    requires i <= j <= a.Length
    modifies a
    ensures forall p :: i <= p < j ==> a[p] == old(a[i + j - 1 - p])
    ensures forall p :: 0 <= p < i || j <= p < a.Length ==> a[p] == old(a[p])
    ensures multiset(a[..]) == multiset(old(a[..]))
  {
    var l, r: int := i, j;
    while l + 1 < r
      invariant i <= l <= r + 1 && r <= j && l - i == j - r
      invariant forall p :: i <= p < l || r <= p < j ==> a[p] == old(a[i + j - 1 - p])
      invariant forall p :: l <= p < r || 0 <= p < i || j <= p < a.Length ==> a[p] == old(a[p])
      invariant multiset(a[..]) == multiset(old(a[..]))
      decreases r - l
    {
      Swap(a, l, r - 1);
      l, r := l + 1, r - 1;
    }
  }

  method Swap(a: array<Piece>, l: nat, r: nat)
    requires l < r < a.Length
    modifies a
    ensures a[l] == old(a[r]) && a[r] == old(a[l])
    ensures forall p :: 0 <= p < a.Length && p != l && p != r ==> a[p] == old(a[p])
    ensures multiset(a[..]) == multiset(old(a[..]))
  {
    ghost var s := a[..];
    a[l], a[r] := a[r], a[l];
    assert a[..] == s[l := s[r]][r := s[l]];
  }

  /** Each piece is the one the line was given with that number. */
  ghost predicate From(a: seq<Piece>, line: seq<Piece>)
  {
    |a| == |line| && forall p :: 0 <= p < |a| ==> a[p].id < |line| && a[p] == line[a[p].id]
  }

  function LevelsOf(line: seq<Piece>): (L: seq<nat>)
    ensures |L| == |line| && forall p :: 0 <= p < |line| ==> L[p] == line[p].level
  {
    seq(|line|, p requires 0 <= p < |line| => line[p].level)
  }

  /** The pass so far: places before `i` are mirrored within their stretches, the others as before. */
  ghost predicate PassedUpTo(ids0: seq<nat>, ids: seq<nat>, L: seq<nat>, k: nat, i: nat)
  {
    && |ids0| == |ids| == |L| && i <= |L|
    && (forall p :: 0 <= p < i ==> ids[p] == ids0[Mirror(L, p, k)])
    && (forall p :: i <= p < |L| ==> ids[p] == ids0[p])
  }

  /** A place's level is what it was in logical order, as far as level `k` goes. */
  lemma LevelHere(a: seq<Piece>, line: seq<Piece>, k: nat, p: nat)
    requires From(a, line) && p < |a| && Local(IdsOf(a), LevelsOf(line), k)
    ensures a[p].level >= k <==> line[p].level >= k
  {
  }

  lemma PassedOn(ids0: seq<nat>, was: seq<nat>, now: seq<nat>, L: seq<nat>, k: nat, i: nat, j: nat)
    requires PassedUpTo(ids0, was, L, k, i) && i < j <= |L| && |now| == |L|
    requires (j == i + 1 && L[i] < k) || (AllAtLeast(L, i, j - 1, k) && AtEdge(L, i, k) && (j == |L| || L[j] < k))
    requires forall p :: i <= p < j ==> now[p] == was[i + j - 1 - p]
    requires forall p :: 0 <= p < i || j <= p < |L| ==> now[p] == was[p]
    ensures PassedUpTo(ids0, now, L, k, j)
  {
    forall p | 0 <= p < j ensures now[p] == ids0[Mirror(L, p, k)] {
      if i <= p && L[i] >= k { WholeStretch(L, i, j, p, k); }
    }
  }

  lemma FromReversed(was: seq<Piece>, now: seq<Piece>, line: seq<Piece>, i: nat, j: nat)
    requires From(was, line) && i <= j <= |was| == |now|
    requires forall p :: i <= p < j ==> now[p] == was[i + j - 1 - p]
    requires forall p :: 0 <= p < i || j <= p < |was| ==> now[p] == was[p]
    ensures From(now, line)
  {
  }

  /** Not in the middle of a stretch. */
  predicate AtEdge(L: seq<nat>, i: nat, k: nat) { i == 0 || i >= |L| || L[i - 1] < k || L[i] < k }

  lemma EdgeBeside(L: seq<nat>, i: nat, k: nat)
    requires i < |L| && L[i] < k
    ensures AtEdge(L, i, k) && AtEdge(L, i + 1, k)
  {
  }

  lemma EdgeAtEnd(L: seq<nat>, k: nat)
    ensures AtEdge(L, 0, k) && AtEdge(L, |L|, k)
  {
  }

  /** The stretch that begins at `i`, reversed; `j` is its end. */
  method ReverseStretch(a: array<Piece>, ghost line: seq<Piece>, ghost ids0: seq<nat>, ghost L: seq<nat>, i: nat, lv: nat)
    returns (j: nat)
    requires i < a.Length == |L| && a[i].level >= lv && AtEdge(L, i, lv)
    requires forall p :: i <= p < a.Length ==> (a[p].level >= lv <==> L[p] >= lv)
    requires From(a[..], line) && PassedUpTo(ids0, IdsOf(a[..]), L, lv, i)
    modifies a
    ensures i < j <= a.Length && (j < a.Length ==> L[j] < lv)
    ensures From(a[..], line) && PassedUpTo(ids0, IdsOf(a[..]), L, lv, j)
    ensures forall p :: j <= p < a.Length ==> a[p] == old(a[p])
    ensures multiset(a[..]) == multiset(old(a[..]))
  {
    hide From, PassedUpTo, AtEdge;
    j := i;
    while j < a.Length && a[j].level >= lv
      invariant i <= j <= a.Length && forall p :: i <= p < j ==> L[p] >= lv
    {
      j := j + 1;
    }
    ghost var was := a[..];
    Reverse(a, i, j);
    FromReversed(was, a[..], line, i, j);
    PassedOn(ids0, IdsOf(was), IdsOf(a[..]), L, lv, i, j);
  }

  /** One level's pass over the line. */
  method Pass(a: array<Piece>, ghost line: seq<Piece>, lv: nat)
    requires From(a[..], line) && lv > 0 && Local(IdsOf(a[..]), LevelsOf(line), lv)
    modifies a
    ensures From(a[..], line) && Passed(old(IdsOf(a[..])), IdsOf(a[..]), LevelsOf(line), lv)
    ensures multiset(a[..]) == multiset(old(a[..]))
  {
    hide Local, Mirror, From, PassedUpTo, LevelsOf, AtEdge;
    ghost var L, ids0, a0 := LevelsOf(line), IdsOf(a[..]), a[..];
    SameLength(a0, line);
    forall p: nat | p < |line| ensures a0[p].level >= lv <==> L[p] >= lv { LevelHere(a0, line, lv, p); }
    var i: nat := 0;
    NonePassed(ids0, L, lv);
    EdgeAtEnd(L, lv);
    while i < a.Length
      invariant i <= a.Length && AtEdge(L, i, lv)
      invariant From(a[..], line) && PassedUpTo(ids0, IdsOf(a[..]), L, lv, i)
      invariant forall p :: i <= p < a.Length ==> a[p] == a0[p]
      invariant multiset(a[..]) == multiset(a0)
    {
      if a[i].level < lv {
        PassedOn(ids0, IdsOf(a[..]), IdsOf(a[..]), L, lv, i, i + 1);
        EdgeBeside(L, i, lv);
        i := i + 1;
        continue;
      }
      i := ReverseStretch(a, line, ids0, L, i, lv);
      if i < a.Length { EdgeBeside(L, i, lv); }
    }
    AllPassed(ids0, IdsOf(a[..]), L, lv);
  }

  lemma SameLength(a: seq<Piece>, line: seq<Piece>)
    requires From(a, line)
    ensures |a| == |line|
  {
  }

  lemma NonePassed(ids: seq<nat>, L: seq<nat>, k: nat)
    requires |ids| == |L|
    ensures PassedUpTo(ids, ids, L, k, 0)
  {
  }

  lemma AllPassed(ids0: seq<nat>, ids: seq<nat>, L: seq<nat>, k: nat)
    requires PassedUpTo(ids0, ids, L, k, |L|)
    ensures Passed(ids0, ids, L, k)
  {
  }

  /** The line's pieces in visual order. */
  method ReorderLine(a: array<Piece>)
    requires forall p :: 0 <= p < a.Length ==> a[p].id == p && a[p].level < NO_ODD
    modifies a
    ensures From(a[..], old(a[..])) && multiset(a[..]) == multiset(old(a[..]))
    ensures Visual(IdsOf(a[..]), LevelsOf(old(a[..])))
  {
    hide Ordered, Local, Passed;
    ghost var line := a[..];
    ghost var L := LevelsOf(line);
    var hi: nat, loOdd: nat, i: nat := 0, NO_ODD, 0;
    while i < a.Length
      invariant i <= a.Length && loOdd <= NO_ODD && loOdd % 2 == 1
      invariant forall t :: 0 <= t < i ==> L[t] <= hi && (L[t] % 2 == 1 ==> L[t] >= loOdd)
      invariant loOdd < NO_ODD ==> loOdd <= hi
    {
      var lv := a[i].level;
      hi := if hi < lv then lv else hi;
      if lv % 2 == 1 && lv < loOdd { loOdd := lv; }
      i := i + 1;
    }
    Untouched(IdsOf(a[..]), L, hi);
    if loOdd == NO_ODD {
      NothingOdd(IdsOf(a[..]), L);
      return;
    }
    var lv: nat := hi;
    while lv >= loOdd
      invariant loOdd - 1 <= lv && From(a[..], line) && multiset(a[..]) == multiset(line)
      invariant Local(IdsOf(a[..]), L, lv) && Ordered(IdsOf(a[..]), L, lv)
      decreases lv
    {
      ghost var ids0 := IdsOf(a[..]);
      Pass(a, line, lv);
      PassKeeps(ids0, IdsOf(a[..]), L, lv);
      lv := lv - 1;
    }
    PassesDone(IdsOf(a[..]), L, loOdd);
  }

  // ---- What follows from the rule ----

  /**
   * A logical stretch of level `k` or more stays together: whatever stands
   * between two of its pieces belongs to it.
   */
  lemma StretchesStayTogether(ids: seq<nat>, L: seq<nat>, k: nat, p: nat, m: nat, q: nat)
    requires Visual(ids, L) && p < m < q < |L| && AllAtLeast(L, Lo(ids[p], ids[q]), Hi(ids[p], ids[q]), k)
    ensures AllAtLeast(L, Lo(ids[p], ids[m]), Hi(ids[p], ids[m]), k)
  {
    hide Valley, AllAtLeast;
    var i, x, j := ids[p], ids[m], ids[q];
    SameSide(L, i, j, x, k);
    assert (i < x <==> Valley(L, i, x) % 2 == 0) && (x < j <==> Valley(L, x, j) % 2 == 0);
  }

  /** From outside the stretch its pieces are seen on the same side and over the same valley. */
  lemma SameSide(L: seq<nat>, i: nat, j: nat, x: nat, k: nat)
    requires i < |L| && j < |L| && x < |L| && AllAtLeast(L, Lo(i, j), Hi(i, j), k)
    ensures AllAtLeast(L, Lo(i, x), Hi(i, x), k) || ((i < x <==> j < x) && x != j && Valley(L, i, x) == Valley(L, x, j))
  {
    if !AllAtLeast(L, Lo(i, x), Hi(i, x), k) {
      var t :| Lo(i, x) <= t <= Hi(i, x) && L[t] < k;
      NotInside(L, Lo(i, j), Hi(i, j), k, t);
      LeastIs(L, Lo(i, x), Hi(i, x), t);
      LeastIs(L, Lo(x, j), Hi(x, j), t);
      LowerFrom(L, i, j, x, k);
      LowerFrom(L, j, i, x, k);
    }
  }

  /** The lowest level towards `x`, below `k`, is no higher seen from `j`. */
  lemma LowerFrom(L: seq<nat>, i: nat, j: nat, x: nat, k: nat)
    requires i < |L| && j < |L| && x < |L| && AllAtLeast(L, Lo(i, j), Hi(i, j), k) && Valley(L, i, x) < k
    requires !(Lo(i, j) <= x <= Hi(i, j))
    ensures Valley(L, x, j) <= Valley(L, i, x)
  {
    var m := Valley(L, i, x);
    var t :| Lo(i, x) <= t <= Hi(i, x) && L[t] == m;
    NotInside(L, Lo(i, j), Hi(i, j), k, t);
    LeastIs(L, Lo(x, j), Hi(x, j), t);
  }

  function Width(s: seq<Piece>): real
  {
    if s == [] then 0.0 else Width(s[..|s| - 1]) + s[|s| - 1].w
  }

  lemma {:induction false} WidthConcat(a: seq<Piece>, b: seq<Piece>)
    ensures Width(a + b) == Width(a) + Width(b)
  {
    if b == [] {
      assert a + b == a;
    } else {
      WidthConcat(a, b[..|b| - 1]);
      assert (a + b)[..|a + b| - 1] == a + b[..|b| - 1];
    }
  }

  lemma {:induction false} WidthOfSame(a: seq<Piece>, b: seq<Piece>)
    requires multiset(a) == multiset(b)
    ensures Width(a) == Width(b)
  {
    hide Width;
    if a == [] {
      assert |multiset(b)| == |multiset(a)| == 0;
    } else {
      var n := |a| - 1;
      assert a == a[..n] + [a[n]];
      assert a[n] in multiset(b);
      var k :| 0 <= k < |b| && b[k] == a[n];
      assert b == b[..k] + [b[k]] + b[k + 1..];
      assert multiset(b[..k] + [b[k]] + b[k + 1..]) == multiset(b[..k] + b[k + 1..]) + multiset{b[k]};
      assert multiset(a[..n] + [a[n]]) == multiset(a[..n]) + multiset{a[n]};
      Cancel(multiset(a[..n]), multiset(b[..k] + b[k + 1..]), a[n]);
      WidthOfSame(a[..n], b[..k] + b[k + 1..]);
      WidthConcat(a[..n], [a[n]]);
      WidthConcat(b[..k] + [b[k]], b[k + 1..]);
      WidthConcat(b[..k], [b[k]]);
      WidthConcat(b[..k], b[k + 1..]);
    }
  }

  lemma Cancel(a: multiset<Piece>, b: multiset<Piece>, x: Piece)
    requires a + multiset{x} == b + multiset{x}
    ensures a == b
  {
    assert a == a + multiset{x} - multiset{x};
    assert b == b + multiset{x} - multiset{x};
  }

  lemma WidthStep(s: seq<Piece>, p: nat)
    requires p < |s|
    ensures Width(s[..p + 1]) == Width(s[..p]) + s[p].w
  {
    assert s[..p + 1][..p] == s[..p];
  }

  /** Each piece begins where those before it end. */
  method Tile(a: array<Piece>) returns (x: real)
    modifies a
    ensures forall p :: 0 <= p < a.Length ==> a[p] == old(a[p]).(x := Width(old(a[..])[..p]))
    ensures x == Width(old(a[..]))
  {
    hide Width;
    ghost var v := a[..];
    x := 0.0;
    NoWidth();
    var p: nat := 0;
    assert v[..0] == [];
    while p < a.Length
      invariant p <= a.Length && x == Width(v[..p])
      invariant forall t :: 0 <= t < p ==> a[t] == v[t].(x := Width(v[..t]))
      invariant forall t :: p <= t < a.Length ==> a[t] == v[t]
    {
      WidthStep(v, p);
      a[p] := a[p].(x := x);
      x := x + a[p].w;
      p := p + 1;
    }
    assert v[..p] == v;
  }

  lemma NoWidth()
    ensures Width([]) == 0.0
  {
  }

  /** No gap and no overlap from 0 to `x`. */
  predicate Tiled(t: seq<Piece>, x: real)
  {
    && (forall p :: 0 <= p < |t| ==> t[p].x == if p == 0 then 0.0 else t[p - 1].x + t[p - 1].w)
    && x == if |t| == 0 then 0.0 else t[|t| - 1].x + t[|t| - 1].w
  }

  /** The pieces tile the line from 0 on; `x` ends at the width they had in logical order. */
  method PlacePieces(a: array<Piece>) returns (x: real)
    requires forall p :: 0 <= p < a.Length ==> a[p].id == p && a[p].level < NO_ODD
    modifies a
    ensures Visual(IdsOf(a[..]), LevelsOf(old(a[..])))
    ensures forall p :: 0 <= p < a.Length ==> a[p].id < a.Length && a[p] == old(a[..])[a[p].id].(x := a[p].x)
    ensures Tiled(a[..], x) && x == Width(old(a[..]))
  {
    hide Visual, Width, From;
    ghost var line := a[..];
    ReorderLine(a);
    ghost var v := a[..];
    WidthOfSame(v, line);
    x := Tile(a);
    assert IdsOf(a[..]) == IdsOf(v);
    TilesMeet(v, a[..], x);
    StillFrom(v, a[..], line);
  }

  lemma TilesMeet(v: seq<Piece>, t: seq<Piece>, x: real)
    requires |v| == |t| && x == Width(v) && forall p :: 0 <= p < |v| ==> t[p] == v[p].(x := Width(v[..p]))
    ensures Tiled(t, x)
  {
    hide Width;
    NoWidth();
    assert v[..0] == [] && v[..|v|] == v;
    forall p | 0 <= p < |t| ensures t[p].x == if p == 0 then 0.0 else t[p - 1].x + t[p - 1].w {
      if p > 0 { WidthStep(v, p - 1); }
    }
    if |t| > 0 { WidthStep(v, |t| - 1); }
  }

  lemma StillFrom(v: seq<Piece>, t: seq<Piece>, line: seq<Piece>)
    requires From(v, line) && |t| == |v| && forall p :: 0 <= p < |v| ==> t[p] == v[p].(x := t[p].x)
    ensures forall p :: 0 <= p < |t| ==> t[p].id < |line| && t[p] == line[t[p].id].(x := t[p].x)
  {
  }
}
