/**
 * The open-addressed table of the glyph cache (src/text/glyph_cache.cpp): what
 * it means for every entry to be findable, and why backward-shift deletion
 * keeps it so. Table sizes are powers of two, so the source's `x & mask` is
 * x modulo the size; `Wrap` and `Steps` are that on the values it is used on.
 */
module GlyphTable {
  datatype Key = Key(font: nat, glyph: nat, ppem: nat, phase: nat)

  datatype Glyph = Glyph(left: int, top: int, w: nat, h: nat, page: nat, x: nat, y: nat, color: bool)

  datatype Slot = Free | Used(key: Key, g: Glyph)

  type Hash = Key -> nat

  function Home(hash: Hash, k: Key, n: nat): (i: nat)
    requires n > 0
    ensures i < n
  {
    hash(k) % n
  }

  /** `i & mask` for the index after a slot, or a slot plus at most one round. */
  function Wrap(i: nat, n: nat): nat
    requires n > 0 && i < 2 * n
  {
    if i < n then i else i - n
  }

  /** `(b - a) & mask`: how many slots on from `a` the slot `b` is. */
  function Steps(a: nat, b: nat, n: nat): nat
    requires a < n && b < n
  {
    if a <= b then b - a else b + n - a
  }

  lemma RemainderIsUnique(x: int, q: int, r: nat, n: nat)
    requires r < n && x == q * n + r
    ensures x % n == r
  {
    var d := x / n - q;
    assert d * n == r - x % n;
    assert d >= 1 ==> d * n >= n;
    assert d <= -1 ==> d * n + n <= 0;
  }

  /** Both are remainders modulo the table size, which is what masking computes. */
  lemma MaskingIsModulo(a: nat, b: nat, i: nat, n: nat)
    requires a < n && b < n && i < 2 * n
    ensures Wrap(i, n) == i % n
    ensures Steps(a, b, n) == (b - a) % n
  {
    RemainderIsUnique(i, if i < n then 0 else 1, Wrap(i, n), n);
    RemainderIsUnique(b - a, if a <= b then 0 else -1, Steps(a, b, n), n);
  }

  // ---- The invariant ----

  predicate DistinctKeys(t: seq<Slot>)
  {
    forall i, j :: 0 <= i < j < |t| && t[i].Used? && t[j].Used? ==> t[i].key != t[j].key
  }

  /** No free slot between the entry's home and where it is: a probe gets there. */
  predicate Findable(t: seq<Slot>, hash: Hash, i: nat)
    requires i < |t| && t[i].Used?
  {
    var n, home := |t|, Home(hash, t[i].key, |t|);
    forall j :: 0 <= j < n && Steps(home, j, n) < Steps(home, i, n) ==> t[j].Used?
  }

  predicate TableOk(t: seq<Slot>, hash: Hash)
  {
    && DistinctKeys(t)
    && forall i :: 0 <= i < |t| && t[i].Used? ==> Findable(t, hash, i)
  }

  function UsedSlots(t: seq<Slot>): set<nat> { set i: nat | i < |t| && t[i].Used? }

  /** What the table holds, wherever it is placed. */
  function Entries(t: seq<Slot>): set<Slot> { set i | 0 <= i < |t| && t[i].Used? :: t[i] }

  function Below(n: nat): (r: set<nat>)
    ensures |r| == n && forall i: nat :: i in r <==> i < n
  {
    if n == 0 then {} else Below(n - 1) + {n - 1}
  }

  /** A table with fewer entries than slots has a free slot. */
  lemma HasFreeSlot(t: seq<Slot>, hash: Hash) returns (i: nat)
    requires TableOk(t, hash) && |Entries(t)| < |t|
    ensures i < |t| && t[i].Free?
  {
    EntryCount(t);
    if forall i :: 0 <= i < |t| ==> t[i].Used? {
      SubsetSize(Below(|t|), UsedSlots(t));
    }
    i :| 0 <= i < |t| && t[i].Free?;
  }

  lemma SubsetSize<T>(a: set<T>, b: set<T>)
    requires a <= b
    ensures |a| <= |b|
  {
    if a != {} {
      var x :| x in a;
      SubsetSize(a - {x}, b - {x});
    }
  }

  // ---- Probing ----

  /** The first `d` slots from the key's home are used by other keys. */
  predicate Probed(t: seq<Slot>, hash: Hash, k: Key, d: nat)
    requires |t| > 0
  {
    forall j :: 0 <= j < |t| && Steps(Home(hash, k, |t|), j, |t|) < d ==> t[j].Used? && t[j].key != k
  }

  /** A probe that meets a free slot has seen enough: the key is nowhere in the table. */
  lemma FreeSlotEndsProbe(t: seq<Slot>, hash: Hash, k: Key, i: nat)
    requires TableOk(t, hash) && i < |t| && t[i].Free?
    requires Probed(t, hash, k, Steps(Home(hash, k, |t|), i, |t|))
    ensures forall j :: 0 <= j < |t| && t[j].Used? ==> t[j].key != k
  {
    forall j | 0 <= j < |t| && t[j].Used? ensures t[j].key != k {
      assert Findable(t, hash, j);
    }
  }

  /** Filling the free slot a probe ended at keeps the invariant. */
  lemma InsertKeepsOk(t: seq<Slot>, hash: Hash, e: Slot, i: nat)
    requires TableOk(t, hash) && e.Used? && i < |t| && t[i].Free?
    requires Probed(t, hash, e.key, Steps(Home(hash, e.key, |t|), i, |t|))
    ensures TableOk(t[i := e], hash)
    ensures Entries(t[i := e]) == Entries(t) + {e} && e !in Entries(t)
  {
    FreeSlotEndsProbe(t, hash, e.key, i);
    var u := t[i := e];
    forall a | 0 <= a < |u| && u[a].Used? ensures Findable(u, hash, a) {
      if a != i { assert Findable(t, hash, a); }
    }
    forall x ensures x in Entries(u) <==> x in Entries(t) + {e} {
      if x in Entries(t) {
        var a :| 0 <= a < |t| && t[a].Used? && t[a] == x;
        assert u[a] == x;
      }
      if x == e { assert u[i] == x; }
    }
  }

  lemma EmptyTable(n: nat, hash: Hash)
    ensures var t := seq(n, _ => Free); TableOk(t, hash) && Entries(t) == {}
  {
  }

  /** Distinct keys make an entry's slot unique. */
  lemma EntryCount(t: seq<Slot>)
    requires DistinctKeys(t)
    ensures |Entries(t)| == |UsedSlots(t)|
    decreases |UsedSlots(t)|
  {
    if UsedSlots(t) == {} {
      assert forall i: nat :: i < |t| && t[i].Used? ==> i in UsedSlots(t);
      assert Entries(t) == {};
    } else {
      var i :| i in UsedSlots(t);
      var u := t[i := Free];
      assert UsedSlots(u) == UsedSlots(t) - {i};
      assert DistinctKeys(u);
      EntryCount(u);
      assert Entries(u) == Entries(t) - {t[i]} by {
        forall x | x in Entries(t) - {t[i]} ensures x in Entries(u) {
          var a :| 0 <= a < |t| && t[a].Used? && t[a] == x;
          assert u[a] == x;
        }
      }
    }
  }

  // ---- Backward-shift deletion, seen from a free slot ----

  /** The table read from the free slot `start` on: no probe chain wraps in this order. */
  function FromSlot(t: seq<Slot>, start: nat): (r: seq<Slot>)
    requires start < |t|
    ensures |r| == |t| && forall p :: 0 <= p < |t| ==> r[p] == t[Wrap(start + p, |t|)]
  {
    seq(|t|, p requires 0 <= p < |t| => t[Wrap(start + p, |t|)])
  }

  function HomeFrom(hash: Hash, k: Key, start: nat, n: nat): (p: nat)
    requires start < n
    ensures p < n
  {
    Steps(start, Home(hash, k, n), n)
  }

  /** The chain condition without wrap-around; slot 0 is free. */
  predicate LineOk(r: seq<Slot>, hash: Hash, start: nat)
    requires start < |r|
  {
    && r[0].Free?
    && DistinctKeys(r)
    && (forall p :: 0 <= p < |r| && r[p].Used? ==> 1 <= HomeFrom(hash, r[p].key, start, |r|) <= p)
    && (forall p, q :: 0 <= q < p < |r| && r[p].Used? && HomeFrom(hash, r[p].key, start, |r|) <= q ==> r[q].Used?)
  }

  lemma FromSlotAt(t: seq<Slot>, start: nat, i: nat)
    requires start < |t| && i < |t|
    ensures FromSlot(t, start)[Steps(start, i, |t|)] == t[i]
    ensures Wrap(start + Steps(start, i, |t|), |t|) == i
  {
  }

  lemma TableIsLine(t: seq<Slot>, hash: Hash, start: nat)
    requires start < |t| && t[start].Free?
    ensures TableOk(t, hash) <==> LineOk(FromSlot(t, start), hash, start)
  {
    if TableOk(t, hash) { TableMakesLine(t, hash, start); }
    if LineOk(FromSlot(t, start), hash, start) { LineMakesTable(t, hash, start); }
  }

  lemma TableMakesLine(t: seq<Slot>, hash: Hash, start: nat)
    requires start < |t| && t[start].Free? && TableOk(t, hash)
    ensures LineOk(FromSlot(t, start), hash, start)
  {
    var r, n := FromSlot(t, start), |t|;
    forall p | 0 <= p < n && r[p].Used?
      ensures 1 <= HomeFrom(hash, r[p].key, start, n) <= p
    {
      assert Findable(t, hash, Wrap(start + p, n));
    }
    forall p, q | 0 <= q < p < n && r[p].Used? && HomeFrom(hash, r[p].key, start, n) <= q ensures r[q].Used? {
      assert Findable(t, hash, Wrap(start + p, n));
    }
    forall p, q | 0 <= p < q < n && r[p].Used? && r[q].Used? ensures r[p].key != r[q].key {
      assert Wrap(start + p, n) != Wrap(start + q, n);
    }
  }

  lemma LineMakesTable(t: seq<Slot>, hash: Hash, start: nat)
    requires start < |t| && t[start].Free? && LineOk(FromSlot(t, start), hash, start)
    ensures TableOk(t, hash)
  {
    var r, n := FromSlot(t, start), |t|;
    forall i, j | 0 <= i < j < n && t[i].Used? && t[j].Used? ensures t[i].key != t[j].key {
      FromSlotAt(t, start, i);
      FromSlotAt(t, start, j);
    }
    forall i | 0 <= i < n && t[i].Used? ensures Findable(t, hash, i) {
      FromSlotAt(t, start, i);
      var home := Home(hash, t[i].key, n);
      forall j | 0 <= j < n && Steps(home, j, n) < Steps(home, i, n) ensures t[j].Used? {
        FromSlotAt(t, start, j);
      }
    }
  }

  /**
   * The line while the sweep closes a gap: slot `hole` is the one to be
   * emptied, `[hole, j)` is used, and nothing between hole and `j` may move back.
   */
  predicate GapOk(r: seq<Slot>, hash: Hash, start: nat, hole: nat, j: nat)
    requires start < |r|
  {
    && 1 <= hole < j <= |r|
    && r[0].Free?
    && (forall p :: hole <= p < j ==> r[p].Used?)
    && (forall p, q :: 0 <= p < q < |r| && p != hole && q != hole && r[p].Used? && r[q].Used? ==> r[p].key != r[q].key)
    && (forall p :: 0 <= p < |r| && r[p].Used? ==> 1 <= HomeFrom(hash, r[p].key, start, |r|) <= p)
    && (forall p, q :: 0 <= q < p < |r| && r[p].Used? && HomeFrom(hash, r[p].key, start, |r|) <= q ==> r[q].Used?)
    && (forall p :: hole < p < j ==> hole < HomeFrom(hash, r[p].key, start, |r|))
  }

  function EntriesBut(r: seq<Slot>, hole: nat): set<Slot>
  {
    set p | 0 <= p < |r| && p != hole && r[p].Used? :: r[p]
  }

  lemma GapOpens(r: seq<Slot>, hash: Hash, start: nat, p: nat)
    requires start < |r| && LineOk(r, hash, start) && p < |r| && r[p].Used?
    ensures GapOk(r, hash, start, p, p + 1)
    ensures Entries(r) == EntriesBut(r, p) + {r[p]} && r[p] !in EntriesBut(r, p)
    ensures |Entries(r)| == |EntriesBut(r, p)| + 1
  {
  }

  /** The code's test on slots: is the home at or before the hole? */
  lemma SameTest(hash: Hash, k: Key, start: nat, p: nat, q: nat, n: nat, hole: nat, j: nat)
    requires start < n && p < q < n && hole == Wrap(start + p, n) && j == Wrap(start + q, n)
    requires HomeFrom(hash, k, start, n) <= q
    ensures Steps(Home(hash, k, n), j, n) >= Steps(hole, j, n) <==> HomeFrom(hash, k, start, n) <= p
  {
    hide Home;
  }

  lemma WrapNext(start: nat, q: nat, n: nat)
    requires start < n && q < n
    ensures Wrap(start + q, n) < n && Wrap(Wrap(start + q, n) + 1, n) == Wrap(start + q + 1, n) < n && Wrap(start + n, n) == start
    ensures q > 0 ==> Wrap(start + q, n) != start
  {
  }

  lemma HomeWithin(r: seq<Slot>, hash: Hash, start: nat, hole: nat, j: nat, p: nat)
    requires start < |r| && GapOk(r, hash, start, hole, j) && p < |r| && r[p].Used?
    ensures HomeFrom(hash, r[p].key, start, |r|) <= p
  {
  }

  lemma GapMoves(r: seq<Slot>, hash: Hash, start: nat, hole: nat, j: nat)
    requires start < |r| && GapOk(r, hash, start, hole, j) && j < |r| && r[j].Used?
    ensures HomeFrom(hash, r[j].key, start, |r|) <= hole ==>
              GapOk(r[hole := r[j]], hash, start, j, j + 1) && EntriesBut(r[hole := r[j]], j) == EntriesBut(r, hole)
    ensures HomeFrom(hash, r[j].key, start, |r|) > hole ==> GapOk(r, hash, start, hole, j + 1)
  {
    hide EntriesBut;
    if HomeFrom(hash, r[j].key, start, |r|) <= hole {
      assert hole < j by { HoleBefore(r, hash, start, hole, j); }
      MovedEntries(r, hole, j);
    }
  }

  lemma HoleBefore(r: seq<Slot>, hash: Hash, start: nat, hole: nat, j: nat)
    requires start < |r| && GapOk(r, hash, start, hole, j)
    ensures hole < j
  {
  }

  /** Filling the hole from slot `j` only moves an entry. */
  lemma MovedEntries(r: seq<Slot>, hole: nat, j: nat)
    requires hole < j < |r|
    ensures EntriesBut(r[hole := r[j]], j) == EntriesBut(r, hole)
  {
    var u := r[hole := r[j]];
    forall x ensures x in EntriesBut(u, j) <==> x in EntriesBut(r, hole) {
      if x in EntriesBut(r, hole) {
        var p :| 0 <= p < |r| && p != hole && r[p].Used? && r[p] == x;
        assert u[if p == j then hole else p] == x;
      }
      if x in EntriesBut(u, j) {
        var p :| 0 <= p < |u| && p != j && u[p].Used? && u[p] == x;
        assert r[if p == hole then j else p] == x;
      }
    }
  }

  lemma GapCloses(r: seq<Slot>, hash: Hash, start: nat, hole: nat, j: nat)
    requires start < |r| && GapOk(r, hash, start, hole, j) && (j == |r| || r[j].Free?)
    ensures LineOk(r[hole := Free], hash, start)
    ensures Entries(r[hole := Free]) == EntriesBut(r, hole)
  {
    var u := r[hole := Free];
    forall p | j < p < |r| && r[p].Used? ensures j < HomeFrom(hash, r[p].key, start, |r|) {
      assert r[j].Free?;
    }
    forall x | x in EntriesBut(r, hole) ensures x in Entries(u) {
      var p :| 0 <= p < |r| && p != hole && r[p].Used? && r[p] == x;
      assert u[p] == x;
    }
  }

  /** Writing a slot is the same in both orders. */
  lemma FromSlotUpdate(t: seq<Slot>, start: nat, p: nat, e: Slot)
    requires start < |t| && p < |t|
    ensures FromSlot(t[Wrap(start + p, |t|) := e], start) == FromSlot(t, start)[p := e]
  {
  }

  lemma SameEntries(t: seq<Slot>, start: nat)
    requires start < |t|
    ensures Entries(FromSlot(t, start)) == Entries(t)
  {
    var r, n := FromSlot(t, start), |t|;
    forall x | x in Entries(t) ensures x in Entries(r) {
      var i :| 0 <= i < n && t[i].Used? && t[i] == x;
      FromSlotAt(t, start, i);
      assert r[Steps(start, i, n)] == x;
    }
  }
}
