/**
 * The rasterised-glyph cache (src/text/glyph_cache.cpp). `&` with the table
 * mask is `Wrap`/`Steps`; the font code behind `fonts::rasterize` is the
 * function `rasterize`, and the hash is any function of the key.
 */
module GlyphCache {
  import opened GlyphTable
  import opened GlyphPages

  predicate PowerOfTwo(n: nat)
  {
    n == 1 || (n > 1 && n % 2 == 0 && PowerOfTwo(n / 2))
  }

  datatype Call = Lookup(k: Key) | NextPass | Budget(n: nat)

  class Cache {
    const hash: Hash
    const rasterize: Rasterizer
    var pages: seq<Page>
    var table: seq<Slot>
    var count: nat
    var bytes: nat
    var budget: nat
    var epoch: nat
    var openA8: int
    var openColor: int

    ghost predicate TableValid()
      reads this
    {
      && TableOk(table, hash)
      && count == |Entries(table)|
      && 2 * count <= |table|
      && (table == [] || PowerOfTwo(|table|))
    }

    ghost predicate Valid()
      reads this
    {
      && TableValid()
      && PagesOk(pages)
      && bytes == TotalBytes(pages)
      && EntriesOk(pages, Entries(table), rasterize)
      && OpenOk(pages, Entries(table), openA8, false)
      && OpenOk(pages, Entries(table), openColor, true)
    }

    constructor (hash: Hash, rasterize: Rasterizer)
      ensures Valid() && Entries(table) == {} && bytes == 0 && budget == 0x800000
      ensures this.hash == hash && this.rasterize == rasterize
    {
      this.hash, this.rasterize := hash, rasterize;
      pages, table, count, bytes, budget := [], [], 0, 0, 0x800000;
      epoch, openA8, openColor := 1, -1, -1;
    }

    // ---- The table ----

    /** Puts a new key's entry in the first free slot from its home on. */
    method InsertEntry(e: Slot) returns (i: nat)
      requires e.Used? && TableOk(table, hash) && count == |Entries(table)| < |table|
      requires forall x :: x in Entries(table) ==> x.key != e.key
      modifies `table, `count
      ensures |table| == old(|table|) && i < |table| && table[i] == e
      ensures TableOk(table, hash) && count == |Entries(table)| == old(count) + 1
      ensures Entries(table) == old(Entries(table)) + {e}
    {
      hide TableOk;
      var n := |table|;
      ghost var home := Home(hash, e.key, n);
      ghost var free := HasFreeSlot(table, hash);
      i := Home(hash, e.key, n);
      while table[i].Used?
        invariant i < n && Steps(home, i, n) <= Steps(home, free, n)
        invariant Probed(table, hash, e.key, Steps(home, i, n))
        decreases n - Steps(home, i, n)
      {
        assert table[i] in Entries(table);
        i := Wrap(i + 1, n);
      }
      InsertKeepsOk(table, hash, e, i);
      table := table[i := e];
      count := count + 1;
    }

    /** Doubles the table; what it holds stays. */
    method Grow()
      requires TableValid() && table != []
      modifies `table, `count
      ensures TableValid() && |table| == 2 * old(|table|)
      ensures Entries(table) == old(Entries(table))
    {
      hide TableOk, Entries;
      var was := table;
      NoneTaken(was);
      table := seq(2 * |was|, _ => Free);
      EmptyTable(2 * |was|, hash);
      count := 0;
      var k := 0;
      while k < |was|
        invariant k <= |was| && |table| == 2 * |was|
        invariant TableOk(table, hash) && count == |Entries(table)| <= k
        invariant Entries(table) == Entries(was[..k])
      {
        assert was[..k + 1] == was[..k] + [was[k]];
        EntriesPush(was[..k], was[k]);
        if was[k].Used? {
          NewKey(was, hash, k);
          var _ := InsertEntry(was[k]);
        }
        k := k + 1;
      }
      assert was[..|was|] == was;
    }

    /**
     * Moves back into the hole each later entry of the run whose home is not
     * past it; the run ends at the first free slot, seen from `start` at place `q`.
     */
    method MoveBack(hole0: nat, ghost start: nat, ghost p0: nat) returns (hole: nat, ghost p: nat, ghost q: nat)
      requires start < |table| && 1 <= p0 < |table| && hole0 == Wrap(start + p0, |table|) && table[start].Free?
      requires GapOk(FromSlot(table, start), hash, start, p0, p0 + 1)
      modifies `table
      ensures |table| == old(|table|) && table[start].Free?
      ensures p0 <= p < q <= |table| && hole == Wrap(start + p, |table|) < |table|
      ensures GapOk(FromSlot(table, start), hash, start, p, q) && (q < |table| ==> FromSlot(table, start)[q].Free?)
      ensures EntriesBut(FromSlot(table, start), p) == EntriesBut(FromSlot(old(table), start), p0)
      ensures forall m :: 0 <= m < p0 ==> FromSlot(table, start)[m] == FromSlot(old(table), start)[m]
    {
      hide GapOk, LineOk, Entries, EntriesBut, Steps, Wrap, HomeFrom, FromSlot;
      var n := |table|;
      WrapNext(start, p0, n);
      p, q := p0, p0 + 1;
      hole := hole0;
      var j := Wrap(hole0 + 1, n);
      while table[j].Used?
        invariant |table| == n && hole < n && j < n && table[start].Free?
        invariant p0 <= p < q <= n && hole == Wrap(start + p, n) && j == Wrap(start + q, n)
        invariant GapOk(FromSlot(table, start), hash, start, p, q)
        invariant EntriesBut(FromSlot(table, start), p) == EntriesBut(FromSlot(old(table), start), p0)
        invariant forall m :: 0 <= m < p0 ==> FromSlot(table, start)[m] == FromSlot(old(table), start)[m]
        decreases n - q
      {
        WrapNext(start, p, n);
        assert q < n;
        WrapNext(start, q, n);
        HomeWithin(FromSlot(table, start), hash, start, p, q, q);
        SameTest(hash, table[j].key, start, p, q, n, hole, j);
        GapMoves(FromSlot(table, start), hash, start, p, q);
        var home := Home(hash, table[j].key, n);
        if Steps(home, j, n) >= Steps(hole, j, n) {
          FromSlotUpdate(table, start, p, table[j]);
          table := table[hole := table[j]];
          hole, p := j, q;
        }
        j, q := Wrap(j + 1, n), q + 1;
      }
    }

    /** Empties slot `i`. Seen from the free slot `start`, nothing before `i` changes. */
    method RemoveAt(i: nat, ghost start: nat)
      requires start < |table| && i < |table| && table[i].Used? && table[start].Free?
      requires LineOk(FromSlot(table, start), hash, start) && count == |Entries(table)|
      modifies `table, `count
      ensures |table| == old(|table|) && table[start].Free?
      ensures LineOk(FromSlot(table, start), hash, start)
      ensures Entries(table) == old(Entries(table)) - {old(table)[i]}
      ensures count == |Entries(table)| == old(count) - 1
      ensures forall q :: 0 <= q < Steps(start, i, |table|) ==> FromSlot(table, start)[q] == FromSlot(old(table), start)[q]
    {
      hide GapOk, LineOk, Entries, EntriesBut, FromSlot;
      var n := |table|;
      ghost var first := Steps(start, i, n);
      FromSlotAt(table, start, i);
      SameEntries(table, start);
      GapOpens(FromSlot(table, start), hash, start, first);
      ghost var kept := EntriesBut(FromSlot(table, start), first);
      var hole;
      ghost var p, q;
      hole, p, q := MoveBack(i, start, first);
      GapCloses(FromSlot(table, start), hash, start, p, q);
      FromSlotUpdate(table, start, p, Free);
      WrapNext(start, p, n);
      table := table[hole := Free];
      SameEntries(table, start);
      count := count - 1;
    }

    /** Drops exactly the entries on dead pages, in one sweep that starts after a free slot. */
    method PurgeDeadPages()
      requires TableValid()
      requires forall e :: e in Entries(table) ==> e.g.page == NO_PAGE || e.g.page < |pages|
      modifies `table, `count
      ensures TableValid() && |table| == old(|table|)
      ensures Entries(table) == set e | e in old(Entries(table)) && !OnDeadPage(pages, e)
    {
      hide LineOk, TableOk;
      var n := |table|;
      if n == 0 { return; }
      ghost var free := HasFreeSlot(table, hash);
      var start := 0;
      while table[start].Used?
        invariant start <= free
        decreases free - start
      {
        start := start + 1;
      }
      TableIsLine(table, hash, start);
      var step := 1;
      while step <= n
        invariant 1 <= step <= n + 1 && |table| == n && table[start].Free?
        invariant LineOk(FromSlot(table, start), hash, start)
        invariant count == |Entries(table)| <= old(count)
        invariant Entries(table) <= old(Entries(table))
        invariant forall e :: e in old(Entries(table)) && !OnDeadPage(pages, e) ==> e in Entries(table)
        invariant forall q :: 0 <= q < step && q < n ==> !OnDeadPage(pages, FromSlot(table, start)[q])
        decreases count, n + 1 - step
      {
        var i := Wrap(start + step, n);
        assert step < n ==> FromSlot(table, start)[step] == table[i];
        if table[i].Free? || table[i].g.page == NO_PAGE || pages[table[i].g.page].alive {
          step := step + 1;
        } else {
          RemoveAt(i, start);
        }
      }
      TableIsLine(table, hash, start);
      SameEntries(table, start);
    }

    // ---- Pages ----

    /** Blanks the least recently used live page other than `keep`, first of equals; its entries stay for the purge. */
    method EvictOne(keep: int) returns (freed: bool, ghost victim: int)
      requires PagesOk(pages) && bytes == TotalBytes(pages)
      modifies `pages, `bytes, `openA8, `openColor
      ensures !freed ==> LivePages(pages) <= {keep} && pages == old(pages) && bytes == old(bytes)
                         && openA8 == old(openA8) && openColor == old(openColor)
      ensures freed ==>
                && victim in LivePages(old(pages)) && victim != keep && 0 <= victim < |old(pages)|
                && bytes == old(bytes) - old(pages)[victim].Bytes()
                && (forall i :: i in LivePages(old(pages)) && i != keep ==> old(pages)[victim].lastUse <= old(pages)[i].lastUse)
                && pages == old(pages)[victim := BLANK]
                && openA8 == (if old(openA8) == victim then -1 else old(openA8))
                && openColor == (if old(openColor) == victim then -1 else old(openColor))
      ensures PagesOk(pages) && bytes == TotalBytes(pages)
    {
      hide PagesOk, TotalBytes;
      var v := Oldest(keep);
      victim := v;
      if v < 0 { return false, v; }
      PageBlanked(pages, v);
      bytes := bytes - pages[v].Bytes();
      pages := pages[v := BLANK];
      if openA8 == v { openA8 := -1; }
      if openColor == v { openColor := -1; }
      freed := true;
    }

    /** The least recently used live page other than `keep`, first of equals; -1 when there is none. */
    method Oldest(keep: int) returns (v: int)
      ensures v == -1 ==> LivePages(pages) <= {keep}
      ensures v != -1 ==>
        && v in LivePages(pages) && v != keep
        && forall i :: i in LivePages(pages) && i != keep ==> pages[v].lastUse <= pages[i].lastUse
    {
      var i := 0;
      v := -1;
      while i < |pages|
        invariant 0 <= i <= |pages| && -1 <= v < i
        invariant v == -1 ==> forall k :: 0 <= k < i && k != keep ==> !pages[k].alive
        invariant v >= 0 ==>
                    && pages[v].alive && v != keep
                    && forall k :: 0 <= k < i && k != keep && pages[k].alive ==> pages[v].lastUse <= pages[k].lastUse
      {
        if pages[i].alive && i != keep && (v < 0 || pages[i].lastUse < pages[v].lastUse) {
          v := i;
        }
        i := i + 1;
      }
    }

    method FirstDeadPage() returns (idx: int)
      ensures idx == -1 ==> forall k :: 0 <= k < |pages| ==> pages[k].alive
      ensures idx != -1 ==> 0 <= idx < |pages| && !pages[idx].alive && forall k :: 0 <= k < idx ==> pages[k].alive
    {
      for i := 0 to |pages|
        invariant forall k :: 0 <= k < i ==> pages[k].alive
      {
        if !pages[i].alive { return i; }
      }
      idx := -1;
    }

    /** Evicts until the budget holds or no other page is live. */
    method EvictToBudget(idx: int) returns (freedAny: bool, ghost evicted: set<int>)
      requires PagesOk(pages) && bytes == TotalBytes(pages) && 0 <= idx < |pages| && pages[idx].alive
      modifies `pages, `bytes, `openA8, `openColor
      ensures PagesOk(pages) && bytes == TotalBytes(pages)
      ensures bytes <= budget || LivePages(pages) == {idx}
      ensures Blanked(old(pages), pages, idx, evicted) && (freedAny <==> evicted != {})
      ensures evicted != {} ==> exists v :: v in evicted && 0 <= v < |old(pages)| && bytes + old(pages)[v].Bytes() > budget
      ensures (old(bytes) <= budget ==> evicted == {}) && (evicted == {} ==> bytes == old(bytes))
      ensures openA8 == (if old(openA8) in evicted then -1 else old(openA8))
      ensures openColor == (if old(openColor) in evicted then -1 else old(openColor))
    {
      hide PagesOk, TotalBytes, Blanked, LivePages;
      freedAny, evicted := false, {};
      NoneBlanked(pages, idx);
      while bytes > budget && |pages| > 1
        invariant PagesOk(pages) && bytes == TotalBytes(pages)
        invariant |pages| == |old(pages)| && Blanked(old(pages), pages, idx, evicted)
        invariant freedAny <==> evicted != {}
        invariant evicted != {} ==> exists v :: v in evicted && 0 <= v < |old(pages)| && bytes + old(pages)[v].Bytes() > budget
        invariant (old(bytes) <= budget ==> evicted == {}) && (evicted == {} ==> bytes == old(bytes))
        invariant openA8 == if old(openA8) in evicted then -1 else old(openA8)
        invariant openColor == if old(openColor) in evicted then -1 else old(openColor)
        decreases LivePages(pages)
      {
        ghost var before := pages;
        var freed, victim := EvictOne(idx);
        if !freed { break; }
        BlankedMore(old(pages), before, pages, idx, evicted, victim);
        freedAny, evicted := true, evicted + {victim};
        assert victim in evicted && bytes + old(pages)[victim].Bytes() > budget;
      }
      KeptIsLive(old(pages), pages, idx, evicted);
    }

    /** A zeroed live page at the first dead index, or a new last one; -1 when there is no room. */
    method AllocatePage(color: bool, w: nat, h: nat) returns (idx: int)
      requires PagesOk(pages) && bytes == TotalBytes(pages)
      modifies `pages, `bytes
      ensures PagesOk(pages) && bytes == TotalBytes(pages)
      ensures idx == -1 ==> |pages| == MAX_PAGES && pages == old(pages) && forall k :: 0 <= k < |pages| ==> pages[k].alive
      ensures idx != -1 ==> 0 <= idx < |pages| && Allocated(old(pages), pages, idx) && pages[idx] == EmptyPage(color, w, h)
      ensures bytes == if idx == -1 then old(bytes) else old(bytes) + EmptyPage(color, w, h).Bytes()
    {
      hide PagesOk, TotalBytes, Allocated;
      PagesFew(pages);
      idx := FirstDeadPage();
      if idx < 0 {
        if |pages| >= MAX_PAGES { return; }
        pages := pages + [BLANK];
        idx := |pages| - 1;
      }
      AllocatedInFull(color, w, h);
      PageMade(old(pages), pages, idx, EmptyPage(color, w, h));
      pages := pages[idx := EmptyPage(color, w, h)];
      bytes := bytes + pages[idx].Bytes();
    }

    /**
     * A zeroed live page at the first dead index (or a new last one), then
     * evictions until the budget holds, then the purge. -1 when every index is live.
     */
    method NewPage(color: bool, w: nat, h: nat) returns (idx: int, ghost evicted: set<int>)
      requires Valid()
      modifies this
      ensures Valid() && |table| == old(|table|) && epoch == old(epoch) && budget == old(budget)
      ensures idx == -1 ==> |pages| == MAX_PAGES && (forall k :: 0 <= k < |pages| ==> pages[k].alive)
                            && pages == old(pages) && Entries(table) == old(Entries(table))
      ensures idx != -1 ==> 0 <= idx < |pages| && openA8 != idx && openColor != idx && pages[idx] == EmptyPage(color, w, h)
      ensures idx != -1 ==> bytes <= budget || LivePages(pages) == {idx}
      ensures AsNeeded(old(pages), old(bytes), if idx == -1 then 0 else EmptyPage(color, w, h).Bytes(), bytes, budget, evicted)
      ensures Evicts(old(pages), pages, old(Entries(table)), Entries(table), idx, evicted)
      ensures forall e :: e in Entries(table) ==> e.g.page != idx
    {
      hide TableOk, EntriesOk, OpenOk, PowerOfTwo, Evicts, Survivors, Entries, TotalBytes, LivePages, AsNeeded;
      evicted := {};
      idx := AllocatePage(color, w, h);
      if idx < 0 {
        NothingEvicted(pages, Entries(table), idx, rasterize);
        NoneNeeded(pages, bytes, budget);
        return;
      }
      ghost var made := pages;
      var freedAny;
      freedAny, evicted := EvictToBudget(idx);
      DeadIffEvicted(old(pages), made, pages, Entries(table), idx, evicted, rasterize);
      NewPageNeeded(old(pages), made, pages, idx, old(bytes), EmptyPage(color, w, h).Bytes(), bytes, budget, evicted);
      if freedAny {
        PurgeDeadPages();
        PurgeIsSurvival(pages, old(Entries(table)), evicted);
      }
      KeptEntriesOk(old(pages), pages, old(Entries(table)), Entries(table), idx, evicted, rasterize);
      KeptOpenOk(old(pages), pages, old(Entries(table)), Entries(table), idx, evicted, old(openA8), false);
      KeptOpenOk(old(pages), pages, old(Entries(table)), Entries(table), idx, evicted, old(openColor), true);
    }

    function OpenPage(color: bool): int
      reads this
    {
      if color then openColor else openA8
    }

    method SetOpen(color: bool, o: int)
      modifies `openA8, `openColor
      ensures openColor == (if color then o else old(openColor)) && openA8 == if color then old(openA8) else o
    {
      if color { openColor := o; } else { openA8 := o; }
    }

    /** Opens a new page of standard size unless one is open. */
    method EnsureOpen(color: bool) returns (ok: bool, ghost evicted: set<int>)
      requires Valid()
      modifies this
      ensures Valid() && |table| == old(|table|) && epoch == old(epoch) && budget == old(budget)
      ensures Entries(table) == Survivors(old(Entries(table)), evicted) && evicted <= LivePages(old(pages))
      ensures ok ==> OpenPage(color) != -1
      ensures !ok ==> |pages| == MAX_PAGES
      ensures old(OpenPage(color)) == -1 && ok ==> pages[OpenPage(color)] == EmptyPage(color, PAGE_SIZE, PAGE_SIZE)
      ensures old(OpenPage(color)) != -1 ==>
                ok && evicted == {} && pages == old(pages) && bytes == old(bytes) && OpenPage(color) == old(OpenPage(color))
      ensures old(OpenPage(color)) == -1 ==>
                AsNeeded(old(pages), old(bytes), if ok then EmptyPage(color, PAGE_SIZE, PAGE_SIZE).Bytes() else 0, bytes, budget, evicted)
    {
      hide TableOk, EntriesOk, OpenOk, PowerOfTwo, Entries, TotalBytes, AsNeeded;
      evicted := {};
      SurvivorsOfNone(pages, Entries(table), rasterize);
      if OpenPage(color) != -1 { OpenIsThere(pages, Entries(table), OpenPage(color), color, rasterize); }
      if OpenPage(color) < 0 || !pages[OpenPage(color)].alive {
        var idx;
        idx, evicted := NewPage(color, PAGE_SIZE, PAGE_SIZE);
        NothingOpen(pages, Entries(table), color, rasterize);
        if idx >= 0 { NewPageOpens(pages, Entries(table), idx, color, rasterize); }
        SetOpen(color, idx);
        if idx < 0 { return false, evicted; }
      }
      ok := true;
    }

    /** The next place on the open page's shelves; a page without one is marked full and left. */
    method TryOpenPage(color: bool, w: nat, h: nat) returns (ok: bool, page: nat, x: nat, y: nat)
      requires Valid() && OpenPage(color) != -1 && w <= PAGE_SIZE && h <= PAGE_SIZE
      modifies `pages, `openA8, `openColor
      ensures Valid() && LivePages(pages) == old(LivePages(pages))
      ensures ok ==> page < |pages| && Room(pages[page], color, w, h, x, y)
      ensures ok ==> forall e :: e in Entries(table) && e.g.page == page ==> Apart(e.g, At(w, h, page, x, y))
      ensures ok && page in {openA8, openColor} ==> OnShelves(pages[page], At(w, h, page, x, y))
      ensures !ok ==> OpenPage(color) == -1
      ensures ok <==> Fits(old(pages[OpenPage(color)]), w, h)
      ensures ok ==> page == old(OpenPage(color)) && (x, y) == ShelfPlace(old(pages[OpenPage(color)]), w)
      ensures SameMeasures(old(pages), pages)
      ensures old(pages[OpenPage(color)]) == EmptyPage(color, PAGE_SIZE, PAGE_SIZE) ==> ok
    {
      hide TableOk, EntriesOk, OpenOk, PowerOfTwo, Entries, TotalBytes;
      OpenIsThere(pages, Entries(table), OpenPage(color), color, rasterize);
      page, x, y := OpenPage(color), 0, 0;
      var p := pages[page];
      if p.cursorX + w > p.w {
        p := p.(shelfY := p.shelfY + p.shelfH, cursorX := 0, shelfH := 0);
      }
      ok := p.shelfY + h <= p.h;
      if ok {
        x, y := p.cursorX, p.shelfY;
        p := p.(cursorX := p.cursorX + w, shelfH := if h > p.shelfH then h else p.shelfH);
        ShelfStep(pages, Entries(table), page, color, rasterize, w, h, x, y, p);
      } else {
        p := p.(full := true);
      }
      TotalBytesUpdate(pages, page, p);
      PageFieldsKeepEntries(pages, Entries(table), rasterize, page, p);
      OpenElsewhere(pages, Entries(table), OpenPage(!color), !color, rasterize, page, p);
      assert LivePages(pages[page := p]) == LivePages(pages);
      pages := pages[page := p];
      if !ok {
        NothingOpen(pages, Entries(table), color, rasterize);
        SetOpen(color, -1);
      }
    }

    /** A page of its own, marked full. */
    method PlaceAlone(color: bool, w: nat, h: nat) returns (ok: bool, page: nat, ghost evicted: set<int>)
      requires Valid()
      modifies this
      ensures Valid() && |table| == old(|table|) && epoch == old(epoch) && budget == old(budget)
      ensures Entries(table) == Survivors(old(Entries(table)), evicted) && evicted <= LivePages(old(pages))
      ensures !ok ==> |pages| == MAX_PAGES
      ensures ok ==> page < |pages| && Room(pages[page], color, w, h, 0, 0) && page !in {openA8, openColor}
      ensures ok ==> forall e :: e in Entries(table) && e.g.page == page ==> Apart(e.g, At(w, h, page, 0, 0))
      ensures AsNeeded(old(pages), old(bytes), if ok then EmptyPage(color, w, h).Bytes() else 0, bytes, budget, evicted)
    {
      hide TableOk, EntriesOk, OpenOk, PowerOfTwo, Entries, TotalBytes, AsNeeded;
      var idx;
      idx, evicted := NewPage(color, w, h);
      page := 0;
      if idx < 0 { return false, page, evicted; }
      var p := pages[idx].(full := true);
      TotalBytesUpdate(pages, idx, p);
      PageFieldsKeepEntries(pages, Entries(table), rasterize, idx, p);
      OpenElsewhere(pages, Entries(table), openA8, false, rasterize, idx, p);
      OpenElsewhere(pages, Entries(table), openColor, true, rasterize, idx, p);
      pages := pages[idx := p];
      ok, page := true, idx;
    }

    /**
     * Room for a bitmap: a page of its own when it is larger than a standard
     * one, else the next place on the open page's shelves, a full page being
     * left and a new one opened. The place overlaps no entry.
     */
    method Place(color: bool, w: nat, h: nat) returns (ok: bool, page: nat, x: nat, y: nat, ghost evicted: set<int>)
      requires Valid()
      modifies this
      ensures Valid() && |table| == old(|table|) && epoch == old(epoch) && budget == old(budget)
      ensures Entries(table) == Survivors(old(Entries(table)), evicted)
      ensures evicted <= LivePages(old(pages))
      ensures !ok ==> |pages| == MAX_PAGES
      ensures ok ==> page < |pages| && Room(pages[page], color, w, h, x, y)
      ensures ok ==> forall e :: e in Entries(table) && e.g.page == page ==> Apart(e.g, At(w, h, page, x, y))
      ensures ok && page in {openA8, openColor} ==> OnShelves(pages[page], At(w, h, page, x, y))
      ensures HasRoom(old(pages), old(OpenPage(color)), w, h) ==>
                ok && page == old(OpenPage(color)) && (x, y) == ShelfPlace(old(pages)[page], w) && evicted == {} && bytes == old(bytes)
      ensures AsNeeded(old(pages), old(bytes), MadeFor(ok, old(pages), old(OpenPage(color)), color, w, h), bytes, budget, evicted)
    {
      hide TableOk, EntriesOk, OpenOk, PowerOfTwo, Entries, TotalBytes, AsNeeded, ShelfPlace;
      page, x, y, evicted := 0, 0, 0, {};
      NoneNeeded(pages, bytes, budget);
      if OpenPage(color) != -1 { OpenIsThere(pages, Entries(table), OpenPage(color), color, rasterize); }
      if w > PAGE_SIZE || h > PAGE_SIZE {
        ok, page, evicted := PlaceAlone(color, w, h);
        return;
      }
      SurvivorsOfNone(pages, Entries(table), rasterize);
      var attempt := 0;
      while attempt < 2
        invariant 0 <= attempt <= 2
        invariant Valid() && |table| == old(|table|) && epoch == old(epoch) && budget == old(budget)
        invariant Entries(table) == old(Entries(table)) && evicted == {} && LivePages(pages) == LivePages(old(pages))
        invariant bytes == old(bytes) && SameMeasures(old(pages), pages)
        invariant attempt == 0 ==> pages == old(pages) && OpenPage(color) == old(OpenPage(color))
        invariant attempt > 0 ==> OpenPage(color) == -1 && !HasRoom(old(pages), old(OpenPage(color)), w, h)
        invariant attempt == 2 ==> |pages| == MAX_PAGES
      {
        ghost var was, held := pages, OpenPage(color);
        ok, evicted := EnsureOpen(color);
        if held == -1 { NeededFor(old(pages), was, old(bytes), if ok then EmptyPage(color, PAGE_SIZE, PAGE_SIZE).Bytes() else 0, bytes, budget, evicted); }
        if !ok { return; }
        ok, page, x, y := TryOpenPage(color, w, h);
        if ok { return; }
        attempt := attempt + 1;
      }
      ok := false;
    }

    // ---- Lookup and insertion ----

    /** The slot that holds the key, or -1 when no slot does. */
    method Find(k: Key) returns (i: int)
      requires TableValid() && table != []
      ensures i == -1 ==> forall e :: e in Entries(table) ==> e.key != k
      ensures i != -1 ==> 0 <= i < |table| && table[i].Used? && table[i].key == k
    {
      hide TableOk, PowerOfTwo;
      var n := |table|;
      ghost var home := Home(hash, k, n);
      ghost var free := HasFreeSlot(table, hash);
      var j: nat := Home(hash, k, n);
      while table[j].Used?
        invariant j < n && Steps(home, j, n) <= Steps(home, free, n)
        invariant Probed(table, hash, k, Steps(home, j, n))
        decreases n - Steps(home, j, n)
      {
        if table[j].key == k { return j; }
        j := Wrap(j + 1, n);
      }
      FreeSlotEndsProbe(table, hash, k, j);
      i := -1;
    }

    /** Copies a raster into its rectangle, row by row, gamma applied on the way; no other pixel changes. */
    method CopyPixels(page: nat, x: nat, y: nat, r: Raster)
      requires page < |pages| && pages[page].Sized() && 0 < r.w && 0 < r.h
      requires x + r.w <= pages[page].w && y + r.h <= pages[page].h
      modifies `pages
      ensures |pages| == old(|pages|) && pages == old(pages)[page := old(pages)[page].(px := pages[page].px)]
      ensures pages[page].Sized()
      ensures Copied(old(pages)[page], pages[page], x, y, r, r.h, 0)
    {
      var was := pages;
      var p := pages[page];
      var row := 0;
      while row < r.h
        invariant 0 <= row <= r.h && pages == was
        invariant p == was[page].(px := p.px) && p.Sized()
        invariant Copied(was[page], p, x, y, r, row, 0)
      {
        var k := 0;
        while k < r.w
          invariant 0 <= k <= r.w && pages == was
          invariant p == was[page].(px := p.px) && p.Sized()
          invariant Copied(was[page], p, x, y, r, row, k)
        {
          SetPixel(p, y + row, x + k, r.Pixel(row, k));
          p := p.(px := p.px[(y + row) * p.w + (x + k) := r.Pixel(row, k)]);
          k := k + 1;
        }
        row := row + 1;
      }
      pages := pages[page := p];
    }

    method Touch(page: nat)
      requires Valid() && page < |pages| && pages[page].alive
      modifies `pages
      ensures Valid() && pages == old(pages)[page := old(pages)[page].(lastUse := epoch)]
    {
      hide TableOk, EntriesOk, OpenOk, PowerOfTwo, Entries, TotalBytes;
      var p := pages[page].(lastUse := epoch);
      TotalBytesUpdate(pages, page, p);
      PageFieldsKeepEntries(pages, Entries(table), rasterize, page, p);
      SameShelvesKeepOpen(pages, Entries(table), openA8, false, rasterize, page, p);
      SameShelvesKeepOpen(pages, Entries(table), openColor, true, rasterize, page, p);
      pages := pages[page := p];
    }

    /** Adds a new key's entry, growing the table first when it would be more than half full. */
    method AddEntry(e: Slot)
      requires e.Used? && TableValid() && table != []
      requires forall x :: x in Entries(table) ==> x.key != e.key
      modifies `table, `count
      ensures TableValid() && Entries(table) == old(Entries(table)) + {e}
    {
      hide TableOk, Entries;
      if (count + 1) * 2 > |table| { Grow(); }
      var _ := InsertEntry(e);
    }

    /** Draws a key's raster in free room and adds its entry. */
    method Draw(k: Key, page: nat, x: nat, y: nat) returns (g: Glyph)
      requires Valid() && table != [] && Drawable(rasterize, k) && forall e :: e in Entries(table) ==> e.key != k
      requires var r := rasterize(k).1;
               && page < |pages| && Room(pages[page], r.color, r.w, r.h, x, y)
               && (forall e :: e in Entries(table) && e.g.page == page ==> Apart(e.g, At(r.w, r.h, page, x, y)))
               && (page in {openA8, openColor} ==> OnShelves(pages[page], At(r.w, r.h, page, x, y)))
      modifies `pages, `table, `count
      ensures Valid() && Entries(table) == old(Entries(table)) + {Used(k, g)}
      ensures g.page == page < |pages| == old(|pages|) && page < MAX_PAGES && pages[page].lastUse == epoch
    {
      hide TableOk, EntriesOk, OpenOk, PowerOfTwo, Entries, TotalBytes, Copied, Apart, OnShelves, Drawable, Room, PagesOk;
      RoomToCopy(pages, rasterize, k, page, x, y);
      var r := rasterize(k).1;
      g := Glyph(ToInt16(r.left), ToInt16(r.top), r.w, r.h, page, x, y, r.color);
      CopyPixels(page, x, y, r);
      pages := pages[page := pages[page].(lastUse := epoch)];
      PageTouched(old(pages), pages, page);
      DrawnEntry(old(pages), pages, Entries(table), rasterize, k, g);
      DrawnKeepsOpen(old(pages), pages, Entries(table), openA8, false, rasterize, k, g);
      DrawnKeepsOpen(old(pages), pages, Entries(table), openColor, true, rasterize, k, g);
      AddEntry(Used(k, g));
    }

    /** The entry of a key the table does not hold: its raster drawn in free room, or nothing to draw. */
    method Miss(k: Key) returns (g: Glyph, ghost evicted: set<int>)
      requires Valid() && table != [] && forall e :: e in Entries(table) ==> e.key != k
      modifies this
      ensures Valid() && epoch == old(epoch) && budget == old(budget)
      ensures Entries(table) == Survivors(old(Entries(table)), evicted) + {Used(k, g)}
      ensures Drawable(rasterize, k) && g.page == NO_PAGE ==> |pages| == MAX_PAGES
      ensures evicted <= LivePages(old(pages))
      ensures g.page != NO_PAGE ==> g.page < |pages| && pages[g.page].lastUse == epoch
      ensures AsNeeded(old(pages), old(bytes), Made(g, rasterize(k).1, old(pages), old(openA8), old(openColor)), bytes, budget, evicted)
    {
      hide TableOk, EntriesOk, OpenOk, PowerOfTwo, Entries, TotalBytes, Survivors, AsNeeded, HasRoom;
      evicted := {};
      NoneNeeded(pages, bytes, budget);
      var (drawn, r) := rasterize(k);
      SurvivorsOfNone(pages, Entries(table), rasterize);
      g := NothingToDraw(rasterize, k);
      if drawn && 0 < r.w < 4096 && 0 < r.h < 4096 {
        var ok, page, x, y;
        ok, page, x, y, evicted := Place(r.color, r.w, r.h);
        SurvivorsAreOld(old(Entries(table)), evicted);
        if ok {
          g := Draw(k, page, x, y);
          return;
        }
      }
      UndrawnEntry(pages, Entries(table), openA8, openColor, rasterize, k);
      AddEntry(Used(k, g));
    }

    /**
     * The glyph of a key, rasterised on a miss. A hit returns what is cached.
     * A miss drops the entries of whole evicted pages and adds one entry,
     * which `Valid` says is backed by the key's raster.
     */
    method Get(k: Key) returns (g: Glyph, ghost evicted: set<int>)
      requires Valid()
      modifies this
      ensures Valid() && epoch == old(epoch) && budget == old(budget)
      ensures Used(k, g) in Entries(table)
      ensures (exists e :: e in old(Entries(table)) && e.key == k) ==> Entries(table) == old(Entries(table)) && evicted == {}
      ensures (forall e :: e in old(Entries(table)) ==> e.key != k) ==>
                && Entries(table) == Survivors(old(Entries(table)), evicted) + {Used(k, g)}
                && (Drawable(rasterize, k) && g.page == NO_PAGE ==> |pages| == MAX_PAGES)
      ensures evicted <= LivePages(old(pages))
      ensures g.page != NO_PAGE ==> g.page < |pages| && pages[g.page].lastUse == epoch
      ensures (exists e :: e in old(Entries(table)) && e.key == k) ==>
                && bytes == old(bytes) && |pages| == |old(pages)|
                && forall i :: 0 <= i < |pages| ==> pages[i] == if i == g.page then old(pages)[i].(lastUse := epoch) else old(pages)[i]
      ensures (forall e :: e in old(Entries(table)) ==> e.key != k) ==>
                AsNeeded(old(pages), old(bytes), Made(g, rasterize(k).1, old(pages), old(openA8), old(openColor)), bytes, budget, evicted)
    {
      hide TableOk, EntriesOk, OpenOk, PowerOfTwo, Entries, TotalBytes, Survivors, AsNeeded;
      if table == [] {
        StartTable(hash);
        table := seq(1024, _ => Free);
      }
      var i := Find(k);
      if i == -1 {
        g, evicted := Miss(k);
        return;
      }
      g, evicted := table[i].g, {};
      SlotIsEntry(table, i);
      EntryHasPage(pages, Entries(table), rasterize, table[i]);
      if g.page != NO_PAGE { Touch(g.page); }
    }

    method Tick()
      requires Valid()
      modifies `epoch
      ensures Valid() && epoch == old(epoch) + 1
    {
      epoch := epoch + 1;
    }

    method SetBudget(budget: nat)
      requires Valid()
      modifies `budget
      ensures Valid() && this.budget == budget
    {
      this.budget := budget;
    }

    /** A cached glyph's view of its page: exactly the raster, pixel for pixel. */
    lemma CachedIsRasterised(e: Slot, row: nat, col: nat)
      requires Valid() && e in Entries(table) && e.g.page != NO_PAGE && row < e.g.h && col < e.g.w
      ensures e.g.page < |pages| && Drawable(rasterize, e.key)
      ensures pages[e.g.page].At(e.g.y + row, e.g.x + col) == rasterize(e.key).1.Pixel(row, col)
    {
      assert BackedBy(pages[e.g.page], e, rasterize);
    }

    /** The tests' own check of the table, as code: it holds exactly of a table whose entries a probe can find. */
    method Consistent() returns (ok: bool)
      ensures ok <==> TableOk(table, hash) && AllOnLivePages(table, pages) && count == |UsedSlots(table)|
    {
      var n := |table|;
      var used: nat := 0;
      var i: nat := 0;
      while i < n
        invariant i <= n && used == |UsedSlots(table[..i])|
        invariant forall j :: 0 <= j < i && table[j].Used? ==> SlotConsistent(table, hash, pages, j)
      {
        UsedSlotsPush(table[..i], table[i]);
        assert table[..i + 1] == table[..i] + [table[i]];
        if table[i].Used? {
          used := used + 1;
          var here := ProbeConsistent(i);
          if (table[i].g.page != NO_PAGE && (table[i].g.page >= |pages| || !pages[table[i].g.page].alive)) || !here {
            assert !SlotConsistent(table, hash, pages, i);
            ConsistentMeans(table, hash, pages);
            return false;
          }
        }
        i := i + 1;
      }
      assert table[..n] == table;
      ConsistentMeans(table, hash, pages);
      ok := used == count;
    }

    lemma ValidIsConsistent()
      requires Valid()
      ensures TableOk(table, hash) && AllOnLivePages(table, pages) && count == |UsedSlots(table)|
    {
      EntryCount(table);
      forall i | 0 <= i < |table| && table[i].Used?
        ensures table[i].g.page == NO_PAGE || (table[i].g.page < |pages| && pages[table[i].g.page].alive)
      {
        assert table[i] in Entries(table);
      }
    }

    /** Any run of lookups, ticks and budget changes leaves a cache the tests' check accepts, at most half full. */
    method Run(calls: seq<Call>) returns (ok: bool)
      requires Valid()
      modifies this
      ensures Valid() && ok && 2 * count <= |table|
    {
      for i := 0 to |calls|
        invariant Valid()
      {
        match calls[i]
        case Lookup(k) => var _, _ := Get(k);
        case NextPass => Tick();
        case Budget(n) => SetBudget(n);
      }
      ValidIsConsistent();
      ok := Consistent();
    }

    /** Walks from the entry's home to it: every slot used, none with its key. */
    method ProbeConsistent(i: nat) returns (ok: bool)
      requires i < |table| && table[i].Used?
      ensures ok <==> Probed(table, hash, table[i].key, Steps(Home(hash, table[i].key, |table|), i, |table|))
    {
      var n, home := |table|, Home(hash, table[i].key, |table|);
      var j: nat := home;
      while j != i
        invariant j < n && Steps(home, j, n) <= Steps(home, i, n)
        invariant Probed(table, hash, table[i].key, Steps(home, j, n))
        decreases n - Steps(home, j, n)
      {
        if table[j].Free? || table[j].key == table[i].key { return false; }
        j := Wrap(j + 1, n);
      }
      ok := true;
    }
  }

  /** What the check asks of one used slot. */
  ghost predicate SlotConsistent(t: seq<Slot>, hash: Hash, pages: seq<Page>, i: nat)
    requires i < |t| && t[i].Used?
  {
    && (t[i].g.page == NO_PAGE || (t[i].g.page < |pages| && pages[t[i].g.page].alive))
    && Probed(t, hash, t[i].key, Steps(Home(hash, t[i].key, |t|), i, |t|))
  }

  predicate AllOnLivePages(t: seq<Slot>, pages: seq<Page>)
  {
    forall i :: 0 <= i < |t| && t[i].Used? ==>
      t[i].g.page == NO_PAGE || (t[i].g.page < |pages| && pages[t[i].g.page].alive)
  }

  lemma ConsistentMeans(t: seq<Slot>, hash: Hash, pages: seq<Page>)
    ensures (forall i :: 0 <= i < |t| && t[i].Used? ==> SlotConsistent(t, hash, pages, i)) <==>
              TableOk(t, hash) && AllOnLivePages(t, pages)
  {
    if forall i :: 0 <= i < |t| && t[i].Used? ==> SlotConsistent(t, hash, pages, i) {
      forall i, j | 0 <= i < j < |t| && t[i].Used? && t[j].Used? ensures t[i].key != t[j].key {
        assert SlotConsistent(t, hash, pages, i) && SlotConsistent(t, hash, pages, j);
      }
      forall i | 0 <= i < |t| && t[i].Used? ensures Findable(t, hash, i) {
        assert SlotConsistent(t, hash, pages, i);
      }
    }
    if TableOk(t, hash) {
      forall i | 0 <= i < |t| && t[i].Used?
        ensures Probed(t, hash, t[i].key, Steps(Home(hash, t[i].key, |t|), i, |t|))
      {
        assert Findable(t, hash, i);
      }
    }
  }

  lemma UsedSlotsPush(t: seq<Slot>, e: Slot)
    ensures |UsedSlots(t + [e])| == |UsedSlots(t)| + if e.Used? then 1 else 0
  {
    assert UsedSlots(t + [e]) == UsedSlots(t) + if e.Used? then {|t|} else {};
  }

  lemma StartTable(hash: Hash)
    ensures var t := seq(1024, _ => Free); TableOk(t, hash) && Entries(t) == {} && Entries([]) == {} && PowerOfTwo(|t|)
  {
    assert PowerOfTwo(4) && PowerOfTwo(16) && PowerOfTwo(64) && PowerOfTwo(256);
  }

  lemma SlotIsEntry(t: seq<Slot>, i: nat)
    requires i < |t| && t[i].Used?
    ensures t[i] in Entries(t)
  {
  }

  lemma EntryHasPage(pages: seq<Page>, es: set<Slot>, rasterize: Rasterizer, e: Slot)
    requires EntriesOk(pages, es, rasterize) && e in es
    ensures e.Used? && (e.g.page == NO_PAGE || (e.g.page < |pages| && pages[e.g.page].alive))
  {
  }

  lemma SurvivorsAreOld(es: set<Slot>, evicted: set<int>)
    ensures Survivors(es, evicted) <= es
  {
  }

  /** `now` is `was` with the raster's first `row` rows, and `k` pixels of the next, copied to (x, y). */
  ghost predicate Copied(was: Page, now: Page, x: nat, y: nat, r: Raster, row: int, k: int)
  {
    forall i, j :: 0 <= i < was.h && 0 <= j < was.w ==>
      now.At(i, j) == if x <= j < x + r.w && ((y <= i < y + row) || (i == y + row && j < x + k))
                      then r.Pixel(i - y, j - x) else was.At(i, j)
  }

  lemma SameShelvesKeepOpen(pages: seq<Page>, es: set<Slot>, o: int, color: bool, rasterize: Rasterizer, i: nat, p: Page)
    requires EntriesOk(pages, es, rasterize) && OpenOk(pages, es, o, color) && i < |pages|
    requires p == pages[i].(lastUse := p.lastUse)
    ensures OpenOk(pages[i := p], es, o, color)
  {
  }

  /** Drawing in free room leaves the other entries backed and backs the new one. */
  lemma DrawnEntry(was: seq<Page>, now: seq<Page>, es: set<Slot>, rasterize: Rasterizer, k: Key, g: Glyph)
    requires EntriesOk(was, es, rasterize) && |was| <= MAX_PAGES && Drawable(rasterize, k)
    requires g.page < |was| == |now| && Room(was[g.page], g.color, g.w, g.h, g.x, g.y)
    requires var r := rasterize(k).1;
             g == Glyph(ToInt16(r.left), ToInt16(r.top), r.w, r.h, g.page, g.x, g.y, r.color)
             && Copied(was[g.page], was[g.page].(px := now[g.page].px), g.x, g.y, r, r.h, 0)
    requires now == was[g.page := was[g.page].(px := now[g.page].px, lastUse := now[g.page].lastUse)]
    requires forall e :: e in es && e.g.page == g.page ==> Apart(e.g, At(g.w, g.h, g.page, g.x, g.y))
    ensures EntriesOk(now, es + {Used(k, g)}, rasterize)
  {
    var q := was[g.page].(px := now[g.page].px);
    forall y, x ensures now[g.page].At(y, x) == q.At(y, x) { }
    assert BackedBy(now[g.page], Used(k, g), rasterize);
    forall e | e in es && e.g.page != NO_PAGE ensures BackedBy(now[e.g.page], e, rasterize) {
      assert BackedBy(was[e.g.page], e, rasterize);
    }
  }

  lemma RoomToCopy(pages: seq<Page>, rasterize: Rasterizer, k: Key, page: nat, x: nat, y: nat)
    requires PagesOk(pages) && Drawable(rasterize, k) && page < |pages|
    requires var r := rasterize(k).1; Room(pages[page], r.color, r.w, r.h, x, y)
    ensures var r := rasterize(k).1;
            && |pages| <= MAX_PAGES && pages[page].Sized() && pages[page].alive
            && 0 < r.w && 0 < r.h && x + r.w <= pages[page].w && y + r.h <= pages[page].h
  {
  }

  /** New pixels and a new time of use keep the pages as they were otherwise. */
  lemma PageTouched(was: seq<Page>, now: seq<Page>, page: nat)
    requires PagesOk(was) && page < |was| == |now| && was[page].alive && now[page].Sized()
    requires now == was[page := was[page].(px := now[page].px, lastUse := now[page].lastUse)]
    ensures PagesOk(now) && TotalBytes(now) == TotalBytes(was)
  {
    TotalBytesUpdate(was, page, now[page]);
  }

  lemma DrawnKeepsOpen(was: seq<Page>, now: seq<Page>, es: set<Slot>, o: int, color: bool, rasterize: Rasterizer, k: Key, g: Glyph)
    requires EntriesOk(was, es, rasterize) && OpenOk(was, es, o, color) && g.page < |was|
    requires |now| == |was| && now == was[g.page := was[g.page].(px := now[g.page].px, lastUse := now[g.page].lastUse)]
    requires o == g.page ==> OnShelves(was[g.page], At(g.w, g.h, g.page, g.x, g.y))
    ensures OpenOk(now, es + {Used(k, g)}, o, color)
  {
  }

  lemma UndrawnEntry(pages: seq<Page>, es: set<Slot>, a8: int, color: int, rasterize: Rasterizer, k: Key)
    requires EntriesOk(pages, es, rasterize) && |pages| <= MAX_PAGES
    requires OpenOk(pages, es, a8, false) && OpenOk(pages, es, color, true)
    ensures var all := es + {Used(k, NothingToDraw(rasterize, k))};
            EntriesOk(pages, all, rasterize) && OpenOk(pages, all, a8, false) && OpenOk(pages, all, color, true)
  {
  }

  /** The rectangle of a bitmap placed on a page. */
  function At(w: nat, h: nat, page: nat, x: nat, y: nat): Glyph { Glyph(0, 0, w, h, page, x, y, false) }

  predicate Room(p: Page, color: bool, w: nat, h: nat, x: nat, y: nat)
  {
    p.alive && p.color == color && x + w <= p.w && y + h <= p.h
  }

  lemma SurvivorsOfNone(pages: seq<Page>, es: set<Slot>, rasterize: Rasterizer)
    requires EntriesOk(pages, es, rasterize)
    ensures Survivors(es, {}) == es
  {
  }

  lemma NothingOpen(pages: seq<Page>, es: set<Slot>, color: bool, rasterize: Rasterizer)
    requires EntriesOk(pages, es, rasterize)
    ensures OpenOk(pages, es, -1, color)
  {
  }

  lemma OpenIsThere(pages: seq<Page>, es: set<Slot>, o: int, color: bool, rasterize: Rasterizer)
    requires EntriesOk(pages, es, rasterize) && OpenOk(pages, es, o, color) && o != -1
    ensures 0 <= o < |pages| && pages[o].alive && pages[o].color == color && pages[o].w == pages[o].h == PAGE_SIZE
  {
  }

  lemma NewPageOpens(pages: seq<Page>, es: set<Slot>, idx: int, color: bool, rasterize: Rasterizer)
    requires EntriesOk(pages, es, rasterize) && 0 <= idx < |pages| && pages[idx] == EmptyPage(color, PAGE_SIZE, PAGE_SIZE)
    requires forall e :: e in es ==> e.g.page != idx
    ensures OpenOk(pages, es, idx, color)
  {
  }

  lemma OpenElsewhere(pages: seq<Page>, es: set<Slot>, o: int, color: bool, rasterize: Rasterizer, i: nat, p: Page)
    requires EntriesOk(pages, es, rasterize) && OpenOk(pages, es, o, color) && i < |pages|
    requires i != o || pages[i].color != color
    ensures OpenOk(pages[i := p], es, o, color)
  {
  }

  /** One shelf-packing step: the place is clear of every entry of the page, and on the shelves after it. */
  lemma ShelfStep(pages: seq<Page>, es: set<Slot>, o: nat, color: bool, rasterize: Rasterizer,
                  w: nat, h: nat, x: nat, y: nat, q: Page)
    requires EntriesOk(pages, es, rasterize) && OpenOk(pages, es, o, color)
    requires var p := pages[o];
             var p' := if p.cursorX + w > p.w then p.(shelfY := p.shelfY + p.shelfH, cursorX := 0, shelfH := 0) else p;
             x == p'.cursorX && y == p'.shelfY
             && q == p'.(cursorX := p'.cursorX + w, shelfH := if h > p'.shelfH then h else p'.shelfH)
    ensures OpenOk(pages[o := q], es, o, color)
    ensures OnShelves(q, At(w, h, o, x, y))
    ensures forall e :: e in es && e.g.page == o ==> Apart(e.g, At(w, h, o, x, y))
  {
  }

  /** Packing fields are not pixels: changing them backs every entry as before. */
  lemma PageFieldsKeepEntries(pages: seq<Page>, es: set<Slot>, rasterize: Rasterizer, i: nat, p: Page)
    requires EntriesOk(pages, es, rasterize) && i < |pages| <= MAX_PAGES
    requires p.px == pages[i].px && p.w == pages[i].w && p.h == pages[i].h && p.color == pages[i].color && p.alive == pages[i].alive
    ensures EntriesOk(pages[i := p], es, rasterize)
  {
    forall e | e in es && e.g.page == i ensures BackedBy(p, e, rasterize) {
      assert BackedBy(pages[i], e, rasterize);
      forall y, x ensures p.At(y, x) == pages[i].At(y, x) { }
    }
  }

  /** An entry whose page is not live any more. */
  predicate OnDeadPage(pages: seq<Page>, e: Slot)
  {
    e.Used? && e.g.page != NO_PAGE && (e.g.page < |pages| ==> !pages[e.g.page].alive)
  }

  lemma PurgeIsSurvival(pages: seq<Page>, es: set<Slot>, evicted: set<int>)
    requires forall e :: e in es ==> e.Used? && (OnDeadPage(pages, e) <==> e.g.page in evicted)
    ensures (set e | e in es && !OnDeadPage(pages, e)) == Survivors(es, evicted)
  {
  }

  function EmptyPage(color: bool, w: nat, h: nat): Page
  {
    BLANK.(px := seq(w * h, _ => 0), w := w, h := h, color := color, alive := true)
  }

  lemma PagesFew(pages: seq<Page>)
    requires PagesOk(pages)
    ensures |pages| <= MAX_PAGES
  {
  }

  /** A dead or a new page becomes `p`. */
  lemma PageMade(was: seq<Page>, grown: seq<Page>, idx: nat, p: Page)
    requires PagesOk(was) && p.Sized() && p.alive
    requires (grown == was && idx < |was| && !was[idx].alive) || (grown == was + [BLANK] && |was| < MAX_PAGES && idx == |was|)
    ensures idx < |grown| && PagesOk(grown[idx := p]) && Allocated(was, grown[idx := p], idx)
    ensures TotalBytes(grown[idx := p]) == TotalBytes(was) + p.Bytes()
  {
    assert idx == |was| ==> grown[..|was|] == was;
    TotalBytesUpdate(grown, idx, p);
  }

  lemma AllocatedInFull(color: bool, w: nat, h: nat)
    ensures EmptyPage(color, w, h).Sized() && EmptyPage(color, w, h).alive
  {
  }

  /** Page `idx` was dead or is new; the others are as they were. */
  predicate Allocated(was: seq<Page>, now: seq<Page>, idx: int)
  {
    && 0 <= idx <= |was| && |now| == (if idx == |was| then |was| + 1 else |was|)
    && (idx < |was| ==> !was[idx].alive)
    && forall i :: 0 <= i < |was| && i != idx ==> now[i] == was[i]
  }

  /** `now` is `was` with the pages `evicted` blanked, least recently used first; `idx` is kept. */
  ghost predicate Blanked(was: seq<Page>, now: seq<Page>, idx: int, evicted: set<int>)
  {
    && |now| == |was| && idx !in evicted && evicted <= LivePages(was)
    && (forall i :: 0 <= i < |was| ==> now[i] == if i in evicted then BLANK else was[i])
    && (forall v, i :: v in evicted && 0 <= i < |was| && now[i].alive && i != idx ==> was[v].lastUse <= was[i].lastUse)
  }

  lemma PageBlanked(pages: seq<Page>, v: int)
    requires PagesOk(pages) && 0 <= v < |pages| && pages[v].alive
    ensures PagesOk(pages[v := BLANK]) && TotalBytes(pages[v := BLANK]) == TotalBytes(pages) - pages[v].Bytes()
  {
    TotalBytesUpdate(pages, v, BLANK);
  }

  lemma NoneBlanked(pages: seq<Page>, idx: int)
    ensures Blanked(pages, pages, idx, {})
  {
  }

  /** One page more is evicted: a least recently used one of those that were left. */
  lemma BlankedMore(was: seq<Page>, mid: seq<Page>, now: seq<Page>, idx: int, evicted: set<int>, victim: int)
    requires Blanked(was, mid, idx, evicted) && victim in LivePages(mid) && victim != idx
    requires forall i :: i in LivePages(mid) && i != idx ==> mid[victim].lastUse <= mid[i].lastUse
    requires now == mid[victim := BLANK]
    ensures Blanked(was, now, idx, evicted + {victim}) && LivePages(now) < LivePages(mid)
    ensures 0 <= victim < |was| && mid[victim] == was[victim]
  {
    assert victim !in evicted && was[victim] == mid[victim];
    forall v, i | v in evicted + {victim} && 0 <= i < |was| && now[i].alive && i != idx ensures was[v].lastUse <= was[i].lastUse {
      assert now[i] == mid[i] && i in LivePages(mid);
    }
    assert LivePages(now) == LivePages(mid) - {victim};
  }

  lemma KeptIsLive(was: seq<Page>, now: seq<Page>, idx: int, evicted: set<int>)
    requires Blanked(was, now, idx, evicted) && 0 <= idx < |was| && was[idx].alive
    ensures idx in LivePages(now)
    ensures |now| == 1 ==> LivePages(now) == {idx}
  {
  }

  function Survivors(es: set<Slot>, evicted: set<int>): set<Slot>
  {
    set e | e in es && e.Used? && e.g.page !in evicted
  }

  /**
   * Eviction is by whole pages: the entries of the evicted ones go, all others
   * stay, every other page is untouched, and no page left was used longer ago.
   */
  ghost predicate Evicts(was: seq<Page>, now: seq<Page>, es: set<Slot>, left: set<Slot>, idx: int, evicted: set<int>)
    requires forall e :: e in es ==> e.Used?
  {
    && |was| <= |now| && evicted <= LivePages(was) && idx !in evicted
    && left == Survivors(es, evicted)
    && (forall i :: 0 <= i < |was| && i != idx ==> now[i] == if i in evicted then BLANK else was[i])
    && (forall v, i :: v in evicted && 0 <= i < |was| && now[i].alive && i != idx ==> was[v].lastUse <= was[i].lastUse)
  }

  /**
   * Nothing is evicted that the budget does not ask for: the pages evicted were
   * used no later than any other that was live, putting some one of them back
   * would be over the budget, and there are none when everything fits.
   */
  ghost predicate AsNeeded(was: seq<Page>, before: nat, made: nat, now: nat, budget: nat, evicted: set<int>)
  {
    && evicted <= LivePages(was)
    && (forall v, i :: v in evicted && i in LivePages(was) && i !in evicted ==> was[v].lastUse <= was[i].lastUse)
    && (evicted != {} ==> exists v :: v in evicted && 0 <= v < |was| && now + was[v].Bytes() > budget)
    && (before + made <= budget ==> evicted == {})
    && (evicted == {} ==> now == before + made)
  }

  lemma NoneNeeded(pages: seq<Page>, bytes: nat, budget: nat)
    ensures AsNeeded(pages, bytes, 0, bytes, budget, {})
  {
  }

  /** The same pages but for their shelves, pixels and marks. */
  predicate SameMeasures(a: seq<Page>, b: seq<Page>)
  {
    |a| == |b| && forall i :: 0 <= i < |a| ==> a[i].Bytes() == b[i].Bytes() && a[i].alive == b[i].alive && a[i].lastUse == b[i].lastUse
  }

  lemma NeededFor(was: seq<Page>, mid: seq<Page>, before: nat, made: nat, now: nat, budget: nat, evicted: set<int>)
    requires SameMeasures(was, mid) && AsNeeded(mid, before, made, now, budget, evicted)
    ensures AsNeeded(was, before, made, now, budget, evicted)
  {
  }

  lemma NewPageNeeded(was: seq<Page>, made: seq<Page>, now: seq<Page>, idx: int, before: nat, more: nat, bytes: nat, budget: nat,
                      evicted: set<int>)
    requires Allocated(was, made, idx) && idx < |made| && Blanked(made, now, idx, evicted)
    requires evicted != {} ==> exists v :: v in evicted && 0 <= v < |made| && bytes + made[v].Bytes() > budget
    requires (before + more <= budget ==> evicted == {}) && (evicted == {} ==> bytes == before + more)
    ensures AsNeeded(was, before, more, bytes, budget, evicted)
  {
    forall v | v in evicted ensures v in LivePages(was) && was[v] == made[v] { assert v in LivePages(made); }
    forall v, i | v in evicted && i in LivePages(was) && i !in evicted ensures was[v].lastUse <= was[i].lastUse {
      assert now[i] == made[i] == was[i];
    }
    if evicted != {} {
      var v :| v in evicted && 0 <= v < |made| && bytes + made[v].Bytes() > budget;
      assert v in evicted && bytes + was[v].Bytes() > budget;
    }
  }

  /** Where the next bitmap of width `w` would go: on the current shelf, or on a new one below it. */
  function ShelfPlace(p: Page, w: nat): (nat, nat)
  {
    if p.cursorX + w <= p.w then (p.cursorX, p.shelfY) else (0, p.shelfY + p.shelfH)
  }

  predicate Fits(p: Page, w: nat, h: nat) { ShelfPlace(p, w).1 + h <= p.h }

  /** A bitmap of standard size or less with a place on the open page. */
  predicate HasRoom(pages: seq<Page>, open: int, w: nat, h: nat)
  {
    w <= PAGE_SIZE && h <= PAGE_SIZE && 0 <= open < |pages| && Fits(pages[open], w, h)
  }

  /** The bytes of the page that has to be opened. */
  function MadeFor(ok: bool, pages: seq<Page>, open: int, color: bool, w: nat, h: nat): nat
  {
    if !ok || HasRoom(pages, open, w, h) then 0
    else if w > PAGE_SIZE || h > PAGE_SIZE then EmptyPage(color, w, h).Bytes()
    else EmptyPage(color, PAGE_SIZE, PAGE_SIZE).Bytes()
  }

  function Made(g: Glyph, r: Raster, pages: seq<Page>, openA8: int, openColor: int): nat
  {
    if g.page == NO_PAGE then 0
    else MadeFor(true, pages, if r.color then openColor else openA8, r.color, if r.w < 0 then 0 else r.w, if r.h < 0 then 0 else r.h)
  }

  /** A page takes a byte a pixel, or four when it is of colour; all are zero at first. */
  lemma PageBytes(color: bool, w: nat, h: nat)
    ensures EmptyPage(color, w, h).Bytes() == w * h * if color then 4 else 1
    ensures forall y, x :: 0 <= y < h && 0 <= x < w ==> EmptyPage(color, w, h).At(y, x) == 0
  {
  }

  lemma NothingEvicted(pages: seq<Page>, es: set<Slot>, idx: int, rasterize: Rasterizer)
    requires EntriesOk(pages, es, rasterize) && idx < 0
    ensures Evicts(pages, pages, es, es, idx, {})
    ensures forall e :: e in es ==> e.g.page != idx
  {
  }

  /** After making page `idx` live and blanking `evicted`, an entry's page is dead exactly if it was evicted. */
  lemma DeadIffEvicted(was: seq<Page>, made: seq<Page>, now: seq<Page>, es: set<Slot>, idx: int, evicted: set<int>,
                       rasterize: Rasterizer)
    requires EntriesOk(was, es, rasterize) && |made| <= MAX_PAGES && 0 <= idx < |made| && Allocated(was, made, idx)
    requires Blanked(made, now, idx, evicted)
    ensures forall e :: e in es ==> e.g.page == NO_PAGE || e.g.page < |now|
    ensures forall e :: e in es ==> e.Used? && (OnDeadPage(now, e) <==> e.g.page in evicted)
    ensures evicted == {} ==> Survivors(es, evicted) == es
    ensures Evicts(was, now, es, Survivors(es, evicted), idx, evicted)
  {
    forall e | e in es
      ensures e.g.page == NO_PAGE || e.g.page < |now|
      ensures OnDeadPage(now, e) <==> e.g.page in evicted
    {
      if e.g.page in evicted {
        assert e.g.page in LivePages(made);
      } else if e.g.page != NO_PAGE {
        assert was[e.g.page].alive && now[e.g.page] == was[e.g.page];
      }
    }
    forall v | v in evicted ensures v in LivePages(was) {
      assert v in LivePages(made) && made[v] == was[v];
    }
  }

  lemma KeptEntriesOk(was: seq<Page>, now: seq<Page>, es: set<Slot>, left: set<Slot>, idx: int, evicted: set<int>,
                      rasterize: Rasterizer)
    requires EntriesOk(was, es, rasterize) && Evicts(was, now, es, left, idx, evicted)
    requires 0 <= idx < |was| ==> !was[idx].alive
    requires idx < MAX_PAGES
    ensures EntriesOk(now, left, rasterize)
    ensures forall e :: e in left ==> e.g.page != idx
  {
    forall e | e in left && e.g.page != NO_PAGE
      ensures e.g.page != idx && now[e.g.page] == was[e.g.page]
    {
      assert BackedBy(was[e.g.page], e, rasterize);
    }
  }

  lemma KeptOpenOk(was: seq<Page>, now: seq<Page>, es: set<Slot>, left: set<Slot>, idx: int, evicted: set<int>,
                   o: int, color: bool)
    requires (forall e :: e in es ==> e.Used?) && OpenOk(was, es, o, color)
    requires Evicts(was, now, es, left, idx, evicted)
    requires 0 <= idx < |was| ==> !was[idx].alive
    ensures OpenOk(now, left, if o in evicted then -1 else o, color)
    ensures o == -1 || (o < |was| && o != idx)
  {
  }

  lemma NoneTaken(t: seq<Slot>)
    ensures Entries(t[..0]) == {}
  {
  }

  /** The key of slot `k` is none of those before it. */
  lemma NewKey(t: seq<Slot>, hash: Hash, k: nat)
    requires TableOk(t, hash) && k < |t| && t[k].Used?
    ensures forall x :: x in Entries(t[..k]) ==> x.Used? && x.key != t[k].key
  {
    forall x | x in Entries(t[..k]) ensures x.Used? && x.key != t[k].key {
      var j :| 0 <= j < k && t[..k][j].Used? && t[..k][j] == x;
      assert t[j].key != t[k].key;
    }
  }

  lemma EntriesPush(t: seq<Slot>, e: Slot)
    ensures Entries(t + [e]) == Entries(t) + if e.Used? then {e} else {}
  {
    var u := t + [e];
    forall x | x in Entries(t) ensures x in Entries(u) {
      var i :| 0 <= i < |t| && t[i].Used? && t[i] == x;
      assert u[i] == x;
    }
    if e.Used? { assert u[|t|] == e; }
  }
}
