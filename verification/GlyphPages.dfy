/**
 * The pages the glyph cache packs bitmaps into (src/text/glyph_cache.cpp):
 * pixel storage, byte accounting, and what it means for an entry to be backed
 * by a page that really holds its raster.
 */
module GlyphPages {
  import opened GlyphTable

  const PAGE_SIZE := 256
  /** A glyph's page when there is nothing to draw. */
  const NO_PAGE := 0xFFFF
  const MAX_PAGES := 0xFFFE

  /** What the font code hands back: raw samples and the gamma masks go through. */
  datatype Raster = Raster(w: int, h: int, left: int, top: int, color: bool, sample: (int, int) -> int, gamma: int -> int)
  {
    function Pixel(row: int, col: int): int { if color then sample(row, col) else gamma(sample(row, col)) }
  }

  /** Rasterising a key: whether it worked, and the raster (of which `left` is read even when it failed). */
  type Rasterizer = Key -> (bool, Raster)

  predicate Drawable(rasterize: Rasterizer, k: Key)
  {
    var (ok, r) := rasterize(k);
    ok && 0 < r.w < 4096 && 0 < r.h < 4096
  }

  /** `int16_t(v)` */
  function ToInt16(v: int): int { (v + 0x8000) % 0x10000 - 0x8000 }

  lemma Int16Is(v: int)
    ensures -0x8000 <= ToInt16(v) < 0x8000 && exists k :: v - ToInt16(v) == k * 0x10000
  {
    var k := (v + 0x8000) / 0x10000;
    assert v - ToInt16(v) == k * 0x10000;
  }

  datatype Page = Page(px: seq<int>, w: nat, h: nat, shelfY: nat, shelfH: nat, cursorX: nat,
                       lastUse: nat, color: bool, alive: bool, full: bool)
  {
    function Bytes(): nat { if color then 4 * |px| else |px| }

    predicate Sized() { |px| == w * h }

    /** The pixel in row `y`, column `x`. */
    function At(y: int, x: int): int { if 0 <= y * w + x < |px| then px[y * w + x] else 0 }
  }

  const BLANK := Page([], 0, 0, 0, 0, 0, 0, false, false, false)

  lemma RowMajor(w: nat, h: nat, y: nat, x: nat)
    requires x < w && y < h
    ensures 0 <= y * w + x < w * h
  {
    assert (y + 1) * w <= h * w;
  }

  lemma RowMajorIsUnique(w: nat, y: nat, x: nat, y': nat, x': nat)
    requires x < w && x' < w && y * w + x == y' * w + x'
    ensures y == y' && x == x'
  {
    assert y < y' ==> (y + 1) * w <= y' * w;
    assert y' < y ==> (y' + 1) * w <= y * w;
  }

  lemma SetPixel(p: Page, y: nat, x: nat, v: int)
    requires p.Sized() && x < p.w && y < p.h
    ensures 0 <= y * p.w + x < |p.px|
    ensures var q := p.(px := p.px[y * p.w + x := v]);
            q.Sized() && forall y': int, x': int :: 0 <= y' < p.h && 0 <= x' < p.w ==>
              q.At(y', x') == if y' == y && x' == x then v else p.At(y', x')
  {
    RowMajor(p.w, p.h, y, x);
    var q := p.(px := p.px[y * p.w + x := v]);
    forall y': int, x': int | 0 <= y' < p.h && 0 <= x' < p.w
      ensures q.At(y', x') == if y' == y && x' == x then v else p.At(y', x')
    {
      RowMajor(p.w, p.h, y', x');
      if y' * p.w + x' == y * p.w + x { RowMajorIsUnique(p.w, y, x, y', x'); }
    }
  }

  // ---- Entries on pages ----

  /** The page's rectangle holds exactly the raster of the entry's key. */
  predicate BackedBy(p: Page, e: Slot, rasterize: Rasterizer)
    requires e.Used?
  {
    var g, (ok, r) := e.g, rasterize(e.key);
    && p.alive
    && Drawable(rasterize, e.key)
    && g.color == p.color == r.color
    && g.w == r.w && g.h == r.h && g.left == ToInt16(r.left) && g.top == ToInt16(r.top)
    && g.x + g.w <= p.w && g.y + g.h <= p.h
    && forall y, x :: g.y <= y < g.y + g.h && g.x <= x < g.x + g.w ==> p.At(y, x) == r.Pixel(y - g.y, x - g.x)
  }

  predicate Apart(a: Glyph, b: Glyph)
  {
    a.x + a.w <= b.x || b.x + b.w <= a.x || a.y + a.h <= b.y || b.y + b.h <= a.y
  }

  function NothingToDraw(rasterize: Rasterizer, k: Key): Glyph
  {
    Glyph(ToInt16(rasterize(k).1.left), 0, 0, 0, NO_PAGE, 0, 0, false)
  }

  /** Every entry either draws nothing or is backed by its live page, and bitmaps of one page never overlap. */
  ghost predicate EntriesOk(pages: seq<Page>, es: set<Slot>, rasterize: Rasterizer)
  {
    && (forall e :: e in es ==> e.Used?)
    && (forall e :: e in es ==>
          if e.g.page == NO_PAGE then e.g == NothingToDraw(rasterize, e.key)
          else e.g.page < |pages| && BackedBy(pages[e.g.page], e, rasterize))
    && (forall d, e :: d in es && e in es && d != e && d.g.page == e.g.page && d.g.page < |pages| ==> Apart(d.g, e.g))
  }

  /** Shelf packing: what is on the page lies above the current shelf or on it left of the cursor. */
  predicate OnShelves(p: Page, g: Glyph)
  {
    g.y + g.h <= p.shelfY || (g.y == p.shelfY && g.x + g.w <= p.cursorX && g.h <= p.shelfH)
  }

  /** `o` is -1 or a live page of standard size that bitmaps are being packed into. */
  ghost predicate OpenOk(pages: seq<Page>, es: set<Slot>, o: int, color: bool)
    requires forall e :: e in es ==> e.Used?
  {
    o == -1 ||
    (&& 0 <= o < |pages| && pages[o].alive && pages[o].color == color
     && pages[o].w == pages[o].h == PAGE_SIZE
     && forall e :: e in es && e.g.page == o ==> OnShelves(pages[o], e.g))
  }

  // ---- Byte accounting ----

  function TotalBytes(pages: seq<Page>): nat
  {
    if pages == [] then 0 else TotalBytes(pages[..|pages| - 1]) + pages[|pages| - 1].Bytes()
  }

  lemma {:induction false} TotalBytesUpdate(pages: seq<Page>, i: nat, p: Page)
    requires i < |pages|
    ensures TotalBytes(pages[i := p]) == TotalBytes(pages) - pages[i].Bytes() + p.Bytes()
  {
    var last := |pages| - 1;
    if i < last {
      TotalBytesUpdate(pages[..last], i, p);
      assert pages[i := p][..last] == pages[..last][i := p];
    } else {
      assert pages[i := p][..last] == pages[..last];
    }
  }

  lemma {:induction false} TotalBytesSame(a: seq<Page>, b: seq<Page>)
    requires |a| == |b| && forall i :: 0 <= i < |a| ==> a[i].Bytes() == b[i].Bytes()
    ensures TotalBytes(a) == TotalBytes(b)
  {
    if a == [] {
    } else {
      TotalBytesSame(a[..|a| - 1], b[..|b| - 1]);
    }
  }

  /** Dead pages are blank, so the total is that of the live ones; live ones are allocated in full. */
  predicate PagesOk(pages: seq<Page>)
  {
    && |pages| <= MAX_PAGES
    && forall i :: 0 <= i < |pages| ==> pages[i].Sized() && (!pages[i].alive ==> pages[i] == BLANK)
  }

  function LivePages(pages: seq<Page>): set<int> { set i | 0 <= i < |pages| && pages[i].alive }
}
