/**
 * ngx_slab_init: the layout of a fresh pool.  Behind the pool header come
 * the nine slot list heads, then one descriptor per page, then (aligned to a
 * page) the pages themselves.  The page count is first estimated from the
 * bytes available and then trimmed to what fits between the aligned start
 * and the end of the pool.  The whole page area becomes one free run.
 */
module SlabInit {
  import opened SlabTypes
  import opened SlabState

  /** Bytes taken by the slot list heads. */
  const SlotsBytes: nat := SlotCount * DescSize

  /** The first estimate: size * 4096 / (4096 + 12) / 4096, computed in 64 bits. */
  function RawPages(size: nat): nat
  {
    size * PageSize / (PageSize + DescSize) / PageSize
  }

  /** ngx_align(x, 4096). */
  function AlignPage(x: nat): nat
  {
    (x + PageSize - 1) / PageSize * PageSize
  }

  /** C division of a signed value: the quotient is truncated toward zero. */
  function TruncDiv(a: int, b: nat): int
    requires b > 0
  {
    if a >= 0 then a / b else -((-a) / b)
  }

  /** pool->start: past the descriptors of the estimated page count, aligned to a page. */
  function InitStart(slotsAddr: nat, end: nat): nat
    requires slotsAddr <= end
  {
    AlignPage(slotsAddr + SlotsBytes + RawPages(end - slotsAddr) * DescSize)
  }

  /** The page count after the trim `m = pages - (end - start) / pagesize; if (m > 0) pages -= m`. */
  function InitPages(slotsAddr: nat, end: nat): int
    requires slotsAddr <= end
  {
    var pages := RawPages(end - slotsAddr);
    var m := pages - TruncDiv(end - InitStart(slotsAddr, end), PageSize);
    if m > 0 then pages - m else pages
  }

  /**
   * The pool ngx_slab_init leaves behind, for a pool header that ends at
   * slotsAddr and a pool that ends at end: every slot list empty, every
   * descriptor zero except the first, whose slab is the page count, and the
   * free list holding page 0 alone.
   */
  function InitSpec(slotsAddr: nat, end: nat): PoolState
    requires slotsAddr + SlotsBytes <= end < Word32 - PageSize
    requires InitPages(slotsAddr, end) >= 1
  {
    var n: nat := InitPages(slotsAddr, end);
    PoolState(
      InitStart(slotsAddr, end), end,
      [n] + seq(n - 1, _ => PAGE_FREE),
      seq(n, _ => PageRole),
      seq(n * WordsPerPage, _ => 0),
      [0],
      seq(SlotCount, _ => []))
  }

  lemma AlignPageBounds(x: nat)
    ensures x <= AlignPage(x) < x + PageSize
    ensures AlignPage(x) % PageSize == 0
  {
    var q := (x + PageSize - 1) / PageSize;
    assert q * PageSize <= x + PageSize - 1 < q * PageSize + PageSize;
  }

  /** The estimate leaves room for a descriptor next to each page: 4108 * pages <= size. */
  lemma RawPagesRoom(size: nat)
    ensures RawPages(size) * (PageSize + DescSize) <= size
  {
    var a := size * PageSize;
    var b := a / (PageSize + DescSize);
    var pages := b / PageSize;
    assert pages * PageSize <= b;
    assert b * (PageSize + DescSize) <= a;
    MulMonotone(pages * PageSize, b, PageSize + DescSize);
    assert pages * PageSize * (PageSize + DescSize) == PageSize * (pages * (PageSize + DescSize));
    assert PageSize * (pages * (PageSize + DescSize)) <= PageSize * size;
  }

  /**
   * The layout fits: the page area starts on a page boundary past the slot
   * heads and the descriptors of every page kept, and ends before the pool.
   */
  lemma {:induction false} InitLayout(slotsAddr: nat, end: nat)
    requires slotsAddr + SlotsBytes <= end < Word32 - PageSize
    requires InitPages(slotsAddr, end) >= 1
    ensures InitStart(slotsAddr, end) % PageSize == 0
    ensures slotsAddr + SlotsBytes + InitPages(slotsAddr, end) * DescSize <= InitStart(slotsAddr, end)
    ensures InitStart(slotsAddr, end) + InitPages(slotsAddr, end) * PageSize <= end
    ensures InitPages(slotsAddr, end) <= RawPages(end - slotsAddr)
  {
    var pages := RawPages(end - slotsAddr);
    var start := InitStart(slotsAddr, end);
    AlignPageBounds(slotsAddr + SlotsBytes + pages * DescSize);
    var room: int := end - start;
    var q := TruncDiv(room, PageSize);
    var n := InitPages(slotsAddr, end);
    assert room < 0 ==> q <= 0;
    if pages - q > 0 {
      assert n == q && room >= 0;
      assert q * PageSize <= room;
    } else {
      assert n == pages && q >= pages && room >= 0;
      MulMonotone(pages, q, PageSize);
      assert q * PageSize <= room;
    }
    MulMonotone(n, pages, DescSize);
  }

  /** A pool of at least four pages past the pool header keeps at least one page. */
  lemma {:induction false} InitRoom(slotsAddr: nat, end: nat)
    requires slotsAddr + 4 * PageSize <= end < Word32 - PageSize
    ensures InitPages(slotsAddr, end) >= 1
  {
    var size := end - slotsAddr;
    var pages := RawPages(size);
    RawPagesRoom(size);
    assert size * PageSize / (PageSize + DescSize) >= 3 * PageSize by {
      MulMonotone(4 * PageSize, size, PageSize);
    }
    assert pages >= 3;
    var start := InitStart(slotsAddr, end);
    AlignPageBounds(slotsAddr + SlotsBytes + pages * DescSize);
    var room: int := end - start;
    assert room >= pages * PageSize - SlotsBytes - PageSize;
    assert room >= 2 * PageSize;
    assert TruncDiv(room, PageSize) >= pages - 2;
  }

  /** A fresh pool is well formed, is one free run of all its pages and holds no live block. */
  lemma InitValid(slotsAddr: nat, end: nat)
    requires slotsAddr + SlotsBytes <= end < Word32 - PageSize
    requires InitPages(slotsAddr, end) >= 1
    ensures Valid(InitSpec(slotsAddr, end))
    ensures NPages(InitSpec(slotsAddr, end)) == InitPages(slotsAddr, end)
    ensures FreePageCount(InitSpec(slotsAddr, end).slab, InitSpec(slotsAddr, end).free) == NPages(InitSpec(slotsAddr, end))
    ensures forall p :: !Live(InitSpec(slotsAddr, end), p)
    ensures forall k :: 0 <= k < SlotCount ==> InitSpec(slotsAddr, end).slots[k] == []
  {
    var s := InitSpec(slotsAddr, end);
    var n := NPages(s);
    InitLayout(slotsAddr, end);
    assert n * PageSize < Word32;
    assert Shape(s);
    assert n < PAGE_START;
    assert FreeRun(s, 0, n);
    assert PageOK(s, 0);
    assert forall i :: 0 < i < n ==> s.slab[i] == PAGE_FREE && s.role[i] == PageRole;
    assert AllPagesOK(s);
    assert forall i :: 0 <= i < n && IsFreeHead(s, i) ==> i == 0;
    assert FreeListOK(s);
    assert s.free[1..] == [];
    forall p | InPages(s, p)
      ensures !Live(s, p)
    {
      var i := PageOf(s, p);
      assert s.role[i] == PageRole;
      assert !IsUsedHead(s, i);
    }
  }
}
