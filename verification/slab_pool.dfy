/**
 * The slab pool as the C code keeps it: a header, an array of page
 * descriptors and the page area, updated in place.  Each method follows the
 * loops of the corresponding C function and is proved to leave the pool in
 * the state the functions of SlabOps describe; the properties of those
 * functions are proved in SlabPageProofs, SlabAllocProofs and SlabFreeProofs.
 */
module SlabPool {
  import opened SlabTypes
  import opened SlabState
  import opened SlabOps
  import opened SlabInit
  import SlabPageProofs
  import SlabAllocProofs
  import SlabFreeProofs

  /**
   * The stub at the top of ngx_slab_init: exact_shift counts how often
   * exact_size can be halved before it reaches zero.
   */
  method ExactShiftLoop() returns (shift: nat)
    ensures Pow2(shift) == ExactSize
  {
    shift := 0;
    var n: nat := ExactSize;
    while n / 2 != 0
      invariant shift <= ExactShift && n == Pow2(ExactShift - shift)
      decreases n
    {
      n := n / 2;
      shift := shift + 1;
    }
  }

  /** The shift loop of ngx_slab_alloc: one more than the number of halvings of size - 1. */
  method SizeShiftLoop(size: nat) returns (shift: nat)
    requires size > MinSize
    ensures shift == ShiftFor(size)
    ensures size < MaxSize ==> IsChunkShift(shift) && Pow2(shift - 1) < size <= Pow2(shift)
  {
    shift := 1;
    var s: nat := size - 1;
    while s / 2 != 0
      invariant s >= 1 && shift + BitLength(s) == BitLength(size - 1) + 1
      decreases s
    {
      s := s / 2;
      shift := shift + 1;
    }
    if size < MaxSize {
      ShiftForBounds(size);
    }
  }

  /** The address of chunk c, of 2^shift bytes, on page i of a pool whose pages start at start. */
  function ChunkAt(start: nat, i: nat, c: nat, shift: nat): nat
  {
    MulMonotone(0, c, ChunkSize(shift));
    start + i * PageSize + c * ChunkSize(shift)
  }

  /** The bit loop of ngx_slab_alloc: the lowest clear bit of w below to, or to when there is none. */
  method LowestClearBit(w: nat, to: nat) returns (b: nat)
    ensures b == LowestClear(w, 0, to)
  {
    b := 0;
    while b < to && Bit(w, b)
      invariant b <= to
      invariant LowestClear(w, b, to) == LowestClear(w, 0, to)
    {
      b := b + 1;
    }
  }

  class Pool {
    /** pool->start and pool->end. */
    const start: nat
    const end: nat
    /** The slab word of each page descriptor. */
    const slab: array<nat>
    /** The page type kept in the low bits of each descriptor's prev word. */
    const role: array<Role>
    /** The page area, one 32-bit word per entry. */
    const words: array<nat>
    /** The pages on each slot list, first to last. */
    const slots: array<seq<nat>>
    /** The runs on the free-page list, first to last. */
    var free: seq<nat>

    ghost function State(): PoolState
      reads this, slab, role, words, slots
    {
      PoolState(start, end, slab[..], role[..], words[..], free, slots[..])
    }

    ghost predicate Valid()
      reads this, slab, role, words, slots
    {
      slab != words && SlabState.Valid(State())
    }

    /**
     * ngx_slab_init, for a pool whose header ends at slotsAddr: the slot
     * heads are emptied, the page count estimated and trimmed, and all pages
     * form one free run.
     */
    constructor Init(slotsAddr: nat, end: nat)
      requires slotsAddr + SlotsBytes <= end < Word32 - PageSize
      requires InitPages(slotsAddr, end) >= 1
      ensures State() == InitSpec(slotsAddr, end)
      ensures Valid()
    {
      var heads := new seq<nat>[SlotCount];
      for k := 0 to SlotCount
        invariant forall x :: 0 <= x < k ==> heads[x] == []
      {
        heads[k] := [];
      }
      var pages: nat := InitPages(slotsAddr, end);
      var first := InitStart(slotsAddr, end);
      var descs := new nat[pages](_ => PAGE_FREE);
      descs[0] := pages;
      var types := new Role[pages](_ => PageRole);
      var mem := new nat[pages * WordsPerPage](_ => 0);
      this.start := first;
      this.end := end;
      slab := descs;
      role := types;
      words := mem;
      slots := heads;
      free := [0];
      new;
      assert slab[..] == InitSpec(slotsAddr, end).slab;
      assert slots[..] == InitSpec(slotsAddr, end).slots;
      InitValid(slotsAddr, end);
    }

    /**
     * ngx_slab_alloc_pages: walk the free list to the first run of at least
     * n pages, cut n pages off its front and mark them allocated.
     */
    method AllocPages(n: nat) returns (page: Option<nat>)
      requires Valid() && n >= 1
      modifies this, slab
      ensures PagesResult(State(), page) == AllocPagesSpec(old(State()), n)
      ensures Valid() && (page.Some? ==> page.value < slab.Length)
    {
      ghost var s := State();
      FreeListBounds(s);
      var j := FindRun(n);
      if j == |free| {
        page := None;
        return;
      }
      var h := free[j];
      var len := slab[h];
      FreeRunBounds(s, j);
      TakeRun(j, h, n, len);
      page := Some(h);
      AllocPagesDone(s, State(), n, j, h, len);
    }

    /** The first-fit walk of ngx_slab_alloc_pages: the position of the first run of at least n pages. */
    method FindRun(n: nat) returns (j: nat)
      requires forall k :: 0 <= k < |free| ==> free[k] < slab.Length
      ensures j == FirstFit(slab[..], free, n, 0)
    {
      j := 0;
      while j < |free| && slab[free[j]] < n
        invariant j <= |free|
        invariant FirstFit(slab[..], free, n, j) == FirstFit(slab[..], free, n, 0)
      {
        j := j + 1;
      }
    }

    /**
     * Cut n pages off the front of the len-page free run at h, which is at
     * position j of the free list: the rest of the run takes its place on
     * the list, and the n pages become an allocated run.
     */
    method TakeRun(j: nat, h: nat, n: nat, len: nat)
      requires Shape(State()) && slab != words
      requires j < |free| && free[j] == h && h + len <= slab.Length && 1 <= n <= len && slab[h] == len
      modifies this, slab
      ensures SlabPageProofs.RunTaken(old(State()), State(), h, n, len)
      ensures free == if len > n then old(free)[j := h + n] else old(free)[..j] + old(free)[j + 1..]
    {
      if len > n {
        slab[h + n] := len - n;
        free := free[j := h + n];
      } else {
        free := free[..j] + free[j + 1..];
      }
      slab[h] := n + PAGE_START;
      ghost var headed, listed := slab[..], free;
      var k := h + 1;
      while k < h + n
        invariant h + 1 <= k <= h + n
        invariant slab[..] == Fill(headed, h + 1, k, PAGE_BUSY)
        invariant free == listed
      {
        slab[k] := PAGE_BUSY;
        k := k + 1;
      }
    }

    /** A scan of the page words [from, to) for the first word other than v. */
    method ScanWords(from: nat, to: nat, v: nat) returns (r: nat)
      requires from <= to <= words.Length
      ensures r == FirstNot(words[..], from, to, v)
    {
      r := from;
      while r < to && words[r] == v
        invariant from <= r <= to
        invariant FirstNot(words[..], r, to, v) == FirstNot(words[..], from, to, v)
      {
        r := r + 1;
      }
    }

    /**
     * The SMALL branch of ngx_slab_alloc on page i: the first bitmap word that
     * is not all ones gets its lowest clear bit set; a page left with no clear
     * bit leaves its slot list.
     */
    method AllocSmall(i: nat) returns (addr: nat)
      requires SmallReady(State(), i) && slab != words
      modifies words, slots
      ensures AllocResult(State(), addr) == SlabOps.AllocSmall(old(State()), i)
    {
      ghost var s := State();
      SmallReadyBounds(s, i);
      ghost var k, b, full;
      addr, k, b, full := MarkSmall(i, i * WordsPerPage + MapWords(slab[i]));
      AllocSmallDone(s, words[..], slots[..], i, k, b, full, addr);
    }

    /** The word scan, bit search and unlink of the SMALL branch, on the arrays themselves. */
    method MarkSmall(i: nat, ghost mapEnd: nat) returns (addr: nat, ghost k: nat, ghost b: nat, ghost full: bool)
      requires slab != words && i < slab.Length && 3 <= slab[i] <= 6
      requires mapEnd == i * WordsPerPage + MapWords(slab[i]) <= words.Length
      requires FirstNot(words[..], i * WordsPerPage, mapEnd, BUSY) < mapEnd
      requires slab[i] - MinShift < slots.Length
      modifies words, slots
      ensures k == FirstNot(old(words[..]), i * WordsPerPage, mapEnd, BUSY) && b == LowestClear(old(words[k]), 0, WordBits)
      ensures words[..] == old(words[..])[k := SetBit(old(words[k]), b)]
      ensures full == (words[k] == BUSY && FirstNot(words[..], k + 1, mapEnd, BUSY) == mapEnd)
      ensures slots[..] == if full then old(slots[..])[slab[i] - MinShift := Without(old(slots[slab[i] - MinShift]), i)] else old(slots[..])
      ensures addr == start + i * PageSize + ((k - i * WordsPerPage) * WordBits + b) * ChunkSize(slab[i])
    {
      var shift := slab[i];
      var base := i * WordsPerPage;
      var last := base + MapWords(shift);
      var n := ScanWords(base, last, BUSY);
      k := n;
      var bit := SetLowestClear(n);
      b := bit;
      full := UnlinkIfFilled(i, n, last, shift - MinShift);
      addr := ChunkAt(start, i, (n - base) * WordBits + bit, shift);
    }

    /** Set the lowest clear bit of bitmap word n. */
    method SetLowestClear(n: nat) returns (bit: nat)
      requires n < words.Length
      modifies words
      ensures bit == LowestClear(old(words[n]), 0, WordBits)
      ensures words[..] == old(words[..])[n := SetBit(old(words[n]), bit)]
    {
      bit := LowestClearBit(words[n], WordBits);
      words[n] := SetBit(words[n], bit);
    }

    /** A SMALL page whose words n up to last are all ones is full: unlink it from slot list `slot`. */
    method UnlinkIfFilled(i: nat, n: nat, last: nat, slot: nat) returns (full: bool)
      requires n < last <= words.Length && slot < slots.Length
      modifies slots
      ensures full == (words[n] == BUSY && FirstNot(words[..], n + 1, last, BUSY) == last)
      ensures slots[..] == if full then old(slots[..])[slot := Without(old(slots[slot]), i)] else old(slots[..])
    {
      full := false;
      if words[n] == BUSY {
        var r := ScanWords(n + 1, last, BUSY);
        full := r == last;
      }
      if full {
        Unlink(slot, i);
      }
    }

    /** Unlink page i from slot list `slot`, as the C code does when a page fills up. */
    method Unlink(slot: nat, i: nat)
      requires slot < slots.Length
      modifies slots
      ensures slots[..] == old(slots[..])[slot := Without(old(slots[slot]), i)]
    {
      slots[slot] := Without(slots[slot], i);
    }

    /** The EXACT branch: the lowest clear bit of the slab word is set; a full page leaves its slot list. */
    method AllocExact(i: nat) returns (addr: nat)
      requires Shape(State()) && slab != words && i < slab.Length
      requires role[i] == Exact && HasFree(State(), i)
      modifies slab, slots
      ensures AllocResult(State(), addr) == SlabOps.AllocExact(old(State()), i)
    {
      var b := LowestClearBit(slab[i], WordBits);
      slab[i] := SetBit(slab[i], b);
      if slab[i] == BUSY {
        slots[ExactShift - MinShift] := Without(slots[ExactShift - MinShift], i);
      }
      addr := start + i * PageSize + b * ExactSize;
    }

    /** The BIG branch: the lowest clear bit of the map in the slab word's upper half is set. */
    method AllocBig(i: nat) returns (addr: nat)
      requires BigReady(State(), i) && slab != words
      modifies slab, slots
      ensures AllocResult(State(), addr) == SlabOps.AllocBig(old(State()), i)
    {
      ghost var s := State();
      ghost var b, full;
      addr, b, full := MarkBig(i, slab[i] % 16);
      AllocBigDone(s, slab[..], slots[..], i, b, full, addr);
    }

    /** The bit search and unlink of the BIG branch, on the arrays themselves. */
    method MarkBig(i: nat, ghost shift: nat) returns (addr: nat, ghost b: nat, ghost full: bool)
      requires slab != words && i < slab.Length && shift == slab[i] % 16 && 8 <= shift <= 11
      requires BigMap(slab[i]) != LowMask(ChunksPerPage(shift))
      requires shift - MinShift < slots.Length
      modifies slab, slots
      ensures b == LowestClear(BigMap(old(slab[i])), 0, ChunksPerPage(shift))
      ensures slab[..] == old(slab[..])[i := old(slab[i]) + 0x1_0000 * Pow2(b)]
      ensures full == (BigMap(slab[i]) == LowMask(ChunksPerPage(shift)))
      ensures slots[..] == if full then old(slots[..])[shift - MinShift := Without(old(slots[shift - MinShift]), i)] else old(slots[..])
      ensures addr == start + i * PageSize + b * ChunkSize(shift)
    {
      var sh := slab[i] % 16;
      var chunks := ChunksPerPage(sh);
      var bit := LowestClearBit(BigMap(slab[i]), chunks);
      b := bit;
      slab[i] := slab[i] + 0x1_0000 * Pow2(bit);
      full := BigMap(slab[i]) == LowMask(chunks);
      if BigMap(slab[i]) == LowMask(chunks) {
        Unlink(sh - MinShift, i);
      }
      addr := ChunkAt(start, i, bit, sh);
    }

    /**
     * A page fresh from AllocPages becomes a chunk page of the given shift:
     * a SMALL page gets its bitmap (its own storage chunks and the chunk
     * handed out marked), an EXACT or BIG page its first chunk marked; the
     * page becomes its slot list.
     */
    method Carve(h: nat, shift: nat) returns (addr: nat)
      requires Shape(State()) && slab != words && h < slab.Length && IsChunkShift(shift)
      modifies slab, role, words, slots
      ensures AllocResult(State(), addr) == SlabOps.Carve(old(State()), h, shift)
    {
      ghost var s := State();
      Geometry(shift);
      var slot := shift - MinShift;
      addr := start + h * PageSize;
      if shift < ExactShift {
        MulMonotone(h + 1, slab.Length, WordsPerPage);
        var n := MapSmallPage(h, shift);
        slab[h] := shift;
        role[h] := Small;
        MulMonotone(0, n, ChunkSize(shift));
        addr := addr + n * ChunkSize(shift);
      } else if shift == ExactShift {
        slab[h] := 1;
        role[h] := Exact;
      } else {
        slab[h] := 0x1_0000 + shift;
        role[h] := Big;
      }
      slots[slot] := [h];
    }

    /**
     * ngx_slab_alloc: a request of MaxSize bytes or more takes whole pages;
     * a smaller one takes a chunk of the first page on its slot list with a
     * free chunk, or of a page freshly taken and carved.  The result is 0
     * exactly when there is no room, and then the pool is unchanged.
     */
    method Alloc(size: nat) returns (addr: nat)
      requires Valid()
      modifies this, slab, role, words, slots
      ensures AllocResult(State(), addr) == AllocSpec(old(State()), size)
      ensures Valid()
      ensures addr == 0 <==> SlabAllocProofs.NoRoom(old(State()), size)
      ensures addr == 0 ==> State() == old(State())
      ensures addr != 0 ==> SlabAllocProofs.HandedOut(old(State()), State(), addr, SlabAllocProofs.Granted(size))
    {
      ghost var s := State();
      SlabAllocProofs.AllocCorrect(s, size);
      if size >= MaxSize {
        addr := AllocWholePages(size);
      } else {
        addr := AllocChunk(size);
      }
    }

    /** The branch of ngx_slab_alloc for requests of MaxSize bytes or more. */
    method AllocWholePages(size: nat) returns (addr: nat)
      requires Valid() && size >= MaxSize
      modifies this, slab
      ensures AllocResult(State(), addr) == AllocSpec(old(State()), size)
    {
      var page := AllocPages((size + PageSize - 1) / PageSize);
      if page.None? {
        addr := 0;
      } else {
        MulMonotone(0, page.value, PageSize);
        addr := start + page.value * PageSize;
      }
    }

    /** The branch of ngx_slab_alloc for requests below MaxSize. */
    method AllocChunk(size: nat) returns (addr: nat)
      requires Valid() && size < MaxSize
      modifies this, slab, role, words, slots
      ensures AllocResult(State(), addr) == AllocSpec(old(State()), size)
    {
      ghost var s := State();
      var shift := MinShift;
      if size > MinSize {
        shift := SizeShiftLoop(size);
      }
      ChunkSlot(s, size, shift);
      addr := AllocShift(shift);
    }

    /** A chunk of 2^shift bytes: from the first listed page with a free chunk, else from a fresh page. */
    method AllocShift(shift: nat) returns (addr: nat)
      requires Valid() && IsChunkShift(shift)
      modifies this, slab, role, words, slots
      ensures AllocResult(State(), addr) == ChunkSpec(old(State()), shift)
    {
      ghost var s := State();
      assert SlotOK(s, shift - MinShift);
      var slot := shift - MinShift;
      var j := FindListed(slot);
      if j < |slots[slot]| {
        ListedPage(s, shift, j);
        addr := AllocIn(slots[slot][j]);
      } else {
        FreshPage(s, shift);
        addr := AllocFresh(shift);
      }
    }

    /** The slot list has no page with a free chunk: take one page and carve it. */
    method AllocFresh(shift: nat) returns (addr: nat)
      requires Valid() && IsChunkShift(shift)
      modifies this, slab, role, words, slots
      ensures AllocResult(State(), addr) == FreshChunk(old(State()), shift)
    {
      var page := AllocPages(1);
      if page.None? {
        addr := 0;
      } else {
        addr := Carve(page.value, shift);
      }
    }

    /** The walk of ngx_slab_alloc along slot list `slot` to the first page with a free chunk. */
    method FindListed(slot: nat) returns (j: nat)
      requires Shape(State()) && slab != words && slot < SlotCount
      requires forall k :: 0 <= k < |slots[slot]| ==> slots[slot][k] < slab.Length
      ensures j == FirstWithFree(State(), slot, 0)
    {
      j := 0;
      while j < |slots[slot]|
        invariant j <= |slots[slot]|
        invariant FirstWithFree(State(), slot, j) == FirstWithFree(State(), slot, 0)
      {
        var found := PageHasFree(slots[slot][j]);
        if found {
          return;
        }
        j := j + 1;
      }
    }

    /** The test each walk of ngx_slab_alloc makes of a page: a bitmap word, or the map, not all ones. */
    method PageHasFree(i: nat) returns (r: bool)
      requires Shape(State()) && slab != words && i < slab.Length
      ensures r == HasFree(State(), i)
    {
      match role[i]
      case Small =>
        if 3 <= slab[i] <= 6 {
          SmallMapBound(State(), i);
          var mapEnd := i * WordsPerPage + MapWords(slab[i]);
          var k := ScanWords(i * WordsPerPage, mapEnd, BUSY);
          r := k < mapEnd;
        } else {
          r := false;
        }
      case Exact =>
        r := slab[i] != BUSY;
      case Big =>
        r := 8 <= slab[i] % 16 <= 11 && BigMap(slab[i]) != LowMask(ChunksPerPage(slab[i] % 16));
      case PageRole =>
        r := false;
    }

    /** A chunk of page i, which has one free, handed out by the branch its role selects. */
    method AllocIn(i: nat) returns (addr: nat)
      requires Valid() && i < slab.Length && HasFree(State(), i)
      modifies slab, words, slots
      ensures AllocResult(State(), addr) == AllocInPage(old(State()), i)
    {
      if role[i] == Small {
        addr := AllocSmall(i);
      } else if role[i] == Exact {
        addr := AllocExact(i);
      } else {
        addr := AllocBig(i);
      }
    }

    /**
     * The bitmap of a fresh SMALL page: its first word marks the chunks that
     * hold the bitmap and the chunk handed out, the other words are cleared.
     */
    method MapSmallPage(h: nat, shift: nat) returns (n: nat)
      requires 3 <= shift <= 6 && (h + 1) * WordsPerPage <= words.Length
      modifies words
      ensures n == StorageChunks(shift)
      ensures words[..] == Fill(old(words[..])[h * WordsPerPage := LowMask(n + 1)], h * WordsPerPage + 1, h * WordsPerPage + MapWords(shift), 0)
    {
      Geometry(shift);
      var base := h * WordsPerPage;
      n := StorageChunks(shift);
      words[base] := LowMask(n + 1);
      ghost var marked := words[..];
      var w := base + 1;
      while w < base + MapWords(shift)
        invariant base + 1 <= w <= base + MapWords(shift)
        invariant words[..] == Fill(marked, base + 1, w, 0)
      {
        words[w] := 0;
        w := w + 1;
      }
    }

    /**
     * ngx_slab_free: a pointer outside the pages is refused; otherwise the
     * role of its page selects the branch.  A live block is given back and
     * the pool stays well formed; any other call that is refused changes
     * nothing.
     */
    method Free(p: nat) returns (outcome: FreeOutcome)
      requires Valid()
      modifies this, slab, role, words, slots
      ensures FreeResult(State(), outcome) == FreeSpec(old(State()), p)
      ensures (outcome == Released) == (Live(old(State()), p) || SlabFreeProofs.StoragePointer(old(State()), p))
      ensures (outcome == OutsideOfPool) == !InPages(old(State()), p)
      ensures outcome != Released ==> State() == old(State())
      ensures Live(old(State()), p) ==> slab != words && SlabFreeProofs.Freed(old(State()), State(), p)
    {
      ghost var s := State();
      SlabFreeProofs.FreeCorrect(s, p);
      if p < start || p >= start + slab.Length * PageSize {
        outcome := OutsideOfPool;
        return;
      }
      var rel: nat := p - start;
      var i := rel / PageSize;
      var off := rel % PageSize;
      if role[i] == Small {
        outcome := FreeSmall(p, i, off);
      } else if role[i] == Exact {
        outcome := FreeExact(p, i, off);
      } else if role[i] == Big {
        outcome := FreeBig(p, i, off);
      } else {
        outcome := FreePage(p, i, off);
      }
    }

    /** The SMALL branch of ngx_slab_free. */
    method FreeSmall(p: nat, i: nat, off: nat) returns (outcome: FreeOutcome)
      requires Valid() && InPages(State(), p) && i == PageOf(State(), p) && off == OffsetOf(State(), p)
      requires role[i] == Small
      modifies this, slab, role, words, slots
      ensures FreeResult(State(), outcome) == SlabOps.FreeSmall(old(State()), p)
    {
      ghost var s := State();
      FreeSmallCases(s, p);
      var shift := slab[i] % 16;
      if p % ChunkSize(shift) != 0 {
        outcome := WrongChunk;
        return;
      }
      ChunkIndexBound(shift, off);
      var c: nat := ChunkIndex(off, shift);
      var k := i * WordsPerPage + c / WordBits;
      WordInPages(i, slab.Length, c / WordBits);
      if !Bit(words[k], c % WordBits) {
        outcome := ChunkAlreadyFree;
        return;
      }
      ReleaseSmall(i, c);
      outcome := Released;
      FreeSmallDone(s, p, c);
    }

    /** The chunk's bit cleared, and the page freed once it holds no data chunk. */
    method ReleaseSmall(i: nat, c: nat)
      requires Shape(State()) && slab != words && i < slab.Length && role[i] == Small && 3 <= slab[i] <= 6
      requires c < 512 && ChunkUsed(State(), i, c)
      modifies this, slab, role, words, slots
      ensures State() == SmallRelease(old(State()), i, c)
    {
      ClearSmall(i, c);
      var inUse := SmallPageInUse(i);
      if !inUse {
        FreePages(i, 1);
      }
    }

    /** The EXACT branch of ngx_slab_free. */
    method FreeExact(p: nat, i: nat, off: nat) returns (outcome: FreeOutcome)
      requires Valid() && InPages(State(), p) && i == PageOf(State(), p) && off == OffsetOf(State(), p)
      requires role[i] == Exact
      modifies this, slab, role, slots
      ensures FreeResult(State(), outcome) == SlabOps.FreeExact(old(State()), p)
    {
      var c := off / ExactSize;
      if p % ExactSize != 0 {
        outcome := WrongChunk;
        return;
      }
      if !Bit(slab[i], c) {
        outcome := ChunkAlreadyFree;
        return;
      }
      ClearExact(i, c);
      if slab[i] == 0 {
        FreePages(i, 1);
      }
      outcome := Released;
    }

    /** The BIG branch of ngx_slab_free. */
    method FreeBig(p: nat, i: nat, off: nat) returns (outcome: FreeOutcome)
      requires Valid() && InPages(State(), p) && i == PageOf(State(), p) && off == OffsetOf(State(), p)
      requires role[i] == Big
      modifies this, slab, role, slots
      ensures FreeResult(State(), outcome) == SlabOps.FreeBig(old(State()), p)
    {
      ghost var s := State();
      FreeBigCases(s, p);
      var shift := slab[i] % 16;
      if p % ChunkSize(shift) != 0 {
        outcome := WrongChunk;
        return;
      }
      var c := ChunkIndex(off, shift);
      if !Bit(BigMap(slab[i]), c) {
        outcome := ChunkAlreadyFree;
        return;
      }
      ClearBig(i, c);
      ghost var s1 := State();
      if BigMap(slab[i]) == 0 {
        FreePages(i, 1);
      }
      outcome := Released;
      FreeBigDone(s, p, c, s1, State());
    }

    /** The PAGE branch of ngx_slab_free: an allocated run is given back whole. */
    method FreePage(p: nat, i: nat, off: nat) returns (outcome: FreeOutcome)
      requires Valid() && InPages(State(), p) && i == PageOf(State(), p) && off == OffsetOf(State(), p)
      requires role[i] == PageRole
      modifies this, slab, role, slots
      ensures FreeResult(State(), outcome) == SlabOps.FreePage(old(State()), p)
    {
      ghost var s := State();
      assert PageOK(s, i);
      if off != 0 {
        outcome := WrongChunk;
      } else if slab[i] < PAGE_START {
        outcome := PageAlreadyFree;
      } else if slab[i] == PAGE_BUSY {
        outcome := WrongPage;
      } else {
        FreePages(i, slab[i] - PAGE_START);
        outcome := Released;
      }
    }

    /** Bit c of SMALL page i's bitmap cleared, the page first relinked if it had left its slot list. */
    method ClearSmall(i: nat, c: nat)
      requires Shape(State()) && slab != words && i < slab.Length && role[i] == Small && 3 <= slab[i] <= 6
      requires c < 512 && ChunkUsed(State(), i, c)
      modifies words, slots
      ensures State() == SmallClear(old(State()), i, c)
    {
      var slot := slab[i] - MinShift;
      if i !in slots[slot] {
        Relink(slot, i);
      }
      var k := i * WordsPerPage + c / WordBits;
      words[k] := ClearBit(words[k], c % WordBits);
    }

    /** Bit c of EXACT page i's slab cleared, the page first relinked if it was full. */
    method ClearExact(i: nat, c: nat)
      requires Shape(State()) && i < slab.Length && role[i] == Exact && Bit(slab[i], c)
      modifies slab, slots
      ensures State() == ExactClear(old(State()), i, c)
    {
      if slab[i] == BUSY {
        Relink(ExactShift - MinShift, i);
      }
      slab[i] := ClearBit(slab[i], c);
    }

    /** Bit c of BIG page i's chunk map cleared, the page first relinked if it had left its slot list. */
    method ClearBig(i: nat, c: nat)
      requires Shape(State()) && i < slab.Length && role[i] == Big && IsChunkShift(slab[i] % 16)
      requires Bit(BigMap(slab[i]), c)
      modifies slab, slots
      ensures State() == BigClear(old(State()), i, c)
    {
      var slot := slab[i] % 16 - MinShift;
      if i !in slots[slot] {
        Relink(slot, i);
      }
      ClearBitGe(BigMap(slab[i]), c);
      slab[i] := slab[i] - 0x1_0000 * Pow2(c);
    }

    /** Relink page i at the head of slot list `slot`, as ngx_slab_free does for a page that had filled up. */
    method Relink(slot: nat, i: nat)
      requires slot < slots.Length
      modifies slots
      ensures slots[..] == old(slots[..])[slot := [i] + old(slots[slot])]
    {
      slots[slot] := [i] + slots[slot];
    }

    /** The emptiness test of ngx_slab_free: a chunk past the storage chunks still marked in SMALL page i. */
    method SmallPageInUse(i: nat) returns (r: bool)
      requires Shape(State()) && slab != words && i < slab.Length && 3 <= slab[i] <= 6
      ensures r == SmallInUse(State(), i)
    {
      var shift := slab[i];
      Geometry(shift);
      var base := i * WordsPerPage;
      MulMonotone(i + 1, slab.Length, WordsPerPage);
      if Shr(words[base], StorageChunks(shift)) != 0 {
        r := true;
      } else {
        var k := ScanWords(base + 1, base + MapWords(shift), 0);
        r := k < base + MapWords(shift);
      }
    }

    /**
     * ngx_slab_free_pages: pages [h, h + n) become one free run at the front
     * of the free list; a chunk page leaves its slot list.
     */
    method FreePages(h: nat, n: nat)
      requires Shape(State()) && slab != words
      requires h < slab.Length && 1 <= n && h + n <= slab.Length
      modifies this, slab, role, slots
      ensures State() == FreePagesSpec(old(State()), h, n)
    {
      ghost var s := State();
      var shift := if role[h] == Exact then ExactShift else slab[h] % 16;
      var listed := role[h] != PageRole && IsChunkShift(shift);
      slab[h] := n;
      role[h] := PageRole;
      var k := h + 1;
      while k < h + n
        invariant h + 1 <= k <= h + n
        invariant forall x :: 0 <= x < slab.Length ==> slab[x] == ReleasedSlab(s.slab, h, n, k, x)
        invariant forall x :: 0 <= x < role.Length ==> role[x] == (if h <= x < k then PageRole else s.role[x])
        invariant free == s.free && slots[..] == s.slots
      {
        slab[k] := PAGE_FREE;
        role[k] := PageRole;
        k := k + 1;
      }
      if listed {
        slots[shift - MinShift] := Without(slots[shift - MinShift], h);
      }
      free := [h] + free;
      ReleasedSame(s, State(), h, n);
    }
  }

  /** The slab word of page x once page h holds the run length n and pages (h, k) are cleared. */
  function ReleasedSlab(slab: seq<nat>, h: nat, n: nat, k: nat, x: nat): nat
    requires x < |slab|
  {
    if x == h then n else if h < x < k then PAGE_FREE else slab[x]
  }

  /** A state whose descriptors, lists and words read as FreePagesSpec says is the state it describes. */
  lemma ReleasedSame(s: PoolState, t: PoolState, h: nat, n: nat)
    requires Shape(s) && h < NPages(s) && 1 <= n && h + n <= NPages(s)
    requires t.start == s.start && t.end == s.end && t.words == s.words && t.free == [h] + s.free
    requires t.slots == FreePagesSpec(s, h, n).slots
    requires |t.slab| == |s.slab| && |t.role| == |s.role|
    requires forall x :: 0 <= x < |t.slab| ==> t.slab[x] == ReleasedSlab(s.slab, h, n, h + n, x)
    requires forall x :: 0 <= x < |t.role| ==> t.role[x] == (if h <= x < h + n then PageRole else s.role[x])
    ensures t == FreePagesSpec(s, h, n)
  {
    var u := FreePagesSpec(s, h, n);
    assert t.slab == u.slab;
    assert t.role == u.role;
  }

  /** The end of SMALL page i's bitmap, as an index into the page words. */
  lemma SmallMapBound(s: PoolState, i: nat)
    requires Shape(s) && i < NPages(s) && 3 <= s.slab[i] <= 6
    ensures i * WordsPerPage + MapWords(s.slab[i]) <= |s.words|
  {
    Geometry(s.slab[i]);
    MulMonotone(i + 1, NPages(s), WordsPerPage);
  }

  /** What MarkSmall asks of a page SlabOps.AllocSmall accepts. */
  lemma SmallReadyBounds(s: PoolState, i: nat)
    requires SmallReady(s, i)
    ensures 3 <= s.slab[i] <= 6 && s.slab[i] - MinShift < |s.slots|
    ensures i * WordsPerPage + MapWords(s.slab[i]) <= |s.words|
    ensures FirstNot(s.words, i * WordsPerPage, i * WordsPerPage + MapWords(s.slab[i]), BUSY) < i * WordsPerPage + MapWords(s.slab[i])
  {
    SmallMapBound(s, i);
  }

  /** Page i is a SMALL page with a free chunk: what SlabOps.AllocSmall asks of it. */
  ghost predicate SmallReady(s: PoolState, i: nat)
  {
    Shape(s) && i < NPages(s) && s.role[i] == Small && HasFree(s, i)
  }

  /**
   * The words and slot lists MarkSmall leaves: bit b of page word k set, k
   * and b the word and bit the C loops pick, the page unlinked when full; addr
   * is the address of the chunk they stand for.  These are the steps
   * SlabOps.AllocSmall describes.
   */
  lemma AllocSmallDone(s: PoolState, words1: seq<nat>, slots1: seq<seq<nat>>, i: nat, k: nat, b: nat, full: bool, addr: nat)
    requires SmallReady(s, i) && i * WordsPerPage + MapWords(s.slab[i]) <= |s.words|
    requires k == FirstNot(s.words, i * WordsPerPage, i * WordsPerPage + MapWords(s.slab[i]), BUSY) && k < |s.words|
    requires b == LowestClear(s.words[k], 0, WordBits)
    requires words1 == s.words[k := SetBit(s.words[k], b)]
    requires full == (words1[k] == BUSY && FirstNot(words1, k + 1, i * WordsPerPage + MapWords(s.slab[i]), BUSY) == i * WordsPerPage + MapWords(s.slab[i]))
    requires s.slab[i] - MinShift < |s.slots|
    requires slots1 == if full then s.slots[s.slab[i] - MinShift := Without(s.slots[s.slab[i] - MinShift], i)] else s.slots
    requires addr == s.start + i * PageSize + ((k - i * WordsPerPage) * WordBits + b) * ChunkSize(s.slab[i])
    ensures AllocResult(s.(words := words1, slots := slots1), addr) == SlabOps.AllocSmall(s, i)
  {
  }

  /** Page i is a BIG page with a free chunk: what SlabOps.AllocBig asks of it. */
  ghost predicate BigReady(s: PoolState, i: nat)
  {
    Shape(s) && i < NPages(s) && s.role[i] == Big && HasFree(s, i)
  }

  /** The array updates MarkBig makes are the new state SlabOps.AllocBig describes. */
  lemma AllocBigDone(s: PoolState, slab1: seq<nat>, slots1: seq<seq<nat>>, i: nat, b: nat, full: bool, addr: nat)
    requires BigReady(s, i) && s.slab[i] % 16 - MinShift < |s.slots|
    requires b == LowestClear(BigMap(s.slab[i]), 0, ChunksPerPage(s.slab[i] % 16))
    requires slab1 == s.slab[i := s.slab[i] + 0x1_0000 * Pow2(b)]
    requires full == (BigMap(slab1[i]) == LowMask(ChunksPerPage(s.slab[i] % 16)))
    requires slots1 == if full then s.slots[s.slab[i] % 16 - MinShift := Without(s.slots[s.slab[i] % 16 - MinShift], i)] else s.slots
    requires addr == s.start + i * PageSize + b * ChunkSize(s.slab[i] % 16)
    ensures AllocResult(s.(slab := slab1, slots := slots1), addr) == SlabOps.AllocBig(s, i)
  {
  }

  /** The chunk shift of a request below MaxSize names a slot list of pages of the pool. */
  lemma ChunkSlot(s: PoolState, size: nat, shift: nat)
    requires Valid(s) && size < MaxSize && shift == ShiftFor(size)
    ensures IsChunkShift(shift) && SlotOK(s, shift - MinShift)
    ensures AllocSpec(s, size) == ChunkSpec(s, shift)
  {
    ShiftForBounds(size);
  }

  /** When the walk finds page number j of the list, the request is served from that page. */
  lemma ListedPage(s: PoolState, shift: nat, j: nat)
    requires Valid(s) && IsChunkShift(shift) && SlotOK(s, shift - MinShift)
    requires j == FirstWithFree(s, shift - MinShift, 0) < |s.slots[shift - MinShift]|
    ensures s.slots[shift - MinShift][j] < NPages(s)
    ensures ChunkSpec(s, shift) == AllocInPage(s, s.slots[shift - MinShift][j])
  {
  }

  /** When the walk finds nothing, the request is served from a page freshly taken and carved. */
  lemma FreshPage(s: PoolState, shift: nat)
    requires Valid(s) && IsChunkShift(shift) && SlotOK(s, shift - MinShift)
    requires FirstWithFree(s, shift - MinShift, 0) == |s.slots[shift - MinShift]|
    ensures ChunkSpec(s, shift) == FreshChunk(s, shift)
  {
  }

  /** The two refusals of the SMALL branch of ngx_slab_free. */
  lemma FreeSmallCases(s: PoolState, p: nat)
    requires Valid(s) && InPages(s, p) && s.role[PageOf(s, p)] == Small
    ensures var i := PageOf(s, p);
      && 3 <= s.slab[i] <= 6 && s.slab[i] % 16 == s.slab[i]
      && (p % ChunkSize(s.slab[i]) != 0 ==> SlabOps.FreeSmall(s, p) == FreeResult(s, WrongChunk))
      && (p % ChunkSize(s.slab[i]) == 0 ==>
            (ChunkIndexBound(s.slab[i], OffsetOf(s, p));
             var c := ChunkIndex(OffsetOf(s, p), s.slab[i]);
             c < 512 && (!ChunkUsed(s, i, c) ==> SlabOps.FreeSmall(s, p) == FreeResult(s, ChunkAlreadyFree))))
  {
    var i := PageOf(s, p);
    assert PageOK(s, i);
    ChunkIndexBound(s.slab[i], OffsetOf(s, p));
  }

  /** The steps of FreeSmall on a marked chunk are those SlabOps.FreeSmall describes. */
  lemma FreeSmallDone(s: PoolState, p: nat, c: nat)
    requires Valid(s) && InPages(s, p) && s.role[PageOf(s, p)] == Small && 3 <= s.slab[PageOf(s, p)] <= 6
    requires p % ChunkSize(s.slab[PageOf(s, p)] % 16) == 0
    requires c == OffsetOf(s, p) / ChunkSize(s.slab[PageOf(s, p)] % 16) && c < 512
    requires ChunkUsed(s, PageOf(s, p), c)
    ensures FreeResult(SmallRelease(s, PageOf(s, p), c), Released) == SlabOps.FreeSmall(s, p)
  {
  }

  /** Word x of page i's bitmap lies in the page area of n pages. */
  lemma FreeBigCases(s: PoolState, p: nat)
    requires Valid(s) && InPages(s, p) && s.role[PageOf(s, p)] == Big
    ensures var i := PageOf(s, p);
      && IsChunkShift(s.slab[i] % 16) && 8 <= s.slab[i] % 16
      && (p % ChunkSize(s.slab[i] % 16) != 0 ==> SlabOps.FreeBig(s, p) == FreeResult(s, WrongChunk))
      && (p % ChunkSize(s.slab[i] % 16) == 0 && !Bit(BigMap(s.slab[i]), ChunkIndex(OffsetOf(s, p), s.slab[i] % 16)) ==>
            SlabOps.FreeBig(s, p) == FreeResult(s, ChunkAlreadyFree))
  {
    assert PageOK(s, PageOf(s, p));
  }

  lemma FreeBigDone(s: PoolState, p: nat, c: nat, s1: PoolState, t: PoolState)
    requires Valid(s) && InPages(s, p) && s.role[PageOf(s, p)] == Big && IsChunkShift(s.slab[PageOf(s, p)] % 16)
    requires p % ChunkSize(s.slab[PageOf(s, p)] % 16) == 0
    requires c == OffsetOf(s, p) / ChunkSize(s.slab[PageOf(s, p)] % 16) && Bit(BigMap(s.slab[PageOf(s, p)]), c)
    requires s1 == BigClear(s, PageOf(s, p), c) && Shape(s1)
    requires t == if BigMap(s1.slab[PageOf(s, p)]) != 0 then s1 else FreePagesSpec(s1, PageOf(s, p), 1)
    ensures FreeResult(t, Released) == SlabOps.FreeBig(s, p)
  {
    assert PageOK(s, PageOf(s, p));
  }

  lemma WordInPages(i: nat, n: nat, x: nat)
    requires i < n && x < WordsPerPage
    ensures i * WordsPerPage + x < n * WordsPerPage
  {
    MulMonotone(i + 1, n, WordsPerPage);
  }

  /** The free list's entries are pages of the pool. */
  lemma FreeListBounds(s: PoolState)
    requires SlabState.Valid(s)
    ensures forall k :: 0 <= k < |s.free| ==> s.free[k] < |s.slab|
  {
  }

  /** A run on the free list lies within the pool. */
  lemma FreeRunBounds(s: PoolState, j: nat)
    requires SlabState.Valid(s) && j < |s.free|
    ensures s.free[j] < NPages(s) && s.free[j] + s.slab[s.free[j]] <= NPages(s)
  {
    assert s.free[j] in s.free;
    assert PageOK(s, s.free[j]);
  }

  /** Cutting the first fitting run as TakeRun does is what AllocPagesSpec describes, and keeps the pool valid. */
  lemma AllocPagesDone(s: PoolState, t: PoolState, n: nat, j: nat, h: nat, len: nat)
    requires SlabState.Valid(s) && n >= 1
    requires j == FirstFit(s.slab, s.free, n, 0) && j < |s.free| && h == s.free[j] && len == s.slab[h]
    requires SlabPageProofs.RunTaken(s, t, h, n, len)
    requires t.free == if len > n then s.free[j := h + n] else s.free[..j] + s.free[j + 1..]
    ensures PagesResult(t, Some(h)) == AllocPagesSpec(s, n)
    ensures SlabState.Valid(t)
  {
    var j', h', len' := SlabPageProofs.AllocPagesEffect(s, n);
    RunTakenSame(s, t, AllocPagesSpec(s, n).state, h, n, len);
    SlabPageProofs.AllocPagesValid(s, n);
  }

  /** Taking the same pages from the same run, with the same list, leaves one state. */
  lemma RunTakenSame(s: PoolState, t: PoolState, u: PoolState, h: nat, n: nat, len: nat)
    requires SlabPageProofs.RunTaken(s, t, h, n, len) && SlabPageProofs.RunTaken(s, u, h, n, len)
    requires t.free == u.free
    ensures t == u
  {
    assert t.slab == u.slab;
  }
}
