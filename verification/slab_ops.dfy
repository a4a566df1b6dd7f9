/**
 * The operations of the slab allocator as functions on PoolState: the
 * reference each method of SlabPool.Pool is proved against.  Each function
 * takes the branches of the corresponding C function, in the same order, with
 * the corrections listed in the README's findings.
 */
module SlabOps {
  import opened SlabTypes
  import opened SlabState

  datatype PagesResult = PagesResult(state: PoolState, page: Option<nat>)

  /** The new state and the returned address (0 for NULL). */
  datatype AllocResult = AllocResult(state: PoolState, addr: nat)

  /** How ngx_slab_free ends: released, or the alert it logs. */
  datatype FreeOutcome = Released | OutsideOfPool | WrongChunk | ChunkAlreadyFree | PageAlreadyFree | WrongPage

  datatype FreeResult = FreeResult(state: PoolState, outcome: FreeOutcome)

  // ---------------------------------------------------------------------
  // Request sizing
  // ---------------------------------------------------------------------

  /** The number of significant bits of x. */
  function BitLength(x: nat): nat
  {
    if x == 0 then 0 else 1 + BitLength(x / 2)
  }

  /** The chunk shift ngx_slab_alloc picks for a request below MaxSize. */
  function ShiftFor(size: nat): nat
  {
    if size > MinSize then BitLength(size - 1) else MinShift
  }

  /** The pages a request of at least MaxSize takes: size rounded up to whole pages. */
  function PagesFor(size: nat): (r: nat)
    ensures size >= 1 ==> r >= 1
  {
    (size + PageSize - 1) / PageSize
  }

  // ---------------------------------------------------------------------
  // ngx_slab_alloc_pages / ngx_slab_free_pages
  // ---------------------------------------------------------------------

  /** The position in free of the first run of at least n pages, searching from j; |free| if none. */
  function FirstFit(slab: seq<nat>, free: seq<nat>, n: nat, j: nat): (r: nat)
    requires j <= |free|
    requires forall k :: 0 <= k < |free| ==> free[k] < |slab|
    ensures j <= r <= |free|
    ensures r < |free| ==> slab[free[r]] >= n
    ensures forall k :: j <= k < r ==> slab[free[k]] < n
    decreases |free| - j
  {
    if j == |free| then j
    else if slab[free[j]] >= n then j
    else FirstFit(slab, free, n, j + 1)
  }

  /**
   * ngx_slab_alloc_pages: take the first free run of at least n pages.  A
   * longer run keeps its place in the list with its first n pages cut off.
   */
  function AllocPagesSpec(s: PoolState, n: nat): PagesResult
    requires Valid(s) && n >= 1
  {
    var j := FirstFit(s.slab, s.free, n, 0);
    if j == |s.free| then PagesResult(s, None)
    else
      var h := s.free[j];
      assert h in s.free;
      var len := s.slab[h];
      assert PageOK(s, h);
      var slab1 := if len > n then s.slab[h + n := len - n] else s.slab;
      var free1 := if len > n then s.free[j := h + n] else s.free[..j] + s.free[j + 1..];
      var slab2 := Fill(slab1[h := n + PAGE_START], h + 1, h + n, PAGE_BUSY);
      PagesResult(s.(slab := slab2, free := free1), Some(h))
  }

  /**
   * ngx_slab_free_pages: pages [h, h + n) become one free run pushed at the
   * front of the free list; a chunk page is first unlinked from its slot list.
   */
  function FreePagesSpec(s: PoolState, h: nat, n: nat): PoolState
    requires Shape(s) && h < NPages(s) && 1 <= n && h + n <= NPages(s)
  {
    var shift := PageChunkShift(s, h);
    var slots1 :=
      if s.role[h] != PageRole && IsChunkShift(shift) then
        s.slots[shift - MinShift := Without(s.slots[shift - MinShift], h)]
      else s.slots;
    s.(slab := Fill(s.slab[h := n], h + 1, h + n, PAGE_FREE),
       role := Fill(s.role[h := PageRole], h + 1, h + n, PageRole),
       free := [h] + s.free,
       slots := slots1)
  }

  // ---------------------------------------------------------------------
  // Handing out a chunk of a page that has one free
  // ---------------------------------------------------------------------

  /** The position in slots[slot], from j on, of the first page with a free chunk. */
  function FirstWithFree(s: PoolState, slot: nat, j: nat): (r: nat)
    requires Shape(s) && slot < SlotCount && j <= |s.slots[slot]|
    requires forall k :: 0 <= k < |s.slots[slot]| ==> s.slots[slot][k] < NPages(s)
    ensures j <= r <= |s.slots[slot]|
    ensures r < |s.slots[slot]| ==> HasFree(s, s.slots[slot][r])
    ensures forall k :: j <= k < r ==> !HasFree(s, s.slots[slot][k])
    decreases |s.slots[slot]| - j
  {
    if j == |s.slots[slot]| then j
    else if HasFree(s, s.slots[slot][j]) then j
      else FirstWithFree(s, slot, j + 1)
  }

  /** Unlink page i from slot list `slot` once it has no free chunk left. */
  function UnlinkIfFull(s: PoolState, slot: nat, i: nat, full: bool): seq<seq<nat>>
    requires slot < |s.slots|
  {
    if full then s.slots[slot := Without(s.slots[slot], i)] else s.slots
  }

  /** SMALL page: set the lowest clear bit of the first bitmap word that is not all ones. */
  function AllocSmall(s: PoolState, i: nat): AllocResult
    requires Shape(s) && i < NPages(s) && s.role[i] == Small && HasFree(s, i)
  {
    var shift := s.slab[i];
    Geometry(shift);
    var base := i * WordsPerPage;
    var mapEnd := i * WordsPerPage + MapWords(shift);
    var k := SmallFirstOpenWord(s, i);
    MulMonotone(i + 1, NPages(s), WordsPerPage);
    var b := LowestClear(s.words[k], 0, WordBits);
    var words1 := s.words[k := SetBit(s.words[k], b)];
    var full := words1[k] == BUSY && FirstNot(words1, k + 1, mapEnd, BUSY) == mapEnd;
    MulMonotone(0, (k - base) * WordBits + b, ChunkSize(shift));
    AllocResult(
      s.(words := words1, slots := UnlinkIfFull(s, shift - MinShift, i, full)),
      s.start + i * PageSize + ((k - base) * WordBits + b) * ChunkSize(shift))
  }

  /** EXACT page: set the lowest clear bit of the slab word. */
  function AllocExact(s: PoolState, i: nat): AllocResult
    requires Shape(s) && i < NPages(s) && s.role[i] == Exact && HasFree(s, i)
  {
    var b := LowestClear(s.slab[i], 0, WordBits);
    var slab1 := SetBit(s.slab[i], b);
    AllocResult(
      s.(slab := s.slab[i := slab1], slots := UnlinkIfFull(s, ExactShift - MinShift, i, slab1 == BUSY)),
      s.start + i * PageSize + b * ExactSize)
  }

  /** BIG page: set the lowest clear bit of the chunk map in the slab word's upper half. */
  function AllocBig(s: PoolState, i: nat): AllocResult
    requires Shape(s) && i < NPages(s) && s.role[i] == Big && HasFree(s, i)
  {
    var shift := s.slab[i] % 16;
    var chunks := ChunksPerPage(shift);
    var b := LowestClear(BigMap(s.slab[i]), 0, chunks);
    var slab1 := s.slab[i] + 0x1_0000 * Pow2(b);
    MulMonotone(0, b, ChunkSize(shift));
    AllocResult(
      s.(slab := s.slab[i := slab1], slots := UnlinkIfFull(s, shift - MinShift, i, BigMap(slab1) == LowMask(chunks))),
      s.start + i * PageSize + b * ChunkSize(shift))
  }

  function AllocInPage(s: PoolState, i: nat): AllocResult
    requires Valid(s) && i < NPages(s) && HasFree(s, i)
  {
    assert PageOK(s, i);
    match s.role[i]
    case Small => AllocSmall(s, i)
    case Exact => AllocExact(s, i)
    case Big => AllocBig(s, i)
  }

  /**
   * A page fresh from AllocPagesSpec becomes a chunk page of the given shift
   * with its first chunk handed out, and is the whole of its slot list.
   */
  function Carve(s: PoolState, h: nat, shift: nat): AllocResult
    requires Shape(s) && h < NPages(s) && IsChunkShift(shift)
  {
    Geometry(shift);
    var slot := shift - MinShift;
    var addr := s.start + h * PageSize;
    match RoleOfShift(shift)
    case Small =>
      var base := h * WordsPerPage;
      var n := StorageChunks(shift);
      var words1 := Fill(s.words[base := LowMask(n + 1)], base + 1, base + MapWords(shift), 0);
      AllocResult(
        s.(slab := s.slab[h := shift], role := s.role[h := Small], words := words1, slots := s.slots[slot := [h]]),
        addr + n * ChunkSize(shift))
    case Exact =>
      AllocResult(s.(slab := s.slab[h := 1], role := s.role[h := Exact], slots := s.slots[slot := [h]]), addr)
    case Big =>
      AllocResult(s.(slab := s.slab[h := 0x1_0000 + shift], role := s.role[h := Big], slots := s.slots[slot := [h]]), addr)
    case PageRole =>
      AllocResult(s, 0)
  }

  // ---------------------------------------------------------------------
  // ngx_slab_alloc
  // ---------------------------------------------------------------------

  function AllocSpec(s: PoolState, size: nat): AllocResult
    requires Valid(s)
  {
    if size >= MaxSize then
      WholePagesSpec(s, PagesFor(size))
    else
      ShiftForBounds(size);
      ChunkSpec(s, ShiftFor(size))
  }

  /** A request of MaxSize bytes or more: n whole pages, or NULL. */
  function WholePagesSpec(s: PoolState, n: nat): AllocResult
    requires Valid(s) && n >= 1
  {
    var r := AllocPagesSpec(s, n);
    if r.page.Some? then AllocResult(r.state, s.start + r.page.value * PageSize)
    else AllocResult(s, 0)
  }

  /**
   * A smaller request, served by chunks of 2^shift bytes: from the first
   * page of the slot list with a free chunk, else from a freshly carved page.
   */
  function ChunkSpec(s: PoolState, shift: nat): AllocResult
    requires Valid(s) && IsChunkShift(shift)
  {
    var slot := shift - MinShift;
    assert SlotOK(s, slot);
    var j := FirstWithFree(s, slot, 0);
    if j < |s.slots[slot]| then
      AllocInPage(s, s.slots[slot][j])
    else
      FreshChunk(s, shift)
  }

  /** No listed page has a free chunk: one page from the free runs, carved into chunks, or NULL. */
  function FreshChunk(s: PoolState, shift: nat): AllocResult
    requires Valid(s) && IsChunkShift(shift)
  {
    var r := AllocPagesSpec(s, 1);
    if r.page.Some? && r.page.value < NPages(r.state) && Shape(r.state) then Carve(r.state, r.page.value, shift)
    else AllocResult(s, 0)
  }

  /** Requests below MaxSize get the smallest chunk shift whose chunk holds them. */
  lemma ShiftForBounds(size: nat)
    requires size < MaxSize
    ensures IsChunkShift(ShiftFor(size))
    ensures size <= MinSize ==> ShiftFor(size) == MinShift
    ensures size > MinSize ==> Pow2(ShiftFor(size) - 1) < size <= Pow2(ShiftFor(size))
  {
    if size > MinSize {
      var k := BitLength(size - 1);
      BitLengthBounds(size - 1);
      assert Pow2(3) == 8 && Pow2(11) == 2048;
      if k <= 3 {
        Pow2Monotone(k, 3);
      }
      if k > 12 {
        Pow2Monotone(11, k - 1);
      }
    }
  }

  lemma {:induction false} BitLengthBounds(x: nat)
    requires x >= 1
    ensures BitLength(x) >= 1
    ensures Pow2(BitLength(x) - 1) <= x < Pow2(BitLength(x))
    decreases x
  {
    if x >= 2 {
      BitLengthBounds(x / 2);
    }
  }

  // ---------------------------------------------------------------------
  // ngx_slab_free
  // ---------------------------------------------------------------------

  /** Relink page i at the front of slot list `slot` when it is not on it. */
  function RelinkIfAbsent(s: PoolState, slot: nat, i: nat, absent: bool): seq<seq<nat>>
    requires slot < |s.slots|
  {
    if absent then s.slots[slot := [i] + s.slots[slot]] else s.slots
  }

  /** Chunk c of SMALL page i given back: its bit cleared, the page relinked on its slot list if it had left it. */
  function SmallClear(s: PoolState, i: nat, c: nat): PoolState
    requires Shape(s) && i < NPages(s) && s.role[i] == Small && 3 <= s.slab[i] <= 6
    requires c < 512 && ChunkUsed(s, i, c)
  {
    var slot := s.slab[i] - MinShift;
    var k := i * WordsPerPage + c / WordBits;
    s.(words := s.words[k := ClearBit(s.words[k], c % WordBits)],
       slots := RelinkIfAbsent(s, slot, i, i !in s.slots[slot]))
  }

  /** Whether SMALL page i still has a chunk in use besides its storage chunks. */
  predicate SmallInUse(s: PoolState, i: nat)
    requires Shape(s) && i < NPages(s) && 3 <= s.slab[i] <= 6
  {
    Geometry(s.slab[i]);
    var base := i * WordsPerPage;
    MulMonotone(i + 1, NPages(s), WordsPerPage);
    Shr(MapWord(s, i, 0), StorageChunks(s.slab[i])) != 0
    || FirstNot(s.words, base + 1, base + MapWords(s.slab[i]), 0) < base + MapWords(s.slab[i])
  }

  function FreeSmall(s: PoolState, p: nat): FreeResult
    requires Valid(s) && InPages(s, p) && s.role[PageOf(s, p)] == Small
  {
    var i := PageOf(s, p);
    assert PageOK(s, i);
    var shift := s.slab[i] % 16;
    if p % ChunkSize(shift) != 0 then FreeResult(s, WrongChunk)
    else
      var c := ChunkIndex(OffsetOf(s, p), shift);
      ChunkIndexBound(shift, OffsetOf(s, p));
      if !ChunkUsed(s, i, c) then FreeResult(s, ChunkAlreadyFree)
      else FreeResult(SmallRelease(s, i, c), Released)
  }

  /** A used chunk of SMALL page i given back; the page itself goes back to the free runs once no data chunk is in use. */
  function SmallRelease(s: PoolState, i: nat, c: nat): PoolState
    requires Shape(s) && i < NPages(s) && s.role[i] == Small && 3 <= s.slab[i] <= 6
    requires c < 512 && ChunkUsed(s, i, c)
  {
    var s1 := SmallClear(s, i, c);
    if SmallInUse(s1, i) then s1 else FreePagesSpec(s1, i, 1)
  }

  /** Chunk c of EXACT page i given back: its bit cleared, the page relinked if it was full. */
  function ExactClear(s: PoolState, i: nat, c: nat): PoolState
    requires Shape(s) && i < NPages(s) && s.role[i] == Exact && Bit(s.slab[i], c)
  {
    s.(slab := s.slab[i := ClearBit(s.slab[i], c)],
       slots := RelinkIfAbsent(s, ExactShift - MinShift, i, s.slab[i] == BUSY))
  }

  function FreeExact(s: PoolState, p: nat): FreeResult
    requires Valid(s) && InPages(s, p) && s.role[PageOf(s, p)] == Exact
  {
    var i := PageOf(s, p);
    var c := OffsetOf(s, p) / ExactSize;
    if p % ExactSize != 0 then FreeResult(s, WrongChunk)
    else if !Bit(s.slab[i], c) then FreeResult(s, ChunkAlreadyFree)
    else
      var s1 := ExactClear(s, i, c);
      if s1.slab[i] != 0 then FreeResult(s1, Released)
      else FreeResult(FreePagesSpec(s1, i, 1), Released)
  }

  /** Chunk c of BIG page i given back: its map bit cleared, the page relinked if it had left its slot list. */
  function BigClear(s: PoolState, i: nat, c: nat): PoolState
    requires Shape(s) && i < NPages(s) && s.role[i] == Big && IsChunkShift(s.slab[i] % 16)
    requires Bit(BigMap(s.slab[i]), c)
  {
    var slot := s.slab[i] % 16 - MinShift;
    ClearBitGe(BigMap(s.slab[i]), c);
    s.(slab := s.slab[i := s.slab[i] - 0x1_0000 * Pow2(c)],
       slots := RelinkIfAbsent(s, slot, i, i !in s.slots[slot]))
  }

  function FreeBig(s: PoolState, p: nat): FreeResult
    requires Valid(s) && InPages(s, p) && s.role[PageOf(s, p)] == Big
  {
    var i := PageOf(s, p);
    assert PageOK(s, i);
    var shift := s.slab[i] % 16;
    if p % ChunkSize(shift) != 0 then FreeResult(s, WrongChunk)
    else
      var c := ChunkIndex(OffsetOf(s, p), shift);
      if !Bit(BigMap(s.slab[i]), c) then FreeResult(s, ChunkAlreadyFree)
      else
        var s1 := BigClear(s, i, c);
        if BigMap(s1.slab[i]) != 0 then FreeResult(s1, Released)
        else FreeResult(FreePagesSpec(s1, i, 1), Released)
  }

  function FreePage(s: PoolState, p: nat): FreeResult
    requires Valid(s) && InPages(s, p) && s.role[PageOf(s, p)] == PageRole
  {
    var i := PageOf(s, p);
    assert PageOK(s, i);
    if OffsetOf(s, p) != 0 then FreeResult(s, WrongChunk)
    else if s.slab[i] < PAGE_START then FreeResult(s, PageAlreadyFree)
    else if s.slab[i] == PAGE_BUSY then FreeResult(s, WrongPage)
    else FreeResult(FreePagesSpec(s, i, s.slab[i] - PAGE_START), Released)
  }

  function FreeSpec(s: PoolState, p: nat): FreeResult
    requires Valid(s)
  {
    if !InPages(s, p) then FreeResult(s, OutsideOfPool)
    else
      match s.role[PageOf(s, p)]
      case Small => FreeSmall(s, p)
      case Exact => FreeExact(s, p)
      case Big => FreeBig(s, p)
      case PageRole => FreePage(s, p)
  }
}
