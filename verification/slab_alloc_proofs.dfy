/**
 * Properties of ngx_slab_alloc: it keeps the pool well formed, the address
 * it returns is a block that was not live and now is, at least as large as
 * the request, and no other block changes; it returns 0 only when the slot
 * list of the request's shift is empty and no free run is long enough, and
 * then nothing changes.
 */
module SlabAllocProofs {
  import opened SlabTypes
  import opened SlabState
  import opened SlabOps
  import opened SlabFrame
  import opened SlabPageProofs

  // ---------------------------------------------------------------------
  // Addresses
  // ---------------------------------------------------------------------

  /** The address of byte off of page i, and back. */
  lemma PageAddr(s: PoolState, i: nat, off: nat)
    requires Shape(s) && i < NPages(s) && off < PageSize
    ensures InPages(s, s.start + i * PageSize + off)
    ensures PageOf(s, s.start + i * PageSize + off) == i
    ensures OffsetOf(s, s.start + i * PageSize + off) == off
  {
    MulMonotone(i + 1, NPages(s), PageSize);
  }

  /** Searching from `from` when every position before k holds v. */
  lemma FirstNotAt(ws: seq<nat>, from: nat, k: nat, to: nat, v: nat)
    requires from <= k < to <= |ws|
    requires forall j :: from <= j < k ==> ws[j] == v
    ensures FirstNot(ws, from, to, v) == if ws[k] != v then k else FirstNot(ws, k + 1, to, v)
  {
    var r := FirstNot(ws, from, to, v);
    var r2 := FirstNot(ws, k + 1, to, v);
    assert r < to ==> ws[r] != v;
    assert r2 < to ==> ws[r2] != v;
    assert k < r ==> ws[k] == v;
  }

  // ---------------------------------------------------------------------
  // One page changes: the pool stays well formed
  // ---------------------------------------------------------------------

  /**
   * Handing out a chunk of page i: only page i changes, it stays well formed
   * with the same shift, and it leaves its slot list exactly when it has no
   * free chunk left.
   */
  lemma InPageStepValid(s: PoolState, t: PoolState, i: nat, full: bool)
    requires Valid(s) && i < NPages(s) && IsChunkPage(s, i) && HasFree(s, i)
    requires SameOutside(s, t, i, i + 1) && t.free == s.free
    requires IsChunkShift(PageChunkShift(s, i))
    requires t.slots == UnlinkIfFull(s, PageChunkShift(s, i) - MinShift, i, full)
    requires t.role[i] == s.role[i] && PageChunkShift(t, i) == PageChunkShift(s, i)
    requires PageOK(t, i) && (HasFree(t, i) <==> !full)
    ensures Valid(t)
  {
    var slot := PageChunkShift(s, i) - MinShift;
    assert i in s.slots[slot];
    forall x | 0 <= x < NPages(t)
      ensures PageOK(t, x)
    {
      if x != i {
        FramePageOK(s, t, i, i + 1, x);
      }
    }
    FrameFreeList(s, t, i, i + 1);
    forall k | 0 <= k < SlotCount
      ensures Distinct(t.slots[k])
    {
      assert SlotOK(s, k);
      if full && k == slot {
        DistinctWithout(s.slots[k], i);
      }
    }
    forall k | 0 <= k < SlotCount
      ensures i in t.slots[k] <==> IsChunkPage(t, i) && HasFree(t, i) && k == PageChunkShift(t, i) - MinShift
    {
      assert SlotOK(s, k);
    }
    FrameSlots(s, t, i);
  }

  // ---------------------------------------------------------------------
  // One chunk changes: the live blocks
  // ---------------------------------------------------------------------

  /** The block at chunk c of chunk page i, when it counts as a block at all. */
  predicate ChunkBlock(s: PoolState, i: nat, c: nat)
    requires Shape(s) && i < NPages(s) && IsChunkPage(s, i)
  {
    && IsChunkShift(PageChunkShift(s, i))
    && c < ChunksPerPage(PageChunkShift(s, i))
    && (s.role[i] == Small ==> c >= StorageChunks(PageChunkShift(s, i)))
  }

  function ChunkAddr(s: PoolState, i: nat, c: nat): nat
    requires Shape(s) && i < NPages(s) && IsChunkPage(s, i) && IsChunkShift(PageChunkShift(s, i))
  {
    s.start + i * PageSize + c * ChunkSize(PageChunkShift(s, i))
  }

  /** Another block on page i itself: its chunk is not c, so its occupancy bit is unchanged. */
  lemma SamePageOtherChunk(s: PoolState, t: PoolState, i: nat, c: nat, q: nat)
    requires SameOutside(s, t, i, i + 1) && i < NPages(s) && IsChunkPage(s, i)
    requires t.role[i] == s.role[i] && PageChunkShift(t, i) == PageChunkShift(s, i)
    requires IsChunkShift(PageChunkShift(s, i)) && c < ChunksPerPage(PageChunkShift(s, i))
    requires forall d :: 0 <= d < 512 && d != c ==> ChunkUsed(t, i, d) == ChunkUsed(s, i, d)
    requires q != ChunkAddr(s, i, c) && InPages(s, q) && PageOf(s, q) == i
    ensures Live(t, q) == Live(s, q)
  {
    var shift := PageChunkShift(s, i);
    var cs := ChunkSize(shift);
    Geometry(shift);
    ChunkOffset(shift, c);
    var off := OffsetOf(s, q);
    ChunkIndexBound(shift, off);
    assert q == s.start + i * PageSize + off;
    ChunkIndexDiffers(cs, off, c);
    assert InPages(t, q) && PageOf(t, q) == i && OffsetOf(t, q) == off;
    if off % cs == 0 {
      assert ChunkUsed(t, i, off / cs) == ChunkUsed(s, i, off / cs);
    }
  }

  /** A block on page i other than chunk c reads the same when only chunk c changed. */
  lemma OtherChunkLive(s: PoolState, t: PoolState, i: nat, c: nat, q: nat)
    requires SameOutside(s, t, i, i + 1) && i < NPages(s) && IsChunkPage(s, i)
    requires t.role[i] == s.role[i] && PageChunkShift(t, i) == PageChunkShift(s, i)
    requires IsChunkShift(PageChunkShift(s, i)) && c < ChunksPerPage(PageChunkShift(s, i))
    requires forall d :: 0 <= d < 512 && d != c ==> ChunkUsed(t, i, d) == ChunkUsed(s, i, d)
    requires q != ChunkAddr(s, i, c)
    ensures Live(t, q) == Live(s, q)
  {
    if InPages(s, q) {
      if PageOf(s, q) != i {
        FrameLive(s, t, i, i + 1, q);
      } else {
        SamePageOtherChunk(s, t, i, c, q);
      }
    }
  }

  /** The block at chunk c of page i. */
  lemma ChunkAddrFacts(s: PoolState, i: nat, c: nat)
    requires Shape(s) && i < NPages(s) && IsChunkPage(s, i)
    requires IsChunkShift(PageChunkShift(s, i)) && c < ChunksPerPage(PageChunkShift(s, i))
    ensures c < 512
    ensures InPages(s, ChunkAddr(s, i, c)) && PageOf(s, ChunkAddr(s, i, c)) == i
    ensures OffsetOf(s, ChunkAddr(s, i, c)) % ChunkSize(PageChunkShift(s, i)) == 0
    ensures OffsetOf(s, ChunkAddr(s, i, c)) / ChunkSize(PageChunkShift(s, i)) == c
  {
    var shift := PageChunkShift(s, i);
    Geometry(shift);
    ChunkOffset(shift, c);
    PageAddr(s, i, c * ChunkSize(shift));
  }

  /**
   * When only chunk c of page i changes occupancy, from free to used, the
   * block at c becomes live and every other block keeps its state.
   */
  lemma ChunkSetLive(s: PoolState, t: PoolState, i: nat, c: nat)
    requires SameOutside(s, t, i, i + 1) && i < NPages(s) && IsChunkPage(s, i)
    requires t.role[i] == s.role[i] && PageChunkShift(t, i) == PageChunkShift(s, i)
    requires ChunkBlock(s, i, c) && c < 512 && !ChunkUsed(s, i, c)
    requires forall d :: 0 <= d < 512 ==> ChunkUsed(t, i, d) == (d == c || ChunkUsed(s, i, d))
    ensures InPages(s, ChunkAddr(s, i, c)) && PageOf(s, ChunkAddr(s, i, c)) == i
    ensures Live(t, ChunkAddr(s, i, c)) && !Live(s, ChunkAddr(s, i, c))
    ensures Extent(t, ChunkAddr(s, i, c)) == ChunkSize(PageChunkShift(s, i))
    ensures forall q :: q != ChunkAddr(s, i, c) ==> Live(t, q) == Live(s, q)
  {
    ChunkAddrFacts(s, i, c);
    Geometry(PageChunkShift(s, i));
    forall q | q != ChunkAddr(s, i, c)
      ensures Live(t, q) == Live(s, q)
    {
      OtherChunkLive(s, t, i, c, q);
    }
  }

  /**
   * When only chunk c of page i changes occupancy, from used to free, the
   * block at c is no longer live and every other block keeps its state.
   */
  lemma ChunkClearLive(s: PoolState, t: PoolState, i: nat, c: nat)
    requires SameOutside(s, t, i, i + 1) && i < NPages(s) && IsChunkPage(s, i)
    requires t.role[i] == s.role[i] && PageChunkShift(t, i) == PageChunkShift(s, i)
    requires IsChunkShift(PageChunkShift(s, i)) && c < ChunksPerPage(PageChunkShift(s, i))
    requires forall d :: 0 <= d < 512 ==> ChunkUsed(t, i, d) == (d != c && ChunkUsed(s, i, d))
    ensures InPages(s, ChunkAddr(s, i, c)) && PageOf(s, ChunkAddr(s, i, c)) == i
    ensures !Live(t, ChunkAddr(s, i, c))
    ensures forall q :: q != ChunkAddr(s, i, c) ==> Live(t, q) == Live(s, q)
  {
    ChunkAddrFacts(s, i, c);
    forall q | q != ChunkAddr(s, i, c)
      ensures Live(t, q) == Live(s, q)
    {
      OtherChunkLive(s, t, i, c, q);
    }
  }

  // ---------------------------------------------------------------------
  // Handing out a chunk of a page on the slot list
  // ---------------------------------------------------------------------

  /** The pool t differs from s in one newly live block at addr, of the given size. */
  ghost predicate HandedOut(s: PoolState, t: PoolState, addr: nat, size: nat)
    requires Shape(s) && Shape(t)
  {
    && Live(t, addr) && !Live(s, addr)
    && Extent(t, addr) == size
    && (forall q :: q != addr ==> Live(t, q) == Live(s, q))
  }

  lemma AllocExactOK(s: PoolState, i: nat)
    requires Valid(s) && i < NPages(s) && PageOK(s, i) && s.role[i] == Exact && HasFree(s, i)
    ensures Valid(AllocExact(s, i).state) && AllocExact(s, i).state.free == s.free
    ensures HandedOut(s, AllocExact(s, i).state, AllocExact(s, i).addr, ExactSize)
  {
    var r := AllocExact(s, i);
    var t := r.state;
    var b := AllocExactWord(s, i);
    SameOutsideOne(s, t, i, i * WordsPerPage);
    InPageStepValid(s, t, i, SetBit(s.slab[i], b) == BUSY);
    ExactSetLive(s, t, i, b);
    ExactChunkAddr(s, i, b);
  }

  /** Chunk b of an EXACT page starts b * ExactSize bytes into the page. */
  lemma ExactChunkAddr(s: PoolState, i: nat, b: nat)
    requires Shape(s) && i < NPages(s) && s.role[i] == Exact
    ensures IsChunkPage(s, i) && IsChunkShift(PageChunkShift(s, i))
    ensures ChunkAddr(s, i, b) == s.start + i * PageSize + b * ExactSize
  {
    assert Pow2(7) == 128;
  }

  /** The slab word of an EXACT page after AllocExact: its lowest clear bit b set. */
  lemma AllocExactWord(s: PoolState, i: nat) returns (b: nat)
    requires Shape(s) && i < NPages(s) && PageOK(s, i) && s.role[i] == Exact && HasFree(s, i)
    ensures b < WordBits && !Bit(s.slab[i], b)
    ensures AllocExact(s, i).state == s.(slab := s.slab[i := SetBit(s.slab[i], b)], slots := AllocExact(s, i).state.slots)
    ensures AllocExact(s, i).state.slots == UnlinkIfFull(s, ExactShift - MinShift, i, SetBit(s.slab[i], b) == BUSY)
    ensures AllocExact(s, i).addr == s.start + i * PageSize + b * ExactSize
    ensures Shape(AllocExact(s, i).state) && PageOK(AllocExact(s, i).state, i)
    ensures HasFree(AllocExact(s, i).state, i) <==> SetBit(s.slab[i], b) != BUSY
  {
    var w := s.slab[i];
    NotBusyHasClear(w);
    b := LowestClear(w, 0, WordBits);
    Pow2Word32();
    SetBitBound(w, b, 32);
  }

  /** Setting the clear bit b of an EXACT page's map hands out exactly chunk b. */
  lemma ExactSetLive(s: PoolState, t: PoolState, i: nat, b: nat)
    requires SameOutside(s, t, i, i + 1) && i < NPages(s) && s.role[i] == Exact && t.role[i] == Exact
    requires b < WordBits && !Bit(s.slab[i], b) && t.slab[i] == SetBit(s.slab[i], b)
    ensures HandedOut(s, t, ChunkAddr(s, i, b), ExactSize)
  {
    forall d | 0 <= d < 512
      ensures ChunkUsed(t, i, d) == (d == b || ChunkUsed(s, i, d))
    {
      SetBitBits(s.slab[i], b, d);
    }
    Geometry(ExactShift);
    ChunkSetLive(s, t, i, b);
  }

  /** BIG words: adding to the chunk map in the upper half leaves the shift in the lower half. */
  lemma BigAdd(w: nat, x: nat)
    ensures BigMap(w + 0x1_0000 * x) == BigMap(w) + x
    ensures (w + 0x1_0000 * x) % 0x1_0000 == w % 0x1_0000
    ensures (w + 0x1_0000 * x) % 16 == w % 16
  {
  }

  /** The slab word of a BIG page after AllocBig: bit b of its chunk map set. */
  lemma AllocBigWord(s: PoolState, i: nat) returns (b: nat, w: nat)
    requires Shape(s) && i < NPages(s) && PageOK(s, i) && s.role[i] == Big && HasFree(s, i)
    ensures b == LowestClear(BigMap(s.slab[i]), 0, ChunksPerPage(s.slab[i] % 16))
    ensures b < ChunksPerPage(s.slab[i] % 16) && !Bit(BigMap(s.slab[i]), b)
    ensures AllocBig(s, i).state.slab == s.slab[i := w]
    ensures BigMap(w) == SetBit(BigMap(s.slab[i]), b)
    ensures w % 16 == s.slab[i] % 16 && w % 0x1_0000 == s.slab[i] % 16
    ensures BigMap(w) < Pow2(ChunksPerPage(s.slab[i] % 16))
  {
    var chunks := ChunksPerPage(s.slab[i] % 16);
    AllOnes(BigMap(s.slab[i]), chunks);
    b := LowestClear(BigMap(s.slab[i]), 0, chunks);
    w := s.slab[i] + 0x1_0000 * Pow2(b);
    AllocBigSlab(s, i, b, w);
    BigWordSet(s.slab[i], b, chunks, w);
  }

  /** The slab word AllocBig writes keeps the page a well-formed BIG page. */
  lemma AllocBigPage(s: PoolState, i: nat)
    requires Shape(s) && i < NPages(s) && PageOK(s, i) && s.role[i] == Big && HasFree(s, i)
    requires |AllocBig(s, i).state.slab| == |s.slab|
    requires AllocBig(s, i).state.slab[i] % 16 == s.slab[i] % 16
    requires AllocBig(s, i).state.slab[i] % 0x1_0000 == s.slab[i] % 16
    requires BigMap(AllocBig(s, i).state.slab[i]) < Pow2(ChunksPerPage(s.slab[i] % 16))
    ensures Shape(AllocBig(s, i).state) && PageOK(AllocBig(s, i).state, i)
  {
  }

  /** Besides the slab word, AllocBig changes only the slot lists, and returns the address of chunk b. */
  lemma AllocBigRest(s: PoolState, i: nat, b: nat)
    requires Shape(s) && i < NPages(s) && s.role[i] == Big && HasFree(s, i)
    requires b == LowestClear(BigMap(s.slab[i]), 0, ChunksPerPage(s.slab[i] % 16))
    requires Shape(AllocBig(s, i).state) && AllocBig(s, i).state.slab[i] % 16 == s.slab[i] % 16
    ensures AllocBig(s, i).state == s.(slab := AllocBig(s, i).state.slab, slots := AllocBig(s, i).state.slots)
    ensures AllocBig(s, i).addr == s.start + i * PageSize + b * ChunkSize(s.slab[i] % 16)
    ensures AllocBig(s, i).state.slots ==
              UnlinkIfFull(s, s.slab[i] % 16 - MinShift, i, !HasFree(AllocBig(s, i).state, i))
  {
  }

  /** Setting a clear bit b of a BIG page's chunk map keeps the word a well-formed BIG word. */
  lemma BigWordSet(w: nat, b: nat, chunks: nat, w1: nat)
    requires 8 <= w % 16 <= 11 && w % 0x1_0000 == w % 16
    requires BigMap(w) < Pow2(chunks) && b < chunks && !Bit(BigMap(w), b)
    requires w1 == w + 0x1_0000 * Pow2(b)
    ensures BigMap(w1) == SetBit(BigMap(w), b)
    ensures w1 % 16 == w % 16 && w1 % 0x1_0000 == w % 16
    ensures BigMap(w1) < Pow2(chunks)
  {
    BigAdd(w, Pow2(b));
    SetBitBound(BigMap(w), b, chunks);
  }

  /** AllocBig changes only the page's slab word, by adding bit b of the chunk map. */
  lemma AllocBigSlab(s: PoolState, i: nat, b: nat, w: nat)
    requires Shape(s) && i < NPages(s) && s.role[i] == Big && HasFree(s, i)
    requires b == LowestClear(BigMap(s.slab[i]), 0, ChunksPerPage(s.slab[i] % 16))
    requires w == s.slab[i] + 0x1_0000 * Pow2(b)
    ensures AllocBig(s, i).state.slab == s.slab[i := w]
  {
  }

  lemma AllocBigOK(s: PoolState, i: nat)
    requires Valid(s) && i < NPages(s) && PageOK(s, i) && s.role[i] == Big && HasFree(s, i)
    ensures Valid(AllocBig(s, i).state) && AllocBig(s, i).state.free == s.free
    ensures HandedOut(s, AllocBig(s, i).state, AllocBig(s, i).addr, ChunkSize(s.slab[i] % 16))
  {
    var r := AllocBig(s, i);
    var t := r.state;
    var b, w := AllocBigWord(s, i);
    AllocBigPage(s, i);
    AllocBigRest(s, i, b);
    SameOutsideOne(s, t, i, i * WordsPerPage);
    InPageStepValid(s, t, i, !HasFree(t, i));
    BigSetLive(s, t, i, b);
    assert r.addr == ChunkAddr(s, i, b);
  }

  /** Setting the clear bit b of a BIG page's map hands out exactly chunk b. */
  lemma BigSetLive(s: PoolState, t: PoolState, i: nat, b: nat)
    requires SameOutside(s, t, i, i + 1) && i < NPages(s) && s.role[i] == Big && t.role[i] == Big
    requires IsChunkShift(s.slab[i] % 16) && t.slab[i] % 16 == s.slab[i] % 16
    requires b < ChunksPerPage(s.slab[i] % 16) && !Bit(BigMap(s.slab[i]), b)
    requires BigMap(t.slab[i]) == SetBit(BigMap(s.slab[i]), b)
    ensures HandedOut(s, t, ChunkAddr(s, i, b), ChunkSize(s.slab[i] % 16))
  {
    Geometry(s.slab[i] % 16);
    forall d | 0 <= d < 512
      ensures ChunkUsed(t, i, d) == (d == b || ChunkUsed(s, i, d))
    {
      SetBitBits(BigMap(s.slab[i]), b, d);
    }
    ChunkSetLive(s, t, i, b);
  }

  /** The word and bit AllocSmall picks: bit b of word k, chunk (k - base) * 32 + b. */
  lemma SmallPick(s: PoolState, i: nat) returns (k: nat, b: nat)
    requires Shape(s) && i < NPages(s) && PageOK(s, i) && s.role[i] == Small && HasFree(s, i)
    ensures IsChunkShift(s.slab[i]) && s.slab[i] <= 6 && PageChunkShift(s, i) == s.slab[i]
    ensures i * WordsPerPage <= k < i * WordsPerPage + MapWords(s.slab[i]) && b < WordBits
    ensures k < |s.words|
    ensures k == SmallFirstOpenWord(s, i) && b == LowestClear(s.words[k], 0, WordBits)
    ensures s.words[k] < Word32 && !Bit(s.words[k], b)
    ensures AllocSmall(s, i).state == s.(words := s.words[k := SetBit(s.words[k], b)], slots := AllocSmall(s, i).state.slots)
    ensures AllocSmall(s, i).addr == s.start + i * PageSize + ((k - i * WordsPerPage) * WordBits + b) * ChunkSize(s.slab[i])
  {
    var shift := s.slab[i];
    Geometry(shift);
    SmallShift(s, i);
    var base := i * WordsPerPage;
    k := SmallFirstOpenWord(s, i);
    var w := s.words[k];
    assert w == MapWord(s, i, k - base);
    NotBusyHasClear(w);
    b := LowestClear(w, 0, WordBits);
    MulMonotone(i + 1, NPages(s), WordsPerPage);
    AllocSmallResult(s, i, k, b);
  }

  /** The chunk SmallPick lands on lies past the chunks that hold the bitmap itself. */
  lemma SmallPickBlock(s: PoolState, i: nat, k: nat, b: nat)
    requires Shape(s) && i < NPages(s) && PageOK(s, i) && s.role[i] == Small && HasFree(s, i)
    requires IsChunkShift(s.slab[i]) && s.slab[i] <= 6
    requires i * WordsPerPage <= k < i * WordsPerPage + MapWords(s.slab[i]) && k < |s.words| && b < WordBits
    requires !Bit(s.words[k], b)
    ensures ChunkBlock(s, i, (k - i * WordsPerPage) * WordBits + b)
  {
    var shift := s.slab[i];
    Geometry(shift);
    SmallShift(s, i);
    var base := i * WordsPerPage;
    MapChunkBound(shift, k - base, b);
    var w := s.words[k];
    assert w == MapWord(s, i, k - base);
    assert k == base ==> forall b' :: 0 <= b' < StorageChunks(shift) ==> Bit(w, b');
  }

  /** Bit b of bitmap word j of a SMALL page stands for chunk j * 32 + b, which the page has; past word 0 it is no storage chunk. */
  lemma MapChunkBound(shift: nat, j: nat, b: nat)
    requires 3 <= shift <= 6 && j < MapWords(shift) && b < WordBits
    ensures j * WordBits + b < ChunksPerPage(shift)
    ensures j > 0 ==> j * WordBits + b >= StorageChunks(shift)
  {
    Geometry(shift);
  }

  /** AllocSmall sets bit b of bitmap word k and returns the address of chunk (k - base) * 32 + b. */
  lemma AllocSmallResult(s: PoolState, i: nat, k: nat, b: nat)
    requires Shape(s) && i < NPages(s) && s.role[i] == Small && HasFree(s, i)
    requires k == SmallFirstOpenWord(s, i) && k < |s.words| && b == LowestClear(s.words[k], 0, WordBits)
    ensures AllocSmall(s, i).state == s.(words := s.words[k := SetBit(s.words[k], b)], slots := AllocSmall(s, i).state.slots)
    ensures AllocSmall(s, i).addr == s.start + i * PageSize + ((k - i * WordsPerPage) * WordBits + b) * ChunkSize(s.slab[i])
  {
  }

  /** The SMALL page stays well formed: its bitmap words stay below 2^32 and the storage chunks stay marked. */
  lemma SmallSetPageOK(s: PoolState, i: nat, k: nat, b: nat, t: PoolState)
    requires Shape(s) && i < NPages(s) && PageOK(s, i) && s.role[i] == Small && 3 <= s.slab[i] <= 6
    requires i * WordsPerPage <= k < i * WordsPerPage + MapWords(s.slab[i]) && b < WordBits
    requires k < |s.words|
    requires s.words[k] < Word32 && !Bit(s.words[k], b)
    requires t == s.(words := s.words[k := SetBit(s.words[k], b)], slots := t.slots) && Shape(t)
    ensures PageOK(t, i)
  {
    Geometry(s.slab[i]);
    SmallSetWords(s, i, k, b, t);
    SmallSetStorage(s, i, k, b, t);
    assert SmallMapOK(t, i);
  }

  /** Setting a clear bit keeps every bitmap word of the page below 2^32. */
  lemma SmallSetWords(s: PoolState, i: nat, k: nat, b: nat, t: PoolState)
    requires Shape(s) && i < NPages(s) && PageOK(s, i) && s.role[i] == Small && 3 <= s.slab[i] <= 6
    requires i * WordsPerPage <= k < i * WordsPerPage + MapWords(s.slab[i]) && b < WordBits
    requires k < |s.words|
    requires s.words[k] < Word32 && !Bit(s.words[k], b)
    requires t == s.(words := s.words[k := SetBit(s.words[k], b)], slots := t.slots) && Shape(t)
    ensures forall j :: 0 <= j < MapWords(s.slab[i]) && j < WordsPerPage ==> MapWord(t, i, j) < Word32
  {
    var shift := s.slab[i];
    Geometry(shift);
    Pow2Word32();
    SetBitBound(s.words[k], b, 32);
    forall j | 0 <= j < MapWords(shift) && j < WordsPerPage
      ensures MapWord(t, i, j) < Word32
    {
      assert MapWord(s, i, j) < Word32;
    }
  }

  /** Setting a bit keeps the page's storage chunks marked. */
  lemma SmallSetStorage(s: PoolState, i: nat, k: nat, b: nat, t: PoolState)
    requires Shape(s) && i < NPages(s) && PageOK(s, i) && s.role[i] == Small && 3 <= s.slab[i] <= 6
    requires i * WordsPerPage <= k < i * WordsPerPage + MapWords(s.slab[i]) && b < WordBits
    requires k < |s.words| && !Bit(s.words[k], b)
    requires t == s.(words := s.words[k := SetBit(s.words[k], b)], slots := t.slots) && Shape(t)
    ensures forall b' :: 0 <= b' < StorageChunks(s.slab[i]) ==> Bit(MapWord(t, i, 0), b')
  {
    var shift := s.slab[i];
    Geometry(shift);
    forall b' | 0 <= b' < StorageChunks(shift)
      ensures Bit(MapWord(t, i, 0), b')
    {
      assert Bit(MapWord(s, i, 0), b');
      if k == i * WordsPerPage {
        SetBitBits(s.words[k], b, b');
      }
    }
  }

  /** The SMALL page leaves its slot list exactly when no bitmap word has a clear bit left. */
  lemma SmallSetHasFree(s: PoolState, i: nat, k: nat, b: nat, t: PoolState)
    requires Shape(s) && i < NPages(s) && s.role[i] == Small && 3 <= s.slab[i] <= 6
    requires i * WordsPerPage <= k < i * WordsPerPage + MapWords(s.slab[i])
    requires k == SmallFirstOpenWord(s, i) && PageOK(s, i) && HasFree(s, i) && k < |s.words|
    requires t == AllocSmall(s, i).state == s.(words := s.words[k := SetBit(s.words[k], b)], slots := t.slots)
    requires Shape(t)
    ensures t.slots == UnlinkIfFull(s, s.slab[i] - MinShift, i, !HasFree(t, i))
  {
    var shift := s.slab[i];
    Geometry(shift);
    var base := i * WordsPerPage;
    var mapEnd := base + MapWords(shift);
    FirstNotAt(t.words, base, k, mapEnd, BUSY);
  }

  /** Setting bit b of word k marks exactly chunk (k - base) * 32 + b. */
  lemma SmallSetChunks(s: PoolState, i: nat, k: nat, b: nat, t: PoolState)
    requires Shape(s) && i < NPages(s) && s.role[i] == Small
    requires i * WordsPerPage <= k < i * WordsPerPage + 16 && b < WordBits && k < |s.words|
    requires !Bit(s.words[k], b)
    requires t == s.(words := s.words[k := SetBit(s.words[k], b)], slots := t.slots) && Shape(t)
    ensures (k - i * WordsPerPage) * WordBits + b < 512 && !ChunkUsed(s, i, (k - i * WordsPerPage) * WordBits + b)
    ensures forall d :: 0 <= d < 512 ==>
              ChunkUsed(t, i, d) == (d == (k - i * WordsPerPage) * WordBits + b || ChunkUsed(s, i, d))
  {
    WordIndex(k - i * WordsPerPage, b);
    var base := i * WordsPerPage;
    forall d | 0 <= d < 512
      ensures ChunkUsed(t, i, d) == (d == (k - base) * WordBits + b || ChunkUsed(s, i, d))
    {
      if base + d / WordBits == k {
        SetBitBits(s.words[k], b, d % WordBits);
      }
    }
  }

  /** Setting a clear bit of a SMALL page's bitmap hands out exactly the chunk the bit stands for. */
  lemma SmallStepLive(s: PoolState, i: nat, k: nat, b: nat, t: PoolState)
    requires Shape(s) && i < NPages(s) && s.role[i] == Small
    requires IsChunkShift(s.slab[i]) && s.slab[i] <= 6 && PageChunkShift(s, i) == s.slab[i]
    requires i * WordsPerPage <= k < i * WordsPerPage + 16 && b < WordBits && k < |s.words|
    requires !Bit(s.words[k], b)
    requires ChunkBlock(s, i, (k - i * WordsPerPage) * WordBits + b)
    requires t == s.(words := s.words[k := SetBit(s.words[k], b)], slots := t.slots) && Shape(t)
    ensures HandedOut(s, t, ChunkAddr(s, i, (k - i * WordsPerPage) * WordBits + b), ChunkSize(s.slab[i]))
  {
    SameOutsideOne(s, t, i, k);
    SmallSetChunks(s, i, k, b, t);
    ChunkSetLive(s, t, i, (k - i * WordsPerPage) * WordBits + b);
  }

  /** The same step, with the slot list updated to match, keeps the pool well formed. */
  lemma SmallStepValid(s: PoolState, i: nat, k: nat, b: nat, t: PoolState)
    requires Valid(s) && i < NPages(s) && PageOK(s, i) && s.role[i] == Small && HasFree(s, i)
    requires IsChunkShift(s.slab[i]) && s.slab[i] <= 6 && PageChunkShift(s, i) == s.slab[i]
    requires i * WordsPerPage <= k < i * WordsPerPage + MapWords(s.slab[i]) && b < WordBits && k < |s.words|
    requires s.words[k] < Word32 && !Bit(s.words[k], b)
    requires t == s.(words := s.words[k := SetBit(s.words[k], b)], slots := t.slots) && Shape(t)
    requires t.slots == UnlinkIfFull(s, s.slab[i] - MinShift, i, !HasFree(t, i))
    ensures Valid(t)
  {
    SmallSetPageOK(s, i, k, b, t);
    Geometry(s.slab[i]);
    SameOutsideOne(s, t, i, k);
    InPageStepValid(s, t, i, !HasFree(t, i));
  }

  lemma AllocSmallOK(s: PoolState, i: nat)
    requires Valid(s) && i < NPages(s) && PageOK(s, i) && s.role[i] == Small && HasFree(s, i)
    ensures Valid(AllocSmall(s, i).state) && AllocSmall(s, i).state.free == s.free
    ensures HandedOut(s, AllocSmall(s, i).state, AllocSmall(s, i).addr, ChunkSize(s.slab[i]))
  {
    var r := AllocSmall(s, i);
    var k, b := SmallPick(s, i);
    SmallPickBlock(s, i, k, b);
    SmallSetHasFree(s, i, k, b, r.state);
    Geometry(s.slab[i]);
    SmallStepValid(s, i, k, b, r.state);
    SmallStepLive(s, i, k, b, r.state);
  }

  /** The postcondition AllocInPage meets on a page of chunk shift `shift`. */
  ghost predicate InPageDone(s: PoolState, i: nat, shift: nat)
    requires Valid(s) && i < NPages(s) && HasFree(s, i)
  {
    Valid(AllocInPage(s, i).state) && AllocInPage(s, i).state.free == s.free &&
    HandedOut(s, AllocInPage(s, i).state, AllocInPage(s, i).addr, ChunkSize(shift))
  }

  lemma AllocInPageSmall(s: PoolState, i: nat)
    requires Valid(s) && i < NPages(s) && HasFree(s, i) && s.role[i] == Small
    ensures InPageDone(s, i, PageChunkShift(s, i))
  {
    assert PageOK(s, i);
    AllocSmallOK(s, i);
    assert AllocInPage(s, i) == AllocSmall(s, i);
    SmallShift(s, i);
  }

  /** A SMALL page keeps its chunk shift in the whole slab word. */
  lemma SmallShift(s: PoolState, i: nat)
    requires Shape(s) && i < NPages(s) && s.role[i] == Small && 3 <= s.slab[i] <= 6
    ensures PageChunkShift(s, i) == s.slab[i]
  {
  }

  lemma AllocInPageExact(s: PoolState, i: nat)
    requires Valid(s) && i < NPages(s) && HasFree(s, i) && s.role[i] == Exact
    ensures InPageDone(s, i, PageChunkShift(s, i))
  {
    assert PageOK(s, i);
    AllocExactOK(s, i);
    assert AllocInPage(s, i) == AllocExact(s, i);
  }

  lemma AllocInPageBig(s: PoolState, i: nat)
    requires Valid(s) && i < NPages(s) && HasFree(s, i) && s.role[i] == Big
    ensures InPageDone(s, i, PageChunkShift(s, i))
  {
    assert PageOK(s, i);
    AllocBigOK(s, i);
    assert AllocInPage(s, i) == AllocBig(s, i);
  }

  /** Handing out a chunk of a page that has one keeps the pool well formed and makes exactly one block live. */
  lemma AllocInPageOK(s: PoolState, i: nat)
    requires Valid(s) && i < NPages(s) && HasFree(s, i)
    ensures IsChunkPage(s, i) && IsChunkShift(PageChunkShift(s, i))
    ensures Valid(AllocInPage(s, i).state) && AllocInPage(s, i).state.free == s.free
    ensures HandedOut(s, AllocInPage(s, i).state, AllocInPage(s, i).addr, ChunkSize(PageChunkShift(s, i)))
  {
    ChunkPageShift(s, i);
    if s.role[i] == Small {
      AllocInPageSmall(s, i);
    } else if s.role[i] == Exact {
      AllocInPageExact(s, i);
    } else {
      AllocInPageBig(s, i);
    }
  }

  // ---------------------------------------------------------------------
  // Taking whole pages: the live blocks
  // ---------------------------------------------------------------------

  /** The pages of a run AllocPagesSpec takes from: none live before, only the head after. */
  lemma TakenRunLive(s: PoolState, t: PoolState, h: nat, n: nat, len: nat, q: nat)
    requires Shape(s) && h < NPages(s) && IsFreeHead(s, h) && FreeRun(s, h, len)
    requires RunTaken(s, t, h, n, len)
    requires InPages(s, q) && h <= PageOf(s, q) < h + len
    ensures !Live(s, q)
    ensures Live(t, q) <==> q == s.start + h * PageSize
  {
    var x := PageOf(s, q);
    assert q == s.start + x * PageSize + OffsetOf(s, q);
    PageAddr(s, h, 0);
  }

  /** Taking n pages: the run's head becomes the one new live block, n pages long. */
  lemma AllocPagesLive(s: PoolState, n: nat)
    requires Valid(s) && n >= 1 && AllocPagesSpec(s, n).page.Some?
    ensures AllocPagesSpec(s, n).page.value < NPages(s)
    ensures Valid(AllocPagesSpec(s, n).state)
    ensures HandedOut(s, AllocPagesSpec(s, n).state,
                      s.start + AllocPagesSpec(s, n).page.value * PageSize, n * PageSize)
  {
    var j, h, len := AllocPagesEffect(s, n);
    var t := AllocPagesSpec(s, n).state;
    AllocPagesValid(s, n);
    assert SameOutside(s, t, h, h + len);
    TakenRunHandedOut(s, t, h, n, len);
  }

  /** Taking the first n pages of the free run at h hands out exactly the block at page h. */
  lemma TakenRunHandedOut(s: PoolState, t: PoolState, h: nat, n: nat, len: nat)
    requires Shape(s) && Shape(t) && h < NPages(s) && IsFreeHead(s, h) && FreeRun(s, h, len)
    requires RunTaken(s, t, h, n, len) && SameOutside(s, t, h, h + len)
    ensures HandedOut(s, t, s.start + h * PageSize, n * PageSize)
  {
    var addr := s.start + h * PageSize;
    PageAddr(s, h, 0);
    TakenRunLive(s, t, h, n, len, addr);
    forall q | q != addr
      ensures Live(t, q) == Live(s, q)
    {
      if InPages(s, q) {
        if h <= PageOf(s, q) < h + len {
          TakenRunLive(s, t, h, n, len, q);
        } else {
          FrameLive(s, t, h, h + len, q);
        }
      }
    }
  }

  // ---------------------------------------------------------------------
  // Carving a fresh page
  // ---------------------------------------------------------------------

  /**
   * On a freshly carved page only the chunk c0 handed out and, on a SMALL
   * page, the chunks that hold the bitmap are marked; so c0 is its only
   * live block.
   */
  lemma CarvedLive(t: PoolState, h: nat, c0: nat, q: nat)
    requires Shape(t) && h < NPages(t) && IsChunkPage(t, h) && ChunkBlock(t, h, c0)
    requires t.role[h] == Small ==> PageChunkShift(t, h) <= PageShift && c0 == StorageChunks(PageChunkShift(t, h))
    requires t.role[h] != Small ==> c0 == 0
    requires forall d :: 0 <= d < ChunksPerPage(PageChunkShift(t, h)) ==> (ChunkUsed(t, h, d) <==> d <= c0)
    requires InPages(t, q) && PageOf(t, q) == h
    ensures Live(t, q) <==> q == ChunkAddr(t, h, c0)
  {
    var shift := PageChunkShift(t, h);
    var cs := ChunkSize(shift);
    ChunkAddrFacts(t, h, c0);
    var off := OffsetOf(t, q);
    assert q == t.start + h * PageSize + off;
    if q == ChunkAddr(t, h, c0) {
      assert ChunkUsed(t, h, c0);
    } else if off % cs == 0 {
      ChunkIndexBound(shift, off);
      SameChunk(cs, off, c0 * cs);
      assert ChunkUsed(t, h, off / cs) <==> off / cs < c0;
    }
  }

  /** Carving a page that was an allocated one-page run keeps the pool well formed. */
  lemma CarveValid(u: PoolState, t: PoolState, h: nat, shift: nat)
    requires Valid(u) && h < NPages(u) && IsUsedHead(u, h) && IsChunkShift(shift)
    requires SameOutside(u, t, h, h + 1) && t.free == u.free
    requires u.slots[shift - MinShift] == [] && t.slots == u.slots[shift - MinShift := [h]]
    requires IsChunkPage(t, h) && PageChunkShift(t, h) == shift && PageOK(t, h) && HasFree(t, h)
    ensures Valid(t)
  {
    forall x | 0 <= x < NPages(t)
      ensures PageOK(t, x)
    {
      if x != h {
        FramePageOK(u, t, h, h + 1, x);
      }
    }
    FrameFreeList(u, t, h, h + 1);
    forall k | 0 <= k < SlotCount
      ensures Distinct(t.slots[k]) && h !in u.slots[k]
    {
      assert SlotOK(u, k);
    }
    FrameSlots(u, t, h);
  }

  /** Bit d of the word 1 is set exactly for d = 0. */
  lemma BitsOfOne(d: nat)
    ensures Bit(1, d) == (d == 0)
  {
    LowMaskBits(1, d);
  }

  /** A SMALL page whose map has only its storage chunks and one more chunk marked. */
  lemma FreshSmallPage(t: PoolState, h: nat, shift: nat)
    requires Shape(t) && h < NPages(t) && 3 <= shift <= 6
    requires t.role[h] == Small && t.slab[h] == shift
    requires MapWord(t, h, 0) == LowMask(StorageChunks(shift) + 1)
    requires forall k :: 1 <= k < MapWords(shift) && k < WordsPerPage ==> MapWord(t, h, k) == 0
    ensures PageOK(t, h) && HasFree(t, h)
  {
    Geometry(shift);
    var n := StorageChunks(shift);
    FreshSmallFirstWord(t, h, shift);
    forall k | 0 <= k < MapWords(shift)
      ensures MapWord(t, h, k) < Word32
    {
    }
    forall b | 0 <= b < n
      ensures Bit(MapWord(t, h, 0), b)
    {
      LowMaskBits(n + 1, b);
    }
    FreshSmallHasFree(t, h, shift);
  }

  /** The first bitmap word of such a page marks at most nine chunks. */
  lemma FreshSmallFirstWord(t: PoolState, h: nat, shift: nat)
    requires Shape(t) && h < NPages(t) && 3 <= shift <= 6
    requires MapWord(t, h, 0) == LowMask(StorageChunks(shift) + 1)
    ensures MapWord(t, h, 0) < 512
  {
    Geometry(shift);
    Pow2Monotone(StorageChunks(shift) + 1, 9);
    assert Pow2(9) == 512;
  }

  /** Such a page still has a clear bit in its first bitmap word. */
  lemma FreshSmallHasFree(t: PoolState, h: nat, shift: nat)
    requires Shape(t) && h < NPages(t) && 3 <= shift <= 6
    requires t.role[h] == Small && t.slab[h] == shift
    requires MapWord(t, h, 0) < 512
    ensures HasFree(t, h)
  {
    Geometry(shift);
    var base := h * WordsPerPage;
    FirstNotAt(t.words, base, base, base + MapWords(shift), BUSY);
  }

  /** The chunks such a page has in use: the storage chunks and the one after them. */
  lemma FreshSmallChunks(t: PoolState, h: nat, shift: nat)
    requires Shape(t) && h < NPages(t) && 3 <= shift <= 6
    requires t.role[h] == Small && t.slab[h] == shift
    requires MapWord(t, h, 0) == LowMask(StorageChunks(shift) + 1)
    requires forall k :: 1 <= k < MapWords(shift) && k < WordsPerPage ==> MapWord(t, h, k) == 0
    ensures (Geometry(shift);
             forall d :: 0 <= d < ChunksPerPage(shift) ==> (ChunkUsed(t, h, d) <==> d <= StorageChunks(shift)))
  {
    Geometry(shift);
    var n := StorageChunks(shift);
    forall d | 0 <= d < ChunksPerPage(shift)
      ensures ChunkUsed(t, h, d) <==> d <= n
    {
      if d < WordBits {
        assert d / WordBits == 0 && d % WordBits == d;
        LowMaskBits(n + 1, d);
      } else {
        assert 1 <= d / WordBits < MapWords(shift);
        ShrZero(d % WordBits);
      }
    }
  }

  /** The map words a SMALL carve writes: v at base, zeros after it, nothing else. */
  lemma CarveWords(ws: seq<nat>, base: nat, mw: nat, v: nat, ws1: seq<nat>)
    requires base + mw <= |ws| && 1 <= mw
    requires ws1 == Fill(ws[base := v], base + 1, base + mw, 0)
    ensures |ws1| == |ws| && ws1[base] == v
    ensures forall j :: base < j < base + mw ==> ws1[j] == 0
    ensures forall j :: 0 <= j < |ws| && !(base <= j < base + mw) ==> ws1[j] == ws[j]
  {
  }

  lemma CarveSmallState(u: PoolState, h: nat, shift: nat, t: PoolState)
    requires Shape(u) && h < NPages(u) && IsChunkShift(shift) && RoleOfShift(shift) == Small
    requires t == Carve(u, h, shift).state
    ensures Shape(t) && h < NPages(t)
    ensures SameOutside(u, t, h, h + 1)
    ensures t.free == u.free && t.slots == u.slots[shift - MinShift := [h]]
    ensures t.role[h] == Small && t.slab[h] == shift
    ensures MapWord(t, h, 0) == LowMask(StorageChunks(shift) + 1)
    ensures forall k :: 1 <= k < MapWords(shift) && k < WordsPerPage ==> MapWord(t, h, k) == 0
    ensures Carve(u, h, shift).addr == u.start + h * PageSize + StorageChunks(shift) * ChunkSize(shift)
  {
    Geometry(shift);
    MulMonotone(h + 1, NPages(u), WordsPerPage);
    var base := h * WordsPerPage;
    CarveWords(u.words, base, MapWords(shift), LowMask(StorageChunks(shift) + 1), t.words);
  }

  /**
   * r is page h of u carved into chunks of the given shift, with chunk c0
   * (the first after the storage chunks) handed out.
   */
  ghost predicate Carved(u: PoolState, r: AllocResult, h: nat, shift: nat, c0: nat)
    requires Shape(u) && h < NPages(u) && IsChunkShift(shift)
  {
    var t := r.state;
    && SameOutside(u, t, h, h + 1) && t.free == u.free
    && t.slots == u.slots[shift - MinShift := [h]]
    && IsChunkPage(t, h) && PageChunkShift(t, h) == shift
    && PageOK(t, h) && HasFree(t, h)
    && (t.role[h] == Small ==> c0 == StorageChunks(shift))
    && (t.role[h] != Small ==> c0 == 0)
    && ChunkBlock(t, h, c0) && r.addr == ChunkAddr(t, h, c0)
    && (forall d :: 0 <= d < ChunksPerPage(shift) ==> (ChunkUsed(t, h, d) <==> d <= c0))
  }

  lemma CarveSmall(u: PoolState, h: nat, shift: nat)
    requires Shape(u) && h < NPages(u) && IsChunkShift(shift) && RoleOfShift(shift) == Small
    ensures Carved(u, Carve(u, h, shift), h, shift, StorageChunks(shift))
  {
    Geometry(shift);
    var t := Carve(u, h, shift).state;
    CarveSmallState(u, h, shift, t);
    FreshSmallPage(t, h, shift);
    FreshSmallChunks(t, h, shift);
  }

  lemma CarveExact(u: PoolState, h: nat, shift: nat)
    requires Shape(u) && h < NPages(u) && IsChunkShift(shift) && RoleOfShift(shift) == Exact
    ensures Carved(u, Carve(u, h, shift), h, shift, 0)
  {
    var t := Carve(u, h, shift).state;
    Geometry(shift);
    forall d | 0 <= d < ChunksPerPage(shift)
      ensures ChunkUsed(t, h, d) <==> d <= 0
    {
      BitsOfOne(d);
    }
  }

  lemma CarveBig(u: PoolState, h: nat, shift: nat)
    requires Shape(u) && h < NPages(u) && IsChunkShift(shift) && RoleOfShift(shift) == Big
    ensures Carved(u, Carve(u, h, shift), h, shift, 0)
  {
    var t := Carve(u, h, shift).state;
    Geometry(shift);
    assert BigMap(t.slab[h]) == 1;
    var chunks := ChunksPerPage(shift);
    Pow2Monotone(2, chunks);
    assert Pow2(2) == 4;
    forall d | 0 <= d < ChunksPerPage(shift)
      ensures ChunkUsed(t, h, d) <==> d <= 0
    {
      BitsOfOne(d);
    }
  }

  /** The outcome of a carve, whatever the role of the page. */
  ghost predicate CarveDone(u: PoolState, r: AllocResult, h: nat, shift: nat)
    requires Shape(u) && h < NPages(u) && IsChunkShift(shift)
  {
    && Valid(r.state) && r.state.free == u.free && SameOutside(u, r.state, h, h + 1)
    && Live(r.state, r.addr) && Extent(r.state, r.addr) == ChunkSize(shift)
    && InPages(u, r.addr) && PageOf(u, r.addr) == h
    && (forall q :: InPages(u, q) && PageOf(u, q) == h ==> (Live(r.state, q) <==> q == r.addr))
  }

  lemma CarvedOK(u: PoolState, r: AllocResult, h: nat, shift: nat, c0: nat)
    requires Valid(u) && h < NPages(u) && IsUsedHead(u, h) && IsChunkShift(shift)
    requires u.slots[shift - MinShift] == []
    requires Carved(u, r, h, shift, c0)
    ensures CarveDone(u, r, h, shift)
  {
    var t := r.state;
    CarveValid(u, t, h, shift);
    ChunkAddrFacts(t, h, c0);
    forall q | InPages(u, q) && PageOf(u, q) == h
      ensures Live(t, q) <==> q == r.addr
    {
      CarvedLive(t, h, c0, q);
    }
  }

  /** Carving page h, taken as a one-page run, into chunks of the given shift. */
  lemma CarveOK(u: PoolState, h: nat, shift: nat)
    requires Valid(u) && h < NPages(u) && IsUsedHead(u, h) && IsChunkShift(shift)
    requires u.slots[shift - MinShift] == []
    ensures CarveDone(u, Carve(u, h, shift), h, shift)
  {
    if RoleOfShift(shift) == Small {
      CarveSmall(u, h, shift);
      CarvedOK(u, Carve(u, h, shift), h, shift, StorageChunks(shift));
    } else if RoleOfShift(shift) == Exact {
      CarveExact(u, h, shift);
      CarvedOK(u, Carve(u, h, shift), h, shift, 0);
    } else {
      CarveBig(u, h, shift);
      CarvedOK(u, Carve(u, h, shift), h, shift, 0);
    }
  }

  /** Under the invariant every listed page has a free chunk, so the walk stops at the first. */
  lemma FirstWithFreeHead(s: PoolState, slot: nat)
    requires Valid(s) && slot < SlotCount
    ensures SlotOK(s, slot)
    ensures FirstWithFree(s, slot, 0) < |s.slots[slot]| <==> s.slots[slot] != []
    ensures s.slots[slot] != [] ==> FirstWithFree(s, slot, 0) == 0
  {
    assert SlotOK(s, slot);
    if s.slots[slot] != [] {
      assert s.slots[slot][0] in s.slots[slot];
    }
  }

  /** A head on the free list is not an allocation, nor is anything on its page. */
  lemma FreeHeadNotLive(s: PoolState, h: nat, q: nat)
    requires Shape(s) && h < NPages(s) && IsFreeHead(s, h)
    requires InPages(s, q) && PageOf(s, q) == h
    ensures !Live(s, q)
  {
  }

  /**
   * After taking page h (a free head before) and carving it, a block other
   * than the carved chunk is live exactly when it was before either step.
   */
  lemma FreshOthers(s: PoolState, u: PoolState, t: PoolState, h: nat, a: nat, q: nat)
    requires Shape(s) && h < NPages(s) && IsFreeHead(s, h)
    requires SameOutside(u, t, h, h + 1) && u.start == s.start && NPages(u) == NPages(s)
    requires forall x :: x != s.start + h * PageSize ==> Live(u, x) == Live(s, x)
    requires forall x :: InPages(u, x) && PageOf(u, x) == h ==> (Live(t, x) <==> x == a)
    requires q != a
    ensures Live(t, q) == Live(s, q)
  {
    if InPages(s, q) && PageOf(s, q) == h {
      FreeHeadNotLive(s, h, q);
    } else if InPages(s, q) {
      FrameLive(u, t, h, h + 1, q);
      PageAddr(s, h, 0);
    }
  }

  /** An empty slot list: one page is taken from the free runs and carved; its first chunk is the result. */
  lemma CarveFromFresh(s: PoolState, shift: nat)
    requires Valid(s) && IsChunkShift(shift) && s.slots[shift - MinShift] == []
    requires AllocPagesSpec(s, 1).page.Some?
    ensures var u := AllocPagesSpec(s, 1).state;
      var h := AllocPagesSpec(s, 1).page.value;
      && h < NPages(u) && Shape(u)
      && Valid(Carve(u, h, shift).state)
      && HandedOut(s, Carve(u, h, shift).state, Carve(u, h, shift).addr, ChunkSize(shift))
  {
    var u := AllocPagesSpec(s, 1).state;
    var h := AllocPagesSpec(s, 1).page.value;
    AllocPagesFirstFit(s, 1);
    AllocPagesLive(s, 1);
    assert h in s.free;
    assert u.slots == s.slots;
    CarveOK(u, h, shift);
    FreshHandedOut(s, u, Carve(u, h, shift), h, shift);
  }

  /** Carving page h, a free head of s taken as one page in u, hands out the carved chunk and nothing else. */
  lemma FreshHandedOut(s: PoolState, u: PoolState, r: AllocResult, h: nat, shift: nat)
    requires Shape(s) && Shape(u) && h < NPages(s) && IsFreeHead(s, h) && IsChunkShift(shift)
    requires u.start == s.start && NPages(u) == NPages(s)
    requires forall x :: x != s.start + h * PageSize ==> Live(u, x) == Live(s, x)
    requires CarveDone(u, r, h, shift)
    ensures HandedOut(s, r.state, r.addr, ChunkSize(shift))
  {
    FreeHeadNotLive(s, h, r.addr);
    forall q | q != r.addr
      ensures Live(r.state, q) == Live(s, q)
    {
      FreshOthers(s, u, r.state, h, r.addr, q);
    }
  }

  /** The request cannot be met: no run of enough pages, or (below MaxSize) no listed page and no free page. */
  predicate NoRoom(s: PoolState, size: nat)
    requires Valid(s)
  {
    if size >= MaxSize then forall x :: x in s.free ==> s.slab[x] < PagesFor(size)
    else
      ShiftForBounds(size);
      s.slots[ShiftFor(size) - MinShift] == [] && s.free == []
  }

  /** A free list entry is a run of at least one page. */
  lemma FreeListNonEmpty(s: PoolState)
    requires Valid(s)
    ensures (forall x :: x in s.free ==> s.slab[x] < 1) <==> s.free == []
  {
    if s.free != [] {
      assert s.free[0] in s.free;
    }
  }

  /** The bytes a successful request of size bytes is given. */
  function Granted(size: nat): nat
  {
    if size >= MaxSize then PagesFor(size) * PageSize
    else ChunkSize(ShiftFor(size))
  }

  /** Requests are rounded up to whole pages, or to the next power of two no smaller than MinSize. */
  lemma GrantedBounds(size: nat)
    ensures size <= Granted(size)
    ensures size >= MaxSize ==> Granted(size) < size + PageSize && Granted(size) % PageSize == 0
    ensures MinSize < size < MaxSize ==> Granted(size) < 2 * size
    ensures size <= MinSize ==> Granted(size) == MinSize
  {
    if size < MaxSize {
      ShiftForBounds(size);
      assert Pow2(MinShift) == MinSize;
      if size > MinSize {
        var k := ShiftFor(size);
        assert Pow2(k) == 2 * Pow2(k - 1);
      }
    }
  }

  /** The outcome ngx_slab_alloc promises, for the result r of a request of size bytes. */
  ghost predicate AllocOutcome(s: PoolState, size: nat, r: AllocResult)
    requires Valid(s)
  {
    && Valid(r.state)
    && (r.addr == 0 <==> NoRoom(s, size))
    && (r.addr == 0 ==> r.state == s)
    && (r.addr != 0 ==> HandedOut(s, r.state, r.addr, Granted(size)))
  }

  lemma AllocLarge(s: PoolState, size: nat)
    requires Valid(s) && size >= MaxSize
    ensures AllocOutcome(s, size, AllocSpec(s, size))
  {
    var n := PagesFor(size);
    assert AllocSpec(s, size) == WholePagesSpec(s, n);
    if AllocPagesSpec(s, n).page.Some? {
      LargeGranted(s, size);
    } else {
      LargeRefused(s, size);
    }
  }

  /** A run of enough pages exists: its first page is handed out, n pages long. */
  lemma LargeGranted(s: PoolState, size: nat)
    requires Valid(s) && size >= MaxSize && AllocPagesSpec(s, PagesFor(size)).page.Some?
    ensures AllocOutcome(s, size, WholePagesSpec(s, PagesFor(size)))
  {
    AllocPagesLive(s, PagesFor(size));
    WholeGranted(s, PagesFor(size));
    assert Granted(size) == PagesFor(size) * PageSize;
    LargeRoom(s, size);
  }

  /** WholePagesSpec returns the run AllocPagesSpec hands out, at its first page's address. */
  lemma WholeGranted(s: PoolState, n: nat)
    requires Valid(s) && n >= 1 && AllocPagesSpec(s, n).page.Some?
    ensures WholePagesSpec(s, n) == AllocResult(AllocPagesSpec(s, n).state, s.start + AllocPagesSpec(s, n).page.value * PageSize)
    ensures WholePagesSpec(s, n).addr != 0
  {
  }

  /** The run AllocPagesSpec finds is a free run long enough for the request. */
  lemma LargeRoom(s: PoolState, size: nat)
    requires Valid(s) && size >= MaxSize && AllocPagesSpec(s, PagesFor(size)).page.Some?
    ensures !NoRoom(s, size)
  {
    AllocPagesFirstFit(s, PagesFor(size));
  }

  /** No run is long enough: NULL, and the pool is unchanged. */
  lemma LargeRefused(s: PoolState, size: nat)
    requires Valid(s) && size >= MaxSize && AllocPagesSpec(s, PagesFor(size)).page.None?
    ensures AllocOutcome(s, size, WholePagesSpec(s, PagesFor(size)))
  {
    var n := PagesFor(size);
    AllocPagesFirstFit(s, n);
    assert NoRoom(s, size);
  }

  /** With a page on the slot list ngx_slab_alloc hands out a chunk of the first listed page. */
  lemma AllocListedPath(s: PoolState, shift: nat)
    requires Valid(s) && IsChunkShift(shift) && s.slots[shift - MinShift] != []
    ensures var i := s.slots[shift - MinShift][0];
      && i < NPages(s) && HasFree(s, i) && PageChunkShift(s, i) == shift
      && ChunkSpec(s, shift) == AllocInPage(s, i)
  {
    var slot := shift - MinShift;
    FirstWithFreeHead(s, slot);
    assert s.slots[slot][0] in s.slots[slot];
  }

  lemma AllocListed(s: PoolState, size: nat)
    requires Valid(s) && size < MaxSize
    requires (ShiftForBounds(size); s.slots[ShiftFor(size) - MinShift] != [])
    ensures AllocOutcome(s, size, AllocSpec(s, size))
  {
    ShiftForBounds(size);
    var shift := ShiftFor(size);
    var i := s.slots[shift - MinShift][0];
    AllocListedPath(s, shift);
    AllocInPageOK(s, i);
    var r := AllocSpec(s, size);
    assert r == AllocInPage(s, i);
    assert !NoRoom(s, size) && Granted(size) == ChunkSize(shift);
  }

  /** With an empty slot list ngx_slab_alloc takes one page and carves it. */
  lemma AllocFreshPath(s: PoolState, shift: nat)
    requires Valid(s) && IsChunkShift(shift) && s.slots[shift - MinShift] == []
    ensures AllocPagesSpec(s, 1).page.None? ==> ChunkSpec(s, shift) == AllocResult(s, 0)
    ensures AllocPagesSpec(s, 1).page.Some? ==>
              var u := AllocPagesSpec(s, 1).state;
              var h := AllocPagesSpec(s, 1).page.value;
              h < NPages(u) && Shape(u) && ChunkSpec(s, shift) == Carve(u, h, shift)
  {
    FirstWithFreeHead(s, shift - MinShift);
    AllocPagesFirstFit(s, 1);
  }

  lemma AllocFresh(s: PoolState, size: nat)
    requires Valid(s) && size < MaxSize
    requires (ShiftForBounds(size); s.slots[ShiftFor(size) - MinShift] == [])
    ensures AllocOutcome(s, size, AllocSpec(s, size))
  {
    ShiftForBounds(size);
    AllocFreshPath(s, ShiftFor(size));
    AllocPagesFirstFit(s, 1);
    FreeListNonEmpty(s);
    if AllocPagesSpec(s, 1).page.Some? {
      CarveFromFresh(s, ShiftFor(size));
    }
  }

  /**
   * ngx_slab_alloc: NULL exactly when there is no room, and then nothing
   * changes; otherwise one new block of Granted(size) bytes is handed out
   * and every other block stays as it was.
   */
  lemma AllocCorrect(s: PoolState, size: nat)
    requires Valid(s)
    ensures var r := AllocSpec(s, size);
      && Valid(r.state)
      && (r.addr == 0 <==> NoRoom(s, size))
      && (r.addr == 0 ==> r.state == s)
      && (r.addr != 0 ==> HandedOut(s, r.state, r.addr, Granted(size)) && size <= Granted(size))
  {
    GrantedBounds(size);
    if size >= MaxSize {
      AllocLarge(s, size);
    } else {
      ShiftForBounds(size);
      if s.slots[ShiftFor(size) - MinShift] != [] {
        AllocListed(s, size);
      } else {
        AllocFresh(s, size);
      }
    }
  }
}
