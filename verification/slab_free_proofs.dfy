/**
 * ngx_slab_free proved against the pool invariant: a pointer is released
 * exactly when it is a live block (or one of a SMALL page's own bitmap
 * chunks, which the function does not check), every other call changes
 * nothing, and releasing a live block keeps the pool well formed and makes
 * exactly that block free.
 */
module SlabFreeProofs {
  import opened SlabTypes
  import opened SlabState
  import opened SlabOps
  import opened SlabFrame
  import opened SlabPageProofs
  import opened SlabAllocProofs

  /** p is the address of one of the chunks at the start of a SMALL page that hold its bitmap. */
  predicate StoragePointer(s: PoolState, p: nat)
    requires Shape(s)
  {
    && InPages(s, p)
    && s.role[PageOf(s, p)] == Small
    && var shift := PageChunkShift(s, PageOf(s, p));
       && shift <= PageShift
       && OffsetOf(s, p) % ChunkSize(shift) == 0
       && OffsetOf(s, p) / ChunkSize(shift) < StorageChunks(shift)
  }

  /** Block p was live in s and is free in t; every other block is as it was. */
  ghost predicate GivenBack(s: PoolState, t: PoolState, p: nat)
    requires Shape(s) && Shape(t)
  {
    && Live(s, p) && !Live(t, p)
    && (forall q :: q != p ==> Live(t, q) == Live(s, q))
  }

  /** t is a well-formed pool in which block p, live in s, has been given back. */
  ghost predicate Freed(s: PoolState, t: PoolState, p: nat)
    requires Shape(s)
  {
    Valid(t) && GivenBack(s, t, p) && !StoragePointer(t, p)
  }

  /** No block on page i is live. */
  ghost predicate NoLiveOn(s: PoolState, i: nat)
    requires Shape(s)
  {
    forall q :: InPages(s, q) && PageOf(s, q) == i ==> !Live(s, q)
  }

  // ---------------------------------------------------------------------
  // Giving pages back
  // ---------------------------------------------------------------------

  /** Pages [h, h + n) given back hold no block afterwards; other pages are untouched. */
  lemma FreePagesLive(s: PoolState, h: nat, n: nat)
    requires Shape(s) && h < NPages(s) && 1 <= n && h + n <= NPages(s) && n < PAGE_START
    ensures SameOutside(s, FreePagesSpec(s, h, n), h, h + n)
    ensures forall q :: InPages(s, q) && h <= PageOf(s, q) < h + n ==> !Live(FreePagesSpec(s, h, n), q)
    ensures forall q :: InPages(s, q) && !(h <= PageOf(s, q) < h + n) ==>
              Live(FreePagesSpec(s, h, n), q) == Live(s, q)
  {
    var t := FreePagesSpec(s, h, n);
    assert SameOutside(s, t, h, h + n);
    forall q | InPages(s, q) && !(h <= PageOf(s, q) < h + n)
      ensures Live(t, q) == Live(s, q)
    {
      FrameLive(s, t, h, h + n, q);
    }
  }

  /**
   * A chunk page left with no block after its chunk p was given back is
   * itself given back as a one-page free run, and still only p changed.
   */
  lemma EmptyPageRelease(s: PoolState, s1: PoolState, i: nat, p: nat)
    requires Shape(s) && Freed(s, s1, p) && s1.start == s.start && NPages(s1) == NPages(s)
    requires InPages(s, p) && PageOf(s, p) == i && IsChunkPage(s1, i) && NoLiveOn(s1, i)
    ensures Freed(s, FreePagesSpec(s1, i, 1), p)
  {
    var t := FreePagesSpec(s1, i, 1);
    FreePagesValid(s1, i, 1);
    FreePagesLive(s1, i, 1);
    forall q | q != p
      ensures Live(t, q) == Live(s, q)
    {
      if InPages(s, q) && PageOf(s, q) != i {
        assert Live(t, q) == Live(s1, q);
      }
    }
    assert t.role[i] == PageRole;
  }

  // ---------------------------------------------------------------------
  // Relinking a chunk page
  // ---------------------------------------------------------------------

  /** Page i back on the slot list of its shift: the slot lists stay well formed. */
  lemma RelinkSlots(s: PoolState, t: PoolState, i: nat)
    requires Valid(s) && i < NPages(s) && IsChunkPage(s, i) && IsChunkShift(PageChunkShift(s, i))
    requires SameOutside(s, t, i, i + 1)
    requires t.role[i] == s.role[i] && PageChunkShift(t, i) == PageChunkShift(s, i) && HasFree(t, i)
    requires var slot := PageChunkShift(s, i) - MinShift;
             t.slots == RelinkIfAbsent(s, slot, i, i !in s.slots[slot])
    ensures AllSlotsOK(t) && SlotsComplete(t)
  {
    var slot := PageChunkShift(s, i) - MinShift;
    forall k | 0 <= k < SlotCount
      ensures Distinct(t.slots[k])
      ensures i in t.slots[k] <==> k == slot
    {
      assert SlotOK(s, k);
      if k == slot && i !in s.slots[slot] {
        DistinctCons(i, s.slots[slot]);
      }
    }
    FrameSlots(s, t, i);
  }

  /** Clearing a chunk of page i and relinking the page keeps the pool well formed. */
  lemma RelinkStepValid(s: PoolState, t: PoolState, i: nat)
    requires Valid(s) && i < NPages(s) && IsChunkPage(s, i) && IsChunkShift(PageChunkShift(s, i))
    requires SameOutside(s, t, i, i + 1) && t.free == s.free
    requires t.role[i] == s.role[i] && PageChunkShift(t, i) == PageChunkShift(s, i)
    requires PageOK(t, i) && HasFree(t, i)
    requires var slot := PageChunkShift(s, i) - MinShift;
             t.slots == RelinkIfAbsent(s, slot, i, i !in s.slots[slot])
    ensures Valid(t)
  {
    forall x | 0 <= x < NPages(t)
      ensures PageOK(t, x)
    {
      if x != i {
        FramePageOK(s, t, i, i + 1, x);
      }
    }
    FrameFreeList(s, t, i, i + 1);
    RelinkSlots(s, t, i);
  }

  // ---------------------------------------------------------------------
  // Pointers into a chunk page
  // ---------------------------------------------------------------------

  /** A pointer into a chunk page: its alignment is its offset's, and an aligned one is a chunk's address. */
  lemma ChunkPointer(s: PoolState, p: nat)
    requires Shape(s) && InPages(s, p) && IsChunkPage(s, PageOf(s, p))
    requires IsChunkShift(PageChunkShift(s, PageOf(s, p)))
    ensures var shift := PageChunkShift(s, PageOf(s, p));
            var off := OffsetOf(s, p);
            (ChunkIndexBound(shift, off);
             && p % ChunkSize(shift) == off % ChunkSize(shift)
             && off / ChunkSize(shift) < ChunksPerPage(shift) <= 512
             && (off % ChunkSize(shift) == 0 ==> p == ChunkAddr(s, PageOf(s, p), off / ChunkSize(shift))))
  {
    var i := PageOf(s, p);
    var shift := PageChunkShift(s, i);
    var cs := ChunkSize(shift);
    var off := OffsetOf(s, p);
    Geometry(shift);
    AddrMod(s.start, p - s.start, cs, ChunksPerPage(shift));
    ChunkIndexBound(shift, off);
    if off % cs == 0 {
      ChunkMultiple(cs, off);
      assert p == s.start + i * PageSize + off;
    }
  }

  // ---------------------------------------------------------------------
  // SMALL pages
  // ---------------------------------------------------------------------

  /** What Live and StoragePointer say about a pointer into a SMALL page, in terms of its chunk index. */
  lemma SmallPointer(s: PoolState, p: nat) returns (c: nat)
    requires Valid(s) && InPages(s, p) && s.role[PageOf(s, p)] == Small
    ensures 3 <= s.slab[PageOf(s, p)] <= 6 && s.slab[PageOf(s, p)] % 16 == s.slab[PageOf(s, p)]
    ensures p % ChunkSize(s.slab[PageOf(s, p)]) == OffsetOf(s, p) % ChunkSize(s.slab[PageOf(s, p)])
    ensures c == OffsetOf(s, p) / ChunkSize(s.slab[PageOf(s, p)]) && c < 512
    ensures Live(s, p) == (p % ChunkSize(s.slab[PageOf(s, p)]) == 0 && ChunkUsed(s, PageOf(s, p), c)
                           && c >= StorageChunks(s.slab[PageOf(s, p)]))
    ensures StoragePointer(s, p) == (p % ChunkSize(s.slab[PageOf(s, p)]) == 0 && c < StorageChunks(s.slab[PageOf(s, p)]))
    ensures c < StorageChunks(s.slab[PageOf(s, p)]) ==> ChunkUsed(s, PageOf(s, p), c)
    ensures Live(s, p) ==> ChunkBlock(s, PageOf(s, p), c) && p == ChunkAddr(s, PageOf(s, p), c)
  {
    var i := PageOf(s, p);
    assert PageOK(s, i);
    var shift := s.slab[i];
    assert PageChunkShift(s, i) == shift;
    SmallGeometry(shift);
    ChunkPointer(s, p);
    c := ChunkIndex(OffsetOf(s, p), shift);
    if c < StorageChunks(shift) {
      assert Bit(MapWord(s, i, 0), c);
      assert c / WordBits == 0 && c % WordBits == c;
    }
  }

  /** On a SMALL page, free releases exactly the live chunks and the bitmap's own chunks. */
  lemma FreeSmallOutcome(s: PoolState, p: nat)
    requires Valid(s) && InPages(s, p) && s.role[PageOf(s, p)] == Small
    ensures (FreeSmall(s, p).outcome == Released) == (Live(s, p) || StoragePointer(s, p))
    ensures FreeSmall(s, p).outcome != Released ==> FreeSmall(s, p).state == s
  {
    var c := SmallPointer(s, p);
  }

  /**
   * t is s with bit c of SMALL page i's bitmap cleared: word k of the page
   * words is the only one that changes.
   */
  predicate SmallBitCleared(s: PoolState, t: PoolState, i: nat, c: nat, k: nat)
    requires Shape(s) && Shape(t) && i < NPages(s) && c < 512
  {
    && t.start == s.start && t.end == s.end && t.slab == s.slab && t.role == s.role
    && k == i * WordsPerPage + c / WordBits && k < |s.words|
    && Bit(s.words[k], c % WordBits)
    && t.words == s.words[k := ClearBit(s.words[k], c % WordBits)]
  }

  /** Clearing a bit keeps a SMALL page's bitmap well formed when the bit is not a storage chunk's. */
  lemma SmallClearMapOK(s: PoolState, t: PoolState, i: nat, c: nat, k: nat)
    requires Shape(s) && Shape(t) && i < NPages(s) && s.role[i] == Small && 3 <= s.slab[i] <= 6
    requires SmallMapOK(s, i) && c < 512 && StorageChunks(s.slab[i]) <= c < ChunksPerPage(s.slab[i])
    requires SmallBitCleared(s, t, i, c, k)
    ensures SmallMapOK(t, i) && PageOK(t, i)
  {
    var shift := s.slab[i];
    SmallGeometry(shift);
    WordOfChunk(shift, c);
    var w := s.words[k];
    assert w == MapWord(s, i, c / WordBits) < Word32;
    forall j | 0 <= j < MapWords(shift)
      ensures MapWord(t, i, j) < Word32
    {
      assert MapWord(s, i, j) < Word32;
    }
    forall b | 0 <= b < StorageChunks(shift)
      ensures Bit(MapWord(t, i, 0), b)
    {
      assert Bit(MapWord(s, i, 0), b);
      if c / WordBits == 0 {
        ClearBitBits(w, c % WordBits, b);
      }
    }
  }

  /** A SMALL page with a bit just cleared in its bitmap has a free chunk. */
  lemma SmallClearHasFree(s: PoolState, t: PoolState, i: nat, c: nat, k: nat)
    requires Shape(s) && Shape(t) && i < NPages(s) && s.role[i] == Small && 3 <= s.slab[i] <= 6
    requires SmallMapOK(s, i) && c < 512 && c < ChunksPerPage(s.slab[i])
    requires SmallBitCleared(s, t, i, c, k)
    ensures HasFree(t, i)
  {
    var shift := s.slab[i];
    SmallGeometry(shift);
    WordOfChunk(shift, c);
    var w := s.words[k];
    assert w == MapWord(s, i, c / WordBits) < Word32;
    var nw := ClearBit(w, c % WordBits);
    ClearBitBits(w, c % WordBits, c % WordBits);
    Pow2Word32();
    AllOnes(nw, WordBits);
    assert t.words[k] == nw != BUSY;
    OpenWordHasFree(t, i, k);
  }

  /** A SMALL page with a bitmap word that is not all ones has a free chunk. */
  lemma OpenWordHasFree(t: PoolState, i: nat, k: nat)
    requires Shape(t) && i < NPages(t) && t.role[i] == Small && 3 <= t.slab[i] <= 6
    requires i * WordsPerPage <= k < i * WordsPerPage + MapWords(t.slab[i]) && k < |t.words| && t.words[k] != BUSY
    ensures HasFree(t, i)
  {
    Geometry(t.slab[i]);
    assert SmallFirstOpenWord(t, i) <= k;
  }

  /** Clearing bit c of a SMALL page's bitmap frees exactly chunk c. */
  lemma SmallClearChunks(s: PoolState, t: PoolState, i: nat, c: nat, k: nat)
    requires Shape(s) && Shape(t) && i < NPages(s) && s.role[i] == Small && c < 512
    requires SmallBitCleared(s, t, i, c, k)
    ensures forall d :: 0 <= d < 512 ==> ChunkUsed(t, i, d) == (d != c && ChunkUsed(s, i, d))
  {
    forall d | 0 <= d < 512
      ensures ChunkUsed(t, i, d) == (d != c && ChunkUsed(s, i, d))
    {
      if d / WordBits == c / WordBits {
        ClearBitBits(s.words[k], c % WordBits, d % WordBits);
      }
    }
  }

  /** Clearing a used chunk of a SMALL page keeps the pool well formed. */
  lemma SmallClearValid(s: PoolState, i: nat, c: nat, k: nat, t: PoolState)
    requires Valid(s) && i < NPages(s) && s.role[i] == Small && 3 <= s.slab[i] <= 6
    requires c < 512 && ChunkBlock(s, i, c) && Shape(t) && SmallBitCleared(s, t, i, c, k)
    requires t.free == s.free && t.slots == RelinkIfAbsent(s, s.slab[i] - MinShift, i, i !in s.slots[s.slab[i] - MinShift])
    ensures Valid(t)
  {
    assert PageOK(s, i);
    SmallClearPage(s, t, i, c, k);
    RelinkStepValid(s, t, i);
  }

  /** Clearing a bit of a well-formed SMALL page changes only that page and leaves it well formed with a free chunk. */
  lemma SmallClearPage(s: PoolState, t: PoolState, i: nat, c: nat, k: nat)
    requires Shape(s) && Shape(t) && i < NPages(s) && s.role[i] == Small && 3 <= s.slab[i] <= 6
    requires PageOK(s, i) && c < 512 && ChunkBlock(s, i, c) && SmallBitCleared(s, t, i, c, k)
    ensures PageOK(t, i) && HasFree(t, i) && SameOutside(s, t, i, i + 1)
    ensures PageChunkShift(s, i) == s.slab[i] && PageChunkShift(t, i) == s.slab[i]
  {
    var shift := s.slab[i];
    SmallGeometry(shift);
    assert SmallMapOK(s, i) && c < ChunksPerPage(shift) && StorageChunks(shift) <= c;
    SmallClearMapOK(s, t, i, c, k);
    SmallClearHasFree(s, t, i, c, k);
    SameOutsideOne(s, t, i, k);
  }

  /** Clearing a used chunk of a SMALL page gives back exactly the block at that chunk. */
  lemma SmallClearLive(s: PoolState, i: nat, c: nat, k: nat, t: PoolState)
    requires Shape(s) && i < NPages(s) && s.role[i] == Small && 3 <= s.slab[i] <= 6
    requires c < 512 && ChunkUsed(s, i, c) && ChunkBlock(s, i, c) && Shape(t) && SmallBitCleared(s, t, i, c, k)
    requires |t.slots| == |s.slots|
    ensures GivenBack(s, t, ChunkAddr(s, i, c)) && !StoragePointer(t, ChunkAddr(s, i, c))
  {
    SmallGeometry(s.slab[i]);
    WordOfChunk(s.slab[i], c);
    SmallClearChunks(s, t, i, c, k);
    SameOutsideOne(s, t, i, k);
    ChunkAddrFacts(s, i, c);
    ChunkClearLive(s, t, i, c);
  }

  /** Clearing a used chunk of a SMALL page gives back exactly that chunk and keeps the pool well formed. */
  lemma SmallClearOK(s: PoolState, i: nat, c: nat)
    requires Valid(s) && i < NPages(s) && s.role[i] == Small && 3 <= s.slab[i] <= 6
    requires c < 512 && ChunkUsed(s, i, c) && ChunkBlock(s, i, c)
    ensures Freed(s, SmallClear(s, i, c), ChunkAddr(s, i, c))
  {
    var t := SmallClear(s, i, c);
    var k := SmallClearWord(s, i, c);
    SmallClearValid(s, i, c, k, t);
    SmallClearLive(s, i, c, k, t);
  }

  /** SmallClear clears exactly the chunk's bit and touches no descriptor. */
  lemma SmallClearWord(s: PoolState, i: nat, c: nat) returns (k: nat)
    requires Shape(s) && i < NPages(s) && s.role[i] == Small && 3 <= s.slab[i] <= 6
    requires c < 512 && ChunkUsed(s, i, c) && ChunkBlock(s, i, c)
    ensures Shape(SmallClear(s, i, c)) && SmallBitCleared(s, SmallClear(s, i, c), i, c, k)
    ensures SmallClear(s, i, c).free == s.free && |SmallClear(s, i, c).slots| == |s.slots|
    ensures SmallClear(s, i, c).slots == RelinkIfAbsent(s, s.slab[i] - MinShift, i, i !in s.slots[s.slab[i] - MinShift])
  {
    var t := SmallClear(s, i, c);
    k := i * WordsPerPage + c / WordBits;
    SmallGeometry(s.slab[i]);
    WordOfChunk(s.slab[i], c);
    MulMonotone(i + 1, NPages(s), WordsPerPage);
    assert SmallBitCleared(s, t, i, c, k);
  }

  /** A SMALL page whose bitmap has no bit set past its storage chunks holds no block. */
  lemma SmallEmpty(t: PoolState, i: nat)
    requires Shape(t) && i < NPages(t) && t.role[i] == Small && 3 <= t.slab[i] <= 6
    requires !SmallInUse(t, i)
    ensures NoLiveOn(t, i)
  {
    forall q | InPages(t, q) && PageOf(t, q) == i
      ensures !Live(t, q)
    {
      SmallNotLive(t, i, q);
    }
  }

  lemma SmallNotLive(t: PoolState, i: nat, q: nat)
    requires Shape(t) && i < NPages(t) && t.role[i] == Small && 3 <= t.slab[i] <= 6
    requires !SmallInUse(t, i) && InPages(t, q) && PageOf(t, q) == i
    ensures !Live(t, q)
  {
    var shift := t.slab[i];
    var off := OffsetOf(t, q);
    var cs := ChunkSize(shift);
    assert PageChunkShift(t, i) == shift;
    ChunkIndexBound(shift, off);
    var d := off / cs;
    if off % cs == 0 && d >= StorageChunks(shift) {
      SmallChunkFree(t, i, d);
      assert !ChunkUsed(t, i, d);
    }
  }

  /** On a SMALL page with no chunk in use, no chunk past the storage chunks is marked. */
  lemma SmallChunkFree(t: PoolState, i: nat, d: nat)
    requires Shape(t) && i < NPages(t) && t.role[i] == Small && 3 <= t.slab[i] <= 6
    requires !SmallInUse(t, i)
    requires StorageChunks(t.slab[i]) <= d < ChunksPerPage(t.slab[i])
    ensures d < 512 && !ChunkUsed(t, i, d)
  {
    var shift := t.slab[i];
    Geometry(shift);
    MulMonotone(i + 1, NPages(t), WordsPerPage);
    var base := i * WordsPerPage;
    WordOfChunk(shift, d);
    if d / WordBits == 0 {
      ShrZeroBits(MapWord(t, i, 0), StorageChunks(shift), d);
    } else {
      assert t.words[base + d / WordBits] == 0;
      ShrZero(d % WordBits);
    }
  }

  /** Freeing a live block of a SMALL page. */
  lemma FreeSmallLive(s: PoolState, p: nat)
    requires Valid(s) && Live(s, p) && s.role[PageOf(s, p)] == Small
    ensures FreeSmall(s, p).outcome == Released && Freed(s, FreeSmall(s, p).state, p)
  {
    var i := PageOf(s, p);
    var c := SmallPointer(s, p);
    var s1 := SmallClear(s, i, c);
    assert FreeSmall(s, p) ==
      if SmallInUse(s1, i) then FreeResult(s1, Released) else FreeResult(FreePagesSpec(s1, i, 1), Released);
    SmallClearOK(s, i, c);
    if !SmallInUse(s1, i) {
      SmallEmpty(s1, i);
      EmptyPageRelease(s, s1, i, p);
    }
  }

  // ---------------------------------------------------------------------
  // EXACT pages
  // ---------------------------------------------------------------------

  /** What Live says about a pointer into an EXACT page, in terms of its chunk index. */
  lemma ExactPointer(s: PoolState, p: nat) returns (c: nat)
    requires Valid(s) && InPages(s, p) && s.role[PageOf(s, p)] == Exact
    ensures c == OffsetOf(s, p) / ExactSize && c < WordBits
    ensures p % ExactSize == OffsetOf(s, p) % ExactSize
    ensures Live(s, p) == (p % ExactSize == 0 && Bit(s.slab[PageOf(s, p)], c))
    ensures !StoragePointer(s, p)
    ensures Live(s, p) ==> ChunkBlock(s, PageOf(s, p), c) && p == ChunkAddr(s, PageOf(s, p), c)
  {
    Geometry(ExactShift);
    ChunkPointer(s, p);
    c := OffsetOf(s, p) / ExactSize;
  }

  lemma FreeExactOutcome(s: PoolState, p: nat)
    requires Valid(s) && InPages(s, p) && s.role[PageOf(s, p)] == Exact
    ensures (FreeExact(s, p).outcome == Released) == Live(s, p)
    ensures FreeExact(s, p).outcome != Released ==> FreeExact(s, p).state == s
  {
    var c := ExactPointer(s, p);
  }

  /** An EXACT page is off its slot list exactly when all its chunks are in use. */
  lemma ExactListed(s: PoolState, i: nat)
    requires Valid(s) && i < NPages(s) && s.role[i] == Exact
    ensures (s.slab[i] == BUSY) == (i !in s.slots[ExactShift - MinShift])
  {
    assert SlotOK(s, ExactShift - MinShift);
    if s.slab[i] != BUSY {
      assert HasFree(s, i);
    }
  }

  /** Clearing a used chunk of an EXACT page keeps the pool well formed. */
  lemma ExactClearValid(s: PoolState, i: nat, c: nat, t: PoolState)
    requires Valid(s) && i < NPages(s) && s.role[i] == Exact && c < WordBits && Bit(s.slab[i], c)
    requires t == ExactClear(s, i, c)
    ensures Valid(t)
  {
    assert PageOK(s, i);
    ExactListed(s, i);
    ExactClearPage(s, i, c, t);
    RelinkStepValid(s, t, i);
  }

  /** Clearing a used chunk of an EXACT page changes only that page and leaves a chunk of it free. */
  lemma ExactClearPage(s: PoolState, i: nat, c: nat, t: PoolState)
    requires Shape(s) && i < NPages(s) && s.role[i] == Exact && c < WordBits && Bit(s.slab[i], c)
    requires s.slab[i] < Word32 && t == ExactClear(s, i, c)
    ensures PageOK(t, i) && HasFree(t, i) && SameOutside(s, t, i, i + 1)
    ensures PageChunkShift(t, i) == PageChunkShift(s, i)
  {
    var w := s.slab[i];
    var nw := ClearBit(w, c);
    ClearBitBits(w, c, c);
    Pow2Word32();
    AllOnes(nw, WordBits);
    assert t.slab[i] == nw != BUSY;
    SameOutsideOne(s, t, i, i * WordsPerPage);
  }

  /** Clearing a used chunk of an EXACT page gives back exactly the block at that chunk. */
  lemma ExactClearLive(s: PoolState, i: nat, c: nat, t: PoolState)
    requires Shape(s) && i < NPages(s) && s.role[i] == Exact && c < WordBits && Bit(s.slab[i], c)
    requires t == ExactClear(s, i, c)
    ensures GivenBack(s, t, ChunkAddr(s, i, c)) && !StoragePointer(t, ChunkAddr(s, i, c))
  {
    Geometry(ExactShift);
    forall d | 0 <= d < 512
      ensures ChunkUsed(t, i, d) == (d != c && ChunkUsed(s, i, d))
    {
      ClearBitBits(s.slab[i], c, d);
    }
    SameOutsideOne(s, t, i, i * WordsPerPage);
    ChunkAddrFacts(s, i, c);
    ChunkClearLive(s, t, i, c);
  }

  /** An EXACT page whose occupancy word is zero holds no block. */
  lemma ExactEmpty(t: PoolState, i: nat)
    requires Shape(t) && i < NPages(t) && t.role[i] == Exact && t.slab[i] == 0
    ensures NoLiveOn(t, i)
  {
    forall q | InPages(t, q) && PageOf(t, q) == i
      ensures !Live(t, q)
    {
      ShrZero(ChunkIndex(OffsetOf(t, q), ExactShift));
    }
  }

  /** Freeing a live block of an EXACT page. */
  lemma FreeExactLive(s: PoolState, p: nat)
    requires Valid(s) && Live(s, p) && s.role[PageOf(s, p)] == Exact
    ensures FreeExact(s, p).outcome == Released && Freed(s, FreeExact(s, p).state, p)
  {
    var i := PageOf(s, p);
    var c := ExactPointer(s, p);
    var s1 := ExactClear(s, i, c);
    assert FreeExact(s, p) ==
      if s1.slab[i] != 0 then FreeResult(s1, Released) else FreeResult(FreePagesSpec(s1, i, 1), Released);
    ExactClearValid(s, i, c, s1);
    ExactClearLive(s, i, c, s1);
    if s1.slab[i] == 0 {
      ExactEmpty(s1, i);
      EmptyPageRelease(s, s1, i, p);
    }
  }

  // ---------------------------------------------------------------------
  // BIG pages
  // ---------------------------------------------------------------------

  /** BIG words: taking a set bit out of the chunk map in the upper half leaves the shift in the lower half. */
  lemma BigSub(w: nat, c: nat)
    requires Bit(BigMap(w), c)
    ensures w >= 0x1_0000 * Pow2(c)
    ensures BigMap(w - 0x1_0000 * Pow2(c)) == ClearBit(BigMap(w), c)
    ensures (w - 0x1_0000 * Pow2(c)) % 0x1_0000 == w % 0x1_0000
    ensures (w - 0x1_0000 * Pow2(c)) % 16 == w % 16
  {
    ClearBitGe(BigMap(w), c);
    var x := Pow2(c);
    assert 0x1_0000 * BigMap(w) <= w;
    MulMonotone(x, BigMap(w), 0x1_0000);
    BigAdd(w - 0x1_0000 * x, x);
  }

  /** What Live says about a pointer into a BIG page, in terms of its chunk index. */
  lemma BigPointer(s: PoolState, p: nat) returns (c: nat)
    requires Shape(s) && InPages(s, p) && s.role[PageOf(s, p)] == Big
    requires 8 <= s.slab[PageOf(s, p)] % 16 <= 11
    ensures p % ChunkSize(s.slab[PageOf(s, p)] % 16) == OffsetOf(s, p) % ChunkSize(s.slab[PageOf(s, p)] % 16)
    ensures c == OffsetOf(s, p) / ChunkSize(s.slab[PageOf(s, p)] % 16)
    ensures c < ChunksPerPage(s.slab[PageOf(s, p)] % 16) && c < 512
    ensures Live(s, p) == (p % ChunkSize(s.slab[PageOf(s, p)] % 16) == 0 && Bit(BigMap(s.slab[PageOf(s, p)]), c))
    ensures !StoragePointer(s, p)
    ensures Live(s, p) ==> ChunkBlock(s, PageOf(s, p), c) && p == ChunkAddr(s, PageOf(s, p), c)
  {
    var i := PageOf(s, p);
    ChunkPointer(s, p);
    c := ChunkIndex(OffsetOf(s, p), s.slab[i] % 16);
  }

  /** A BIG page of a well-formed pool has a BIG chunk shift. */
  lemma BigShift(s: PoolState, i: nat)
    requires Valid(s) && i < NPages(s) && s.role[i] == Big
    ensures 8 <= s.slab[i] % 16 <= 11
  {
    assert PageOK(s, i);
  }

  lemma FreeBigOutcome(s: PoolState, p: nat)
    requires Valid(s) && InPages(s, p) && s.role[PageOf(s, p)] == Big
    ensures (FreeBig(s, p).outcome == Released) == Live(s, p)
    ensures FreeBig(s, p).outcome != Released ==> FreeBig(s, p).state == s
  {
    BigShift(s, PageOf(s, p));
    var c := BigPointer(s, p);
  }

  /** Clearing a used chunk of a BIG page keeps the pool well formed. */
  lemma BigClearValid(s: PoolState, i: nat, c: nat, t: PoolState)
    requires Valid(s) && i < NPages(s) && s.role[i] == Big && IsChunkShift(s.slab[i] % 16)
    requires c < ChunksPerPage(s.slab[i] % 16) && Bit(BigMap(s.slab[i]), c)
    requires t == BigClear(s, i, c)
    ensures Valid(t)
  {
    assert PageOK(s, i);
    BigClearPage(s, i, c, t);
    RelinkStepValid(s, t, i);
  }

  /** Clearing a used chunk of a well-formed BIG page changes only that page and leaves it well formed with a free chunk. */
  lemma BigClearPage(s: PoolState, i: nat, c: nat, t: PoolState)
    requires Shape(s) && i < NPages(s) && s.role[i] == Big && IsChunkShift(s.slab[i] % 16) && PageOK(s, i)
    requires c < ChunksPerPage(s.slab[i] % 16) && Bit(BigMap(s.slab[i]), c)
    requires t == BigClear(s, i, c)
    ensures PageOK(t, i) && HasFree(t, i) && SameOutside(s, t, i, i + 1)
    ensures PageChunkShift(t, i) == PageChunkShift(s, i)
  {
    var w := s.slab[i];
    var shift := w % 16;
    var chunks := ChunksPerPage(shift);
    BigSub(w, c);
    var m := ClearBit(BigMap(w), c);
    ClearBitBits(BigMap(w), c, c);
    assert BigMap(t.slab[i]) == m < Pow2(chunks);
    AllOnes(m, chunks);
    SameOutsideOne(s, t, i, i * WordsPerPage);
  }

  /** Clearing a used chunk of a BIG page gives back exactly the block at that chunk. */
  lemma BigClearLive(s: PoolState, i: nat, c: nat, t: PoolState)
    requires Shape(s) && i < NPages(s) && s.role[i] == Big && IsChunkShift(s.slab[i] % 16)
    requires c < ChunksPerPage(s.slab[i] % 16) && Bit(BigMap(s.slab[i]), c)
    requires t == BigClear(s, i, c)
    ensures GivenBack(s, t, ChunkAddr(s, i, c)) && !StoragePointer(t, ChunkAddr(s, i, c))
  {
    BigSub(s.slab[i], c);
    forall d | 0 <= d < 512
      ensures ChunkUsed(t, i, d) == (d != c && ChunkUsed(s, i, d))
    {
      ClearBitBits(BigMap(s.slab[i]), c, d);
    }
    SameOutsideOne(s, t, i, i * WordsPerPage);
    ChunkAddrFacts(s, i, c);
    ChunkClearLive(s, t, i, c);
  }

  /** A BIG page whose chunk map is zero holds no block. */
  lemma BigEmpty(t: PoolState, i: nat)
    requires Shape(t) && i < NPages(t) && t.role[i] == Big && BigMap(t.slab[i]) == 0
    ensures NoLiveOn(t, i)
  {
    forall c | 0 <= c < 512
      ensures !ChunkUsed(t, i, c)
    {
      ShrZero(c);
    }
    NoneUsed(t, i);
  }

  /** A chunk page with no chunk marked in use holds no block. */
  lemma NoneUsed(t: PoolState, i: nat)
    requires Shape(t) && i < NPages(t) && t.role[i] != PageRole
    requires forall c :: 0 <= c < 512 ==> !ChunkUsed(t, i, c)
    ensures NoLiveOn(t, i)
  {
    forall q | InPages(t, q) && PageOf(t, q) == i
      ensures !Live(t, q)
    {
      var off := OffsetOf(t, q);
      var cs := ChunkSize(PageChunkShift(t, i));
      if off % cs == 0 && off / cs < 512 {
        assert !ChunkUsed(t, i, off / cs);
      }
    }
  }

  /** Freeing a live block of a BIG page. */
  lemma FreeBigLive(s: PoolState, p: nat)
    requires Valid(s) && Live(s, p) && s.role[PageOf(s, p)] == Big
    ensures FreeBig(s, p).outcome == Released && Freed(s, FreeBig(s, p).state, p)
  {
    var i := PageOf(s, p);
    BigShift(s, i);
    var c := BigPointer(s, p);
    var s1 := BigClear(s, i, c);
    assert FreeBig(s, p) ==
      if BigMap(s1.slab[i]) != 0 then FreeResult(s1, Released) else FreeResult(FreePagesSpec(s1, i, 1), Released);
    BigClearValid(s, i, c, s1);
    BigClearLive(s, i, c, s1);
    if BigMap(s1.slab[i]) == 0 {
      BigEmpty(s1, i);
      EmptyPageRelease(s, s1, i, p);
    }
  }

  // ---------------------------------------------------------------------
  // Whole pages
  // ---------------------------------------------------------------------

  lemma FreePageOutcome(s: PoolState, p: nat)
    requires Valid(s) && InPages(s, p) && s.role[PageOf(s, p)] == PageRole
    ensures (FreePage(s, p).outcome == Released) == Live(s, p)
    ensures FreePage(s, p).outcome != Released ==> FreePage(s, p).state == s
    ensures !StoragePointer(s, p)
  {
    assert PageOK(s, PageOf(s, p));
  }

  /** Freeing the first page of an allocated run gives the whole run back. */
  lemma FreePageLive(s: PoolState, p: nat)
    requires Valid(s) && Live(s, p) && s.role[PageOf(s, p)] == PageRole
    ensures FreePage(s, p).outcome == Released && Freed(s, FreePage(s, p).state, p)
  {
    var i := PageOf(s, p);
    var n := s.slab[i] - PAGE_START;
    assert PageOK(s, i);
    ReleasableRange(s, i, n);
    var t := FreePagesSpec(s, i, n);
    assert FreePage(s, p) == FreeResult(t, Released);
    FreePagesValid(s, i, n);
    FreePagesLive(s, i, n);
    assert p == s.start + i * PageSize;
    forall q | q != p
      ensures Live(t, q) == Live(s, q)
    {
      if InPages(s, q) && i <= PageOf(s, q) < i + n {
        if PageOf(s, q) == i {
          assert OffsetOf(s, q) != 0;
        } else {
          assert IsCont(s, PageOf(s, q));
        }
      }
    }
    assert t.role[i] == PageRole;
  }

  // ---------------------------------------------------------------------
  // ngx_slab_free
  // ---------------------------------------------------------------------

  /**
   * ngx_slab_free releases a pointer exactly when it is a live block or one
   * of a SMALL page's bitmap chunks; a pointer outside the pages is reported
   * as such; every other call leaves the pool unchanged; and releasing a
   * live block keeps the pool well formed and frees that block alone.
   */
  lemma FreeCorrect(s: PoolState, p: nat)
    requires Valid(s)
    ensures (FreeSpec(s, p).outcome == Released) == (Live(s, p) || StoragePointer(s, p))
    ensures (FreeSpec(s, p).outcome == OutsideOfPool) == !InPages(s, p)
    ensures FreeSpec(s, p).outcome != Released ==> FreeSpec(s, p).state == s
    ensures Live(s, p) ==> Freed(s, FreeSpec(s, p).state, p)
  {
    if InPages(s, p) {
      match s.role[PageOf(s, p)]
      case Small =>
        FreeSmallOutcome(s, p);
        if Live(s, p) {
          FreeSmallLive(s, p);
        }
      case Exact =>
        FreeExactOutcome(s, p);
        var c := ExactPointer(s, p);
        if Live(s, p) {
          FreeExactLive(s, p);
        }
      case Big =>
        FreeBigOutcome(s, p);
        BigShift(s, PageOf(s, p));
        var c := BigPointer(s, p);
        if Live(s, p) {
          FreeBigLive(s, p);
        }
      case PageRole =>
        FreePageOutcome(s, p);
        if Live(s, p) {
          FreePageLive(s, p);
        }
    }
  }

  /** A block freed once is not released by a second free, which changes nothing. */
  lemma DoubleFree(s: PoolState, p: nat, t: PoolState)
    requires Valid(s) && Live(s, p) && t == FreeSpec(s, p).state
    ensures Valid(t)
    ensures FreeSpec(t, p).outcome != Released && FreeSpec(t, p).state == t
  {
    FreeCorrect(s, p);
    FreeCorrect(t, p);
  }

  /**
   * Allocating and then freeing the address handed out: the free is
   * accepted and leaves a well-formed pool with exactly the live blocks of
   * the pool before the allocation.
   */
  lemma AllocFreeRoundTrip(s: PoolState, size: nat)
    requires Valid(s) && AllocSpec(s, size).addr != 0
    ensures var r := AllocSpec(s, size);
      && Valid(r.state)
      && FreeSpec(r.state, r.addr).outcome == Released
      && Valid(FreeSpec(r.state, r.addr).state)
      && forall q :: Live(FreeSpec(r.state, r.addr).state, q) == Live(s, q)
  {
    var r := AllocSpec(s, size);
    AllocCorrect(s, size);
    FreeCorrect(r.state, r.addr);
  }

  /**
   * For a request of whole pages, the round trip also gives back every page
   * it took: the free list holds as many pages as before the allocation.
   */
  lemma LargeRoundTrip(s: PoolState, size: nat)
    requires Valid(s) && size >= MaxSize && AllocSpec(s, size).addr != 0
    ensures var r := AllocSpec(s, size);
      && Valid(r.state)
      && var f := FreeSpec(r.state, r.addr).state;
      && Valid(f)
      && FreePageCount(f.slab, f.free) == FreePageCount(s.slab, s.free)
  {
    var h, n := LargeTaken(s, size);
    LargeGivenBack(AllocSpec(s, size).state, AllocSpec(s, size).addr, h, n);
  }

  /** The run a successful whole-page request takes, and what taking it does to the free list. */
  lemma LargeTaken(s: PoolState, size: nat) returns (h: nat, n: nat)
    requires Valid(s) && size >= MaxSize && AllocSpec(s, size).addr != 0
    ensures var t := AllocSpec(s, size).state;
      && Valid(t) && 1 <= n && h < NPages(t) && h + n <= NPages(t)
      && AllocSpec(s, size).addr == t.start + h * PageSize
      && t.slab[h] == n + PAGE_START && t.role[h] == PageRole
      && FreePageCount(t.slab, t.free) + n == FreePageCount(s.slab, s.free)
  {
    n := PagesFor(size);
    assert AllocSpec(s, size) == WholePagesSpec(s, n);
    var j, len;
    j, h, len := AllocPagesEffect(s, n);
    WholeGranted(s, n);
    AllocPagesCount(s, n);
  }

  /** Freeing the head of an allocated run of n pages puts n pages back on the free list. */
  lemma LargeGivenBack(t: PoolState, addr: nat, h: nat, n: nat)
    requires Valid(t) && 1 <= n && h + n <= NPages(t) && t.slab[h] == n + PAGE_START && t.role[h] == PageRole
    requires addr == t.start + h * PageSize
    ensures var f := FreeSpec(t, addr).state;
      && Valid(f)
      && FreePageCount(f.slab, f.free) == FreePageCount(t.slab, t.free) + n
  {
    WholeRunFreed(t, addr, h, n);
    FreePagesCount(t, h, n);
  }

  /** Freeing the first page of an allocated run of n pages releases exactly that run. */
  lemma WholeRunFreed(t: PoolState, addr: nat, h: nat, n: nat)
    requires Valid(t) && 1 <= n && h + n <= NPages(t) && t.slab[h] == n + PAGE_START && t.role[h] == PageRole
    requires addr == t.start + h * PageSize
    ensures Releasable(t, h, n)
    ensures FreeSpec(t, addr) == FreeResult(FreePagesSpec(t, h, n), Released)
  {
    PageAddr(t, h, 0);
    assert n < PAGE_BUSY - PAGE_START by {
      assert NPages(t) * PageSize < Word32;
    }
  }
}
