/**
 * Places where src/core/ngx_slab.c, read literally, does not do what the
 * surrounding code evidently intends.  For each: the code as written (a
 * function or predicate), a lemma exhibiting an input on which it goes wrong,
 * and the corrected behaviour that SlabOps uses, with the property that the
 * correction restores.
 */
module SlabFindings {
  import opened SlabTypes
  import opened SlabState
  import opened SlabOps
  import opened SlabPageProofs
  import opened SlabAllocProofs
  import opened SlabFreeProofs

  // ---------------------------------------------------------------------
  // ngx_slab_free, line 434: the bounds test
  // ---------------------------------------------------------------------

  /** The test of line 434: p is refused only below start or above end. */
  predicate OutsideAsWritten(s: PoolState, p: nat)
  {
    p < s.start || p > s.end
  }

  /**
   * The end address itself passes the test, yet lies past the last page:
   * line 440 then reads a descriptor beyond the descriptor table.
   * FreeSpec refuses it, as FreeCorrect states for every address.
   */
  lemma EndPassesBoundsTest(s: PoolState)
    requires Valid(s)
    ensures !OutsideAsWritten(s, s.end)
    ensures !InPages(s, s.end) && (s.end - s.start) / PageSize >= NPages(s)
    ensures FreeSpec(s, s.end).outcome == OutsideOfPool
  {
    MulMonotone(NPages(s), (s.end - s.start) / PageSize + 1, PageSize);
  }

  // ---------------------------------------------------------------------
  // ngx_slab_alloc, lines 240-260: the address of a SMALL chunk
  // ---------------------------------------------------------------------

  /**
   * The address of lines 240 and 260: the bitmap's address plus the bit
   * index within word n, shifted; the word index n is left out.
   */
  function SmallAddrAsWritten(s: PoolState, i: nat): nat
    requires Shape(s) && i < NPages(s) && s.role[i] == Small && HasFree(s, i)
  {
    var k := SmallFirstOpenWord(s, i);
    Geometry(s.slab[i]);
    MulMonotone(i + 1, NPages(s), WordsPerPage);
    s.start + i * PageSize + LowestClear(s.words[k], 0, WordBits) * ChunkSize(s.slab[i])
  }

  /**
   * Once the first bitmap word is full, the address handed out names chunk c
   * of the first word, which is already in use (a live block or a bitmap
   * chunk), and differs from the chunk whose bit was just set.
   */
  lemma SmallAddrReusesChunk(s: PoolState, i: nat) returns (c: nat)
    requires Shape(s) && i < NPages(s) && PageOK(s, i) && s.role[i] == Small && HasFree(s, i)
    requires MapWord(s, i, 0) == BUSY
    ensures c < WordBits && ChunkUsed(s, i, c)
    ensures SmallAddrAsWritten(s, i) == s.start + i * PageSize + c * ChunkSize(s.slab[i])
    ensures SmallAddrAsWritten(s, i) != AllocSmall(s, i).addr
  {
    var k, b := SmallPick(s, i);
    c := b;
    FullWordBit(MapWord(s, i, 0), c);
    assert k != i * WordsPerPage;
    AddrApart(s.start + i * PageSize, c, (k - i * WordsPerPage) * WordBits + b, ChunkSize(s.slab[i]));
  }

  /** Every bit of the all-ones word is set. */
  lemma FullWordBit(w: nat, b: nat)
    requires w == BUSY && b < WordBits
    ensures Bit(w, b)
  {
    Pow2Word32();
    LowMaskBits(WordBits, b);
  }

  lemma AddrApart(a: nat, c: nat, m: nat, cs: nat)
    requires c < m && cs >= 1
    ensures a + c * cs < a + m * cs
  {
    MulMonotone(c + 1, m, cs);
  }

  // ---------------------------------------------------------------------
  // ngx_slab_alloc, lines 221, 271, 352 and 382: encoding chosen by size
  // ---------------------------------------------------------------------

  /** The encoding lines 221/271 and 352/382 pick: by the requested size, not by the chunk shift. */
  function RoleAsWritten(size: nat): Role
  {
    if size < ExactSize then Small else if size == ExactSize then Exact else Big
  }

  /**
   * Requests of 100 and 128 bytes share the slot list of shift 7, yet the
   * first formats and reads its pages as SMALL, the second as EXACT: each
   * reads the other's pages with the wrong occupancy encoding.
   */
  lemma SizeDispatchSplitsSlot()
    ensures ShiftFor(100) == ShiftFor(128) == ExactShift
    ensures RoleAsWritten(100) == Small && RoleAsWritten(128) == Exact
  {
    ShiftOf100();
    ShiftOf128();
  }

  lemma ShiftOf100()
    ensures ShiftFor(100) == 7
  {
    assert BitLength(1) == 1;
    assert BitLength(3) == 2 && BitLength(6) == 3 && BitLength(12) == 4;
    assert BitLength(24) == 5 && BitLength(49) == 6 && BitLength(99) == 7;
  }

  lemma ShiftOf128()
    ensures ShiftFor(128) == 7
  {
    assert BitLength(1) == 1;
    assert BitLength(7) == 3 && BitLength(15) == 4 && BitLength(31) == 5;
    assert BitLength(63) == 6 && BitLength(127) == 7;
  }

  /**
   * With the encoding chosen by shift, every page on slot list k uses the
   * one encoding of chunk shift k + MinShift.
   */
  lemma SlotRoles(s: PoolState, k: nat, x: nat)
    requires Valid(s) && k < SlotCount && x in s.slots[k]
    ensures x < NPages(s) && s.role[x] == RoleOfShift(k + MinShift)
  {
    assert SlotOK(s, k);
    assert PageOK(s, x);
  }

  // ---------------------------------------------------------------------
  // ngx_slab_free, line 582: the already-free test for whole pages
  // ---------------------------------------------------------------------

  /**
   * The tests of the PAGE branch of ngx_slab_free as written: a misaligned
   * pointer is a wrong chunk, a zero slab is already free and PAGE_BUSY a
   * wrong page; any other slab goes to ngx_slab_free_pages as a run of
   * slab & ~PAGE_START pages.
   */
  function FreePageVerdictAsWritten(s: PoolState, p: nat): FreeOutcome
    requires Shape(s) && InPages(s, p)
  {
    var i := PageOf(s, p);
    if OffsetOf(s, p) != 0 then WrongChunk
    else if s.slab[i] == PAGE_FREE then PageAlreadyFree
    else if s.slab[i] == PAGE_BUSY then WrongPage
    else Released
  }

  /**
   * The first page of a listed free run passes the tests of lines 576-592,
   * so ngx_slab_free_pages is called on a page that is already on the free
   * list (what that does to the links is FreedHeadSelfLinked).  FreePage
   * reports it already free, as FreePageOutcome states.
   */
  lemma FreeRunReleasedAgain(s: PoolState, h: nat)
    requires Valid(s) && h < NPages(s) && IsFreeHead(s, h)
    ensures InPages(s, s.start + h * PageSize) && PageOf(s, s.start + h * PageSize) == h
    ensures !Live(s, s.start + h * PageSize) && h in s.free
    ensures FreePageVerdictAsWritten(s, s.start + h * PageSize) == Released
    ensures FreePage(s, s.start + h * PageSize).outcome == PageAlreadyFree
  {
    PageAddr(s, h, 0);
  }

  // ---------------------------------------------------------------------
  // ngx_slab_alloc, line 185: the page count of a large request
  // ---------------------------------------------------------------------

  /** The page count of line 185 with a 32-bit size_t: the sum wraps before the shift. */
  function PagesAsWritten(size: nat): nat
  {
    (size + PageSize - 1) % Word32 / PageSize
  }

  /**
   * A request within 4095 bytes of 2^32 asks ngx_slab_alloc_pages for zero
   * pages, where the unwrapped count is 2^20 pages.
   */
  lemma PagesWrap(size: nat)
    requires Word32 - PageSize < size < Word32
    ensures PagesAsWritten(size) == 0
    ensures PagesFor(size) == 0x10_0000
  {
  }

  /** With the count unwrapped, such a request is refused and leaves the pool as it was. */
  lemma HugeRequestRefused(s: PoolState, size: nat)
    requires Valid(s) && size > Word32 - PageSize
    ensures AllocSpec(s, size).addr == 0 && AllocSpec(s, size).state == s
  {
    AllocCorrect(s, size);
    assert NPages(s) < PagesFor(size) by {
      assert NPages(s) * PageSize < Word32;
    }
    forall x | x in s.free
      ensures s.slab[x] < PagesFor(size)
    {
      assert PageOK(s, x);
    }
  }

  // ---------------------------------------------------------------------
  // ngx_slab_free_pages, lines 702-703: unlinking a page that is not listed
  // ---------------------------------------------------------------------

  /**
   * Descriptor links as the C code keeps them, role tags masked off.  The
   * nodes are numbers: 0 stands for NULL, the others for list heads and page
   * descriptors.  A node without an entry links to itself.
   */
  datatype Links = Links(next: map<nat, nat>, prev: map<nat, nat>)

  function Next(l: Links, x: nat): nat
  {
    if x in l.next then l.next[x] else x
  }

  function Prev(l: Links, x: nat): nat
  {
    if x in l.prev then l.prev[x] else x
  }

  /** Up to fuel nodes of the list headed by head, following next. */
  function ListFrom(l: Links, head: nat, x: nat, fuel: nat): seq<nat>
    decreases fuel
  {
    if fuel == 0 || Next(l, x) == head then []
    else [Next(l, x)] + ListFrom(l, head, Next(l, x), fuel - 1)
  }

  function Members(l: Links, head: nat): seq<nat>
  {
    ListFrom(l, head, head, 6)
  }

  /** Unlinking page p from the list it is on (lines 655-657, 253-254, 286-287, 328-329). */
  function Unlink(l: Links, p: nat): Links
  {
    var l1 := l.(next := l.next[Prev(l, p) := Next(l, p)]);
    l1.(prev := l1.prev[Next(l, p) := Prev(l, p)])
  }

  /** A longer free run: descriptor q, n pages on, takes over p's place and links (lines 646-652). */
  function SplitRun(l: Links, p: nat, q: nat): Links
  {
    var l1 := Links(l.next[q := Next(l, p)], l.prev[q := Prev(l, p)]);
    var l2 := l1.(next := l1.next[Prev(l, p) := q]);
    l2.(prev := l2.prev[Next(l, p) := q])
  }

  /** Pushing p at the front of the free list headed by free (lines 705-709). */
  function PushFree(l: Links, free: nat, p: nat): Links
  {
    var l1 := l.(next := l.next[p := Next(l, free)]);
    var l2 := l1.(next := l1.next[free := p]);
    var l3 := l2.(prev := l2.prev[p := Prev(l2, Next(l2, p))]);
    l3.(prev := l3.prev[Next(l3, p) := p])
  }

  /** ngx_slab_free_pages as written: the predecessor skips p, the successor keeps pointing back at p. */
  function FreePagesLinksAsWritten(l: Links, free: nat, p: nat): Links
  {
    PushFree(l.(next := l.next[Prev(l, p) := Next(l, p)]), free, p)
  }

  /** The evident intent: unlink p only when it is on a slot list, with both links repaired. */
  function FreePagesLinks(l: Links, free: nat, p: nat, listed: bool): Links
  {
    PushFree(if listed then Unlink(l, p) else l, free, p)
  }

  /** A fresh pool of at least two pages: the free list (head 1) holds page 0 (node 2) alone. */
  const FreshLinks: Links := Links(map[1 := 2, 2 := 1], map[1 := 0, 2 := 1])

  /** The free list after one page is taken from the fresh pool: the rest of the pool, node 3. */
  lemma SplitFresh()
    ensures SplitRun(FreshLinks, 2, 3) == Links(map[1 := 3, 2 := 1, 3 := 1], map[1 := 3, 2 := 1, 3 := 1])
    ensures Members(FreshLinks, 1) == [2]
    ensures Members(SplitRun(FreshLinks, 2, 3), 1) == [3]
  {
  }

  /**
   * A whole page taken from the fresh pool keeps its stale links, so freeing
   * it cuts the rest of the pool (node 3) off the free list.
   */
  lemma StaleLinksLoseRun()
    ensures Members(FreePagesLinksAsWritten(SplitRun(FreshLinks, 2, 3), 1, 2), 1) == [2]
  {
    SplitFresh();
    var l := FreePagesLinksAsWritten(SplitRun(FreshLinks, 2, 3), 1, 2);
    assert l.next == map[1 := 2, 2 := 1, 3 := 1];
  }

  /** Freeing it without unlinking keeps both runs on the free list, as FreePagesSpec does. */
  lemma UnlistedRunKept()
    ensures Members(FreePagesLinks(SplitRun(FreshLinks, 2, 3), 1, 2, false), 1) == [2, 3]
  {
    SplitFresh();
    var l := FreePagesLinks(SplitRun(FreshLinks, 2, 3), 1, 2, false);
    assert l.next == map[1 := 2, 2 := 3, 3 := 1];
  }

  /** Slot list (head 1) holding pages at nodes 2 and 3; the free list (head 4) empty. */
  const SlotLinks: Links := Links(map[1 := 2, 2 := 3, 3 := 1, 4 := 4], map[1 := 0, 2 := 1, 3 := 2, 4 := 4])

  /** Page 2 freed as written: page 3 still points back at it. */
  lemma FreedFromSlot()
    ensures FreePagesLinksAsWritten(SlotLinks, 4, 2) == Links(map[1 := 3, 2 := 4, 3 := 1, 4 := 2], map[1 := 0, 2 := 4, 3 := 2, 4 := 2])
    ensures Members(SlotLinks, 1) == [2, 3]
    ensures Members(FreePagesLinksAsWritten(SlotLinks, 4, 2), 1) == [3]
  {
  }

  /**
   * Freeing page 2 leaves page 3 pointing back at it; when page 3 is then
   * unlinked, page 3 stays on the slot list and the free list runs into the
   * slot list.
   */
  lemma StaleBackLink()
    ensures Members(Unlink(FreePagesLinksAsWritten(SlotLinks, 4, 2), 3), 1) == [3]
    ensures 1 in Members(Unlink(FreePagesLinksAsWritten(SlotLinks, 4, 2), 3), 4)
  {
    FreedFromSlot();
    var l := Unlink(FreePagesLinksAsWritten(SlotLinks, 4, 2), 3);
    assert l.next == map[1 := 3, 2 := 1, 3 := 1, 4 := 2];
    assert Members(l, 4)[1] == 1;
  }

  /** With both links repaired, page 3 leaves the slot list and the free list holds page 2 alone. */
  lemma BackLinkRepaired()
    ensures Members(Unlink(FreePagesLinks(SlotLinks, 4, 2, true), 3), 1) == []
    ensures Members(Unlink(FreePagesLinks(SlotLinks, 4, 2, true), 3), 4) == [2]
  {
    var u := Unlink(FreePagesLinks(SlotLinks, 4, 2, true), 3);
    RepairedUnlink();
    assert Next(u, 1) == 1 && Next(u, 4) == 2 && Next(u, 2) == 4;
  }

  /** Unlinking page 3 after the repaired free: the slot list head points at itself. */
  lemma RepairedUnlink()
    ensures Unlink(FreePagesLinks(SlotLinks, 4, 2, true), 3).next == map[1 := 1, 2 := 4, 3 := 1, 4 := 2]
  {
    FreedRepaired();
  }

  /** Page 2 freed with both links repaired: page 3 points back at the slot list head. */
  lemma FreedRepaired()
    ensures FreePagesLinks(SlotLinks, 4, 2, true) == Links(map[1 := 3, 2 := 4, 3 := 1, 4 := 2], map[1 := 0, 2 := 4, 3 := 1, 4 := 2])
  {
    assert Unlink(SlotLinks, 2) == Links(map[1 := 3, 2 := 3, 3 := 1, 4 := 4], map[1 := 0, 2 := 1, 3 := 1, 4 := 4]);
  }

  // ---------------------------------------------------------------------
  // ngx_slab_free, line 582, at the level of the links
  // ---------------------------------------------------------------------

  /** A free list (head 1) of two runs whose first pages are nodes 2 and 3. */
  const TwoRuns: Links := Links(map[1 := 2, 2 := 3, 3 := 1], map[1 := 3, 2 := 1, 3 := 2])

  /**
   * ngx_slab_free_pages applied, as written, to node 2, the head of the
   * first listed run: the unlink leaves node 3 pointing back at node 2, so
   * the push sets node 2's prev to node 2 itself.  The list still reads
   * [2, 3].
   */
  lemma FreedHeadSelfLinked()
    ensures FreePagesLinksAsWritten(TwoRuns, 1, 2) == Links(map[1 := 2, 2 := 3, 3 := 1], map[1 := 3, 2 := 2, 3 := 2])
    ensures Prev(FreePagesLinksAsWritten(TwoRuns, 1, 2), 2) == 2
    ensures Members(FreePagesLinksAsWritten(TwoRuns, 1, 2), 1) == [2, 3]
  {
  }

  /**
   * ngx_slab_alloc_pages then takes that run whole (lines 654-657): the
   * unlink through the self-link changes nothing, so the run handed out is
   * still first on the free list and the next request is served from it
   * again.
   */
  lemma TakenRunStaysListed()
    ensures Unlink(FreePagesLinksAsWritten(TwoRuns, 1, 2), 2) == FreePagesLinksAsWritten(TwoRuns, 1, 2)
    ensures Members(Unlink(FreePagesLinksAsWritten(TwoRuns, 1, 2), 2), 1) == [2, 3]
  {
    FreedHeadSelfLinked();
  }

  /** Taken from the list as it stood before the second release, the run does leave it. */
  lemma TakenRunLeaves()
    ensures Members(TwoRuns, 1) == [2, 3]
    ensures Members(Unlink(TwoRuns, 2), 1) == [3]
  {
    assert Unlink(TwoRuns, 2).next == map[1 := 3, 2 := 3, 3 := 1];
  }
}
