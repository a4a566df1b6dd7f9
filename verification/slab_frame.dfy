/**
 * Frame facts: an operation that rewrites only the descriptors and page
 * words of pages [lo, hi) leaves every other page reading the same, keeps
 * the other pages well formed, and keeps the blocks on them live.
 */
module SlabFrame {
  import opened SlabTypes
  import opened SlabState

  /** t differs from s at most in the descriptors and page words of pages [lo, hi). */
  predicate SameOutside(s: PoolState, t: PoolState, lo: nat, hi: nat)
  {
    && Shape(s) && Shape(t)
    && t.start == s.start && t.end == s.end && NPages(t) == NPages(s)
    && (forall x :: 0 <= x < NPages(s) && !(lo <= x < hi) ==> t.slab[x] == s.slab[x] && t.role[x] == s.role[x])
    && (forall w :: 0 <= w < |s.words| && !(lo * WordsPerPage <= w < hi * WordsPerPage) ==> t.words[w] == s.words[w])
  }

  /** Changing only page i's descriptor and at most one word k of its bitmap changes nothing outside page i. */
  lemma SameOutsideOne(s: PoolState, t: PoolState, i: nat, k: nat)
    requires Shape(s) && Shape(t) && i < NPages(s)
    requires t.start == s.start && t.end == s.end && |t.slab| == |s.slab|
    requires forall x :: 0 <= x < |s.slab| && x != i ==> t.slab[x] == s.slab[x] && t.role[x] == s.role[x]
    requires forall w :: 0 <= w < |s.words| && w != k ==> t.words[w] == s.words[w]
    requires i * WordsPerPage <= k < i * WordsPerPage + WordsPerPage
    ensures SameOutside(s, t, i, i + 1)
  {
    assert (i + 1) * WordsPerPage == i * WordsPerPage + WordsPerPage;
  }

  /** The first non-v position depends only on the positions searched. */
  lemma FirstNotFrame(ws: seq<nat>, ws2: seq<nat>, from: nat, to: nat, v: nat)
    requires from <= to <= |ws| && to <= |ws2|
    requires forall j :: from <= j < to ==> ws2[j] == ws[j]
    ensures FirstNot(ws2, from, to, v) == FirstNot(ws, from, to, v)
  {
    var r1, r2 := FirstNot(ws, from, to, v), FirstNot(ws2, from, to, v);
    assert r1 < to ==> ws2[r1] != v;
    assert r2 < to ==> ws[r2] != v;
  }

  /** The page words of a page outside [lo, hi) are unchanged. */
  lemma FrameWords(s: PoolState, t: PoolState, lo: nat, hi: nat, x: nat)
    requires SameOutside(s, t, lo, hi) && x < NPages(s) && !(lo <= x < hi)
    ensures forall k :: 0 <= k < WordsPerPage ==> MapWord(t, x, k) == MapWord(s, x, k)
    ensures forall w :: x * WordsPerPage <= w < x * WordsPerPage + WordsPerPage ==> t.words[w] == s.words[w]
  {
    forall w | x * WordsPerPage <= w < x * WordsPerPage + WordsPerPage
      ensures t.words[w] == s.words[w]
    {
      if x < lo {
        assert x * WordsPerPage + WordsPerPage <= lo * WordsPerPage;
      } else {
        assert hi * WordsPerPage <= x * WordsPerPage;
      }
    }
  }

  /** A page outside [lo, hi) is classified and occupied as before. */
  lemma FramePage(s: PoolState, t: PoolState, lo: nat, hi: nat, x: nat)
    requires SameOutside(s, t, lo, hi) && x < NPages(s) && !(lo <= x < hi)
    ensures IsFreeHead(t, x) == IsFreeHead(s, x)
    ensures IsUsedHead(t, x) == IsUsedHead(s, x)
    ensures IsCont(t, x) == IsCont(s, x)
    ensures IsChunkPage(t, x) == IsChunkPage(s, x)
    ensures HeadLen(t, x) == HeadLen(s, x)
    ensures PageChunkShift(t, x) == PageChunkShift(s, x)
    ensures HasFree(t, x) == HasFree(s, x)
    ensures forall c :: 0 <= c < 512 ==> ChunkUsed(t, x, c) == ChunkUsed(s, x, c)
    ensures s.role[x] == Small && 3 <= s.slab[x] <= 6 ==> SmallMapOK(t, x) == SmallMapOK(s, x)
  {
    FrameWords(s, t, lo, hi, x);
    if s.role[x] == Small && 3 <= s.slab[x] <= 6 {
      Geometry(s.slab[x]);
      FirstNotFrame(s.words, t.words, x * WordsPerPage, x * WordsPerPage + MapWords(s.slab[x]), BUSY);
    }
  }

  /**
   * A page outside [lo, hi) stays well formed, provided lo does not continue
   * a run that begins before it (so no run crosses into the range).
   */
  lemma FramePageOK(s: PoolState, t: PoolState, lo: nat, hi: nat, x: nat)
    requires SameOutside(s, t, lo, hi) && lo < hi <= NPages(s) && AllPagesOK(s) && !IsCont(s, lo)
    requires x < NPages(s) && !(lo <= x < hi)
    ensures PageOK(t, x)
  {
    assert PageOK(s, x);
    FramePage(s, t, lo, hi, x);
    if s.role[x] == PageRole && !IsCont(s, x) {
      if x < lo {
        HeadsApart(s, x, lo);
      }
      if s.slab[x] < PAGE_START {
        assert FreeRun(t, x, s.slab[x]);
      } else {
        assert BusyRun(t, x, s.slab[x] - PAGE_START);
      }
    }
  }

  /** A block on a page outside [lo, hi) is live after exactly when it was live before. */
  lemma FrameLive(s: PoolState, t: PoolState, lo: nat, hi: nat, q: nat)
    requires SameOutside(s, t, lo, hi) && InPages(s, q) && !(lo <= PageOf(s, q) < hi)
    ensures Live(t, q) == Live(s, q)
    ensures Live(s, q) ==> Extent(t, q) == Extent(s, q)
  {
    FramePage(s, t, lo, hi, PageOf(s, q));
  }

  /** The free list and the free heads are untouched, so the free list stays well formed. */
  lemma FrameFreeList(s: PoolState, t: PoolState, lo: nat, hi: nat)
    requires SameOutside(s, t, lo, hi) && FreeListOK(s) && t.free == s.free
    requires forall x :: lo <= x < hi && x < NPages(s) ==> !IsFreeHead(s, x) && !IsFreeHead(t, x)
    ensures FreeListOK(t)
  {
    forall x | 0 <= x < NPages(s) && !(lo <= x < hi)
      ensures IsFreeHead(t, x) == IsFreeHead(s, x)
    {
      FramePage(s, t, lo, hi, x);
    }
  }

  /**
   * The slot lists stay well formed when they change only in where page i
   * appears, and page i appears exactly on the list of its shift when it
   * has a free chunk.
   */
  lemma FrameSlots(s: PoolState, t: PoolState, i: nat)
    requires SameOutside(s, t, i, i + 1) && i < NPages(s) && AllSlotsOK(s) && SlotsComplete(s)
    requires forall k :: 0 <= k < SlotCount ==> Distinct(t.slots[k])
    requires forall k, x :: 0 <= k < SlotCount && x != i ==> (x in t.slots[k] <==> x in s.slots[k])
    requires IsChunkPage(t, i) && HasFree(t, i) ==> IsChunkShift(PageChunkShift(t, i))
    requires forall k :: 0 <= k < SlotCount ==>
               (i in t.slots[k] <==> IsChunkPage(t, i) && HasFree(t, i) && k == PageChunkShift(t, i) - MinShift)
    ensures AllSlotsOK(t) && SlotsComplete(t)
  {
    forall k | 0 <= k < SlotCount
      ensures SlotOK(t, k)
    {
      assert SlotOK(s, k);
      forall x | x in t.slots[k]
        ensures x < NPages(t) && IsChunkPage(t, x) && PageChunkShift(t, x) == k + MinShift && HasFree(t, x)
      {
        if x != i {
          FramePage(s, t, i, i + 1, x);
        }
      }
      assert forall j :: 0 <= j < |t.slots[k]| ==> t.slots[k][j] in t.slots[k];
    }
    forall x | 0 <= x < NPages(t) && IsChunkPage(t, x) && HasFree(t, x)
      ensures IsChunkShift(PageChunkShift(t, x)) && x in t.slots[PageChunkShift(t, x) - MinShift]
    {
      if x != i {
        FramePage(s, t, i, i + 1, x);
      }
    }
  }
}
