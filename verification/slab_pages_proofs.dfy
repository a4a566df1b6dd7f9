/**
 * Properties of page-run allocation and release (ngx_slab_alloc_pages,
 * ngx_slab_free_pages): both keep the pool well formed, first fit takes the
 * first run on the free list that is long enough, and the number of pages on
 * the free list goes down or up by exactly the pages taken or given back.
 */
module SlabPageProofs {
  import opened SlabTypes
  import opened SlabState
  import opened SlabOps

  // ---------------------------------------------------------------------
  // Frame facts
  // ---------------------------------------------------------------------

  /** A page whose descriptor and page words did not change reads the same. */
  lemma SameChunkPage(s: PoolState, t: PoolState, x: nat)
    requires Shape(s) && Shape(t) && |t.slab| == |s.slab| && x < NPages(s)
    requires t.role[x] == s.role[x] && t.slab[x] == s.slab[x] && t.words == s.words
    ensures IsChunkPage(t, x) == IsChunkPage(s, x)
    ensures PageChunkShift(t, x) == PageChunkShift(s, x)
    ensures HasFree(t, x) == HasFree(s, x)
    ensures IsChunkPage(s, x) && PageOK(s, x) ==> PageOK(t, x)
    ensures forall c :: 0 <= c < 512 ==> ChunkUsed(t, x, c) == ChunkUsed(s, x, c)
  {
    if s.role[x] == Small && 3 <= s.slab[x] <= 6 {
      assert SmallFirstOpenWord(t, x) == SmallFirstOpenWord(s, x);
      forall k | 0 <= k < WordsPerPage
        ensures MapWord(t, x, k) == MapWord(s, x, k)
      {
      }
      assert SmallMapOK(s, x) ==> SmallMapOK(t, x);
    }
  }

  lemma FreeCountAppend(slab: seq<nat>, a: seq<nat>, b: seq<nat>)
    requires forall k :: 0 <= k < |a| ==> a[k] < |slab|
    requires forall k :: 0 <= k < |b| ==> b[k] < |slab|
    ensures forall k :: 0 <= k < |a + b| ==> (a + b)[k] < |slab|
    ensures FreePageCount(slab, a + b) == FreePageCount(slab, a) + FreePageCount(slab, b)
    decreases |a|
  {
    if a != [] {
      assert (a + b)[1..] == a[1..] + b;
      FreeCountAppend(slab, a[1..], b);
    } else {
      assert a + b == b;
    }
  }

  /** The count only reads the slab words of the listed pages. */
  lemma {:induction false} FreeCountFrame(slab: seq<nat>, slab2: seq<nat>, xs: seq<nat>)
    requires forall k :: 0 <= k < |xs| ==> xs[k] < |slab| && xs[k] < |slab2| && slab2[xs[k]] == slab[xs[k]]
    ensures FreePageCount(slab2, xs) == FreePageCount(slab, xs)
    decreases |xs|
  {
    if xs != [] {
      FreeCountFrame(slab, slab2, xs[1..]);
    }
  }

  // ---------------------------------------------------------------------
  // Taking pages from a free run
  // ---------------------------------------------------------------------

  /** The slab word of page i once the first n pages of the len-page free run at h are taken. */
  function TakenSlab(slab: seq<nat>, h: nat, n: nat, len: nat, i: nat): nat
    requires i < |slab|
  {
    if i == h then n + PAGE_START
    else if h < i < h + n then PAGE_BUSY
    else if i == h + n && len > n then len - n
    else slab[i]
  }

  predicate RunTaken(s: PoolState, t: PoolState, h: nat, n: nat, len: nat)
  {
    && Shape(s) && Shape(t)
    && h + len <= NPages(s) && 1 <= n <= len
    && t.start == s.start && t.end == s.end && t.role == s.role && t.words == s.words && t.slots == s.slots
    && |t.slab| == |s.slab|
    && (forall i :: 0 <= i < |s.slab| ==> t.slab[i] == TakenSlab(s.slab, h, n, len, i))
  }

  /** What AllocPagesSpec does when it finds a run, page by page. */
  lemma AllocPagesEffect(s: PoolState, n: nat) returns (j: nat, h: nat, len: nat)
    requires Valid(s) && n >= 1 && AllocPagesSpec(s, n).page.Some?
    ensures j < |s.free| && h == s.free[j] && h < NPages(s) && len == s.slab[h]
    ensures AllocPagesSpec(s, n).page == Some(h)
    ensures IsFreeHead(s, h) && FreeRun(s, h, len) && len >= n
    ensures forall k :: 0 <= k < j ==> s.slab[s.free[k]] < n
    ensures RunTaken(s, AllocPagesSpec(s, n).state, h, n, len)
    ensures AllocPagesSpec(s, n).state.free ==
              if len > n then s.free[j := h + n] else s.free[..j] + s.free[j + 1..]
  {
    j := FirstFit(s.slab, s.free, n, 0);
    h := s.free[j];
    assert h in s.free;
    len := s.slab[h];
    assert PageOK(s, h);
    var t := AllocPagesSpec(s, n).state;
    forall i | 0 <= i < |s.slab|
      ensures t.slab[i] == TakenSlab(s.slab, h, n, len, i)
    {
    }
  }

  lemma RunTakenPageOK(s: PoolState, t: PoolState, h: nat, n: nat, len: nat, i: nat)
    requires Shape(s) && AllPagesOK(s) && h < NPages(s) && IsFreeHead(s, h) && len == s.slab[h]
    requires RunTaken(s, t, h, n, len) && i < NPages(s)
    ensures PageOK(t, i)
  {
    assert PageOK(s, h);
    assert FreeRun(s, h, len);
    if i < h || i >= h + len {
      assert t.slab[i] == s.slab[i];
      assert PageOK(s, i);
      if s.role[i] != PageRole {
        SameChunkPage(s, t, i);
      } else if !IsCont(s, i) {
        if i < h {
          HeadsApart(s, i, h);
        } else {
          HeadsApart(s, h, i);
        }
        if s.slab[i] < PAGE_START {
          assert FreeRun(t, i, s.slab[i]);
        } else {
          assert BusyRun(t, i, s.slab[i] - PAGE_START);
        }
      }
    } else if i == h {
      assert BusyRun(t, h, n);
    } else if i == h + n {
      assert FreeRun(t, h + n, len - n);
    } else {
      assert t.slab[i] == PAGE_BUSY || t.slab[i] == PAGE_FREE;
    }
  }

  lemma RunTakenPages(s: PoolState, t: PoolState, h: nat, n: nat, len: nat)
    requires Shape(s) && AllPagesOK(s) && h < NPages(s) && IsFreeHead(s, h) && len == s.slab[h]
    requires RunTaken(s, t, h, n, len)
    ensures AllPagesOK(t)
  {
    forall i | 0 <= i < NPages(t)
      ensures PageOK(t, i)
    {
      RunTakenPageOK(s, t, h, n, len, i);
    }
  }

  /** The free heads other than h keep their slab words. */
  lemma RunTakenOtherHeads(s: PoolState, t: PoolState, h: nat, n: nat, len: nat, x: nat)
    requires Shape(s) && h < NPages(s) && IsFreeHead(s, h) && FreeRun(s, h, len)
    requires RunTaken(s, t, h, n, len)
    requires x < NPages(s) && x != h && !IsCont(s, x)
    ensures t.slab[x] == s.slab[x]
    ensures len > n ==> x != h + n
  {
  }

  /** The new free list holds the old one's runs other than h, and h + n when a remainder is left. */
  lemma RunTakenMembers(s: PoolState, t: PoolState, h: nat, n: nat, len: nat, j: nat)
    requires Shape(s) && FreeListOK(s) && j < |s.free| && h == s.free[j] && h < NPages(s)
    requires IsFreeHead(s, h) && len == s.slab[h] && FreeRun(s, h, len) && 1 <= n <= len
    requires t.free == if len > n then s.free[j := h + n] else s.free[..j] + s.free[j + 1..]
    ensures Distinct(t.free)
    ensures forall x :: x in t.free <==> (x in s.free && x != h) || (len > n && x == h + n)
  {
    if len > n {
      assert IsCont(s, h + n);
      assert h + n !in s.free;
      ReplaceAt(s.free, j, h + n);
    } else {
      RemoveAt(s.free, j);
    }
  }

  lemma RunTakenFreeList(s: PoolState, t: PoolState, h: nat, n: nat, len: nat, j: nat)
    requires Shape(s) && FreeListOK(s) && j < |s.free| && h == s.free[j] && h < NPages(s)
    requires IsFreeHead(s, h) && len == s.slab[h] && FreeRun(s, h, len)
    requires RunTaken(s, t, h, n, len)
    requires t.free == if len > n then s.free[j := h + n] else s.free[..j] + s.free[j + 1..]
    ensures FreeListOK(t)
  {
    RunTakenMembers(s, t, h, n, len, j);
    forall x | x in t.free
      ensures x < NPages(t) && IsFreeHead(t, x)
    {
      if !(len > n && x == h + n) {
        RunTakenOtherHeads(s, t, h, n, len, x);
      }
    }
    assert forall k :: 0 <= k < |t.free| ==> t.free[k] in t.free;
    forall i | 0 <= i < NPages(t) && IsFreeHead(t, i)
      ensures i in t.free
    {
      if !(len > n && i == h + n) {
        assert !(h <= i < h + n);
        assert t.slab[i] == s.slab[i];
      }
    }
  }

  lemma RunTakenSlots(s: PoolState, t: PoolState, h: nat, n: nat, len: nat)
    requires Shape(s) && AllSlotsOK(s) && SlotsComplete(s)
    requires h < NPages(s) && IsFreeHead(s, h) && FreeRun(s, h, len)
    requires RunTaken(s, t, h, n, len)
    ensures AllSlotsOK(t) && SlotsComplete(t)
  {
    forall k | 0 <= k < SlotCount
      ensures SlotOK(t, k)
    {
      assert SlotOK(s, k);
      forall x | x in t.slots[k]
        ensures x < NPages(t) && IsChunkPage(t, x) && PageChunkShift(t, x) == k + MinShift && HasFree(t, x)
      {
        assert IsChunkPage(s, x);
        RunTakenOtherHeads(s, t, h, n, len, x);
        SameChunkPage(s, t, x);
      }
    }
    forall i | 0 <= i < NPages(t) && IsChunkPage(t, i) && HasFree(t, i)
      ensures IsChunkShift(PageChunkShift(t, i)) && i in t.slots[PageChunkShift(t, i) - MinShift]
    {
      assert IsChunkPage(s, i);
      RunTakenOtherHeads(s, t, h, n, len, i);
      SameChunkPage(s, t, i);
    }
  }

  lemma RunTakenValid(s: PoolState, t: PoolState, h: nat, n: nat, len: nat, j: nat)
    requires Valid(s) && j < |s.free| && h == s.free[j] && h < NPages(s) && IsFreeHead(s, h) && len == s.slab[h]
    requires RunTaken(s, t, h, n, len)
    requires t.free == if len > n then s.free[j := h + n] else s.free[..j] + s.free[j + 1..]
    ensures Valid(t)
  {
    assert PageOK(s, h);
    RunTakenPages(s, t, h, n, len);
    RunTakenFreeList(s, t, h, n, len, j);
    RunTakenSlots(s, t, h, n, len);
  }

  /** Taking pages keeps the pool well formed. */
  lemma AllocPagesValid(s: PoolState, n: nat)
    requires Valid(s) && n >= 1
    ensures Valid(AllocPagesSpec(s, n).state)
  {
    if AllocPagesSpec(s, n).page.Some? {
      var j, h, len := AllocPagesEffect(s, n);
      RunTakenValid(s, AllocPagesSpec(s, n).state, h, n, len, j);
    }
  }

  /**
   * First fit: a run is found exactly when the free list has a run of at
   * least n pages, and it is the first such run on the list; the pages
   * handed out begin an allocated run of exactly n pages.
   */
  lemma AllocPagesFirstFit(s: PoolState, n: nat)
    requires Valid(s) && n >= 1
    ensures AllocPagesSpec(s, n).page.None? <==> (forall x :: x in s.free ==> s.slab[x] < n)
    ensures AllocPagesSpec(s, n).page.None? ==> AllocPagesSpec(s, n).state == s
    ensures AllocPagesSpec(s, n).page.Some? ==>
              var h := AllocPagesSpec(s, n).page.value;
              && h in s.free && s.slab[h] >= n
              && (exists j :: 0 <= j < |s.free| && s.free[j] == h && forall k :: 0 <= k < j ==> s.slab[s.free[k]] < n)
              && h < NPages(AllocPagesSpec(s, n).state) && Shape(AllocPagesSpec(s, n).state)
              && IsUsedHead(AllocPagesSpec(s, n).state, h)
              && HeadLen(AllocPagesSpec(s, n).state, h) == n
  {
    if AllocPagesSpec(s, n).page.Some? {
      var j, h, len := AllocPagesEffect(s, n);
      assert s.free[j] == h;
    } else {
      var j := FirstFit(s.slab, s.free, n, 0);
      forall x | x in s.free
        ensures s.slab[x] < n
      {
        var k :| 0 <= k < |s.free| && s.free[k] == x;
      }
    }
  }

  lemma FreeCountSplit(slab: seq<nat>, pre: seq<nat>, x: nat, post: seq<nat>)
    requires forall k :: 0 <= k < |pre| ==> pre[k] < |slab|
    requires forall k :: 0 <= k < |post| ==> post[k] < |slab|
    requires x < |slab|
    ensures forall k :: 0 <= k < |pre + [x] + post| ==> (pre + [x] + post)[k] < |slab|
    ensures FreePageCount(slab, pre + [x] + post)
            == FreePageCount(slab, pre) + slab[x] + FreePageCount(slab, post)
  {
    FreeCountAppend(slab, pre, [x]);
    FreeCountAppend(slab, pre + [x], post);
    assert FreePageCount(slab, [x]) == slab[x] + FreePageCount(slab, []);
  }

  lemma UpdateSplit(xs: seq<nat>, j: nat, y: nat)
    requires j < |xs|
    ensures xs[j := y] == xs[..j] + [y] + xs[j + 1..]
  {
    var r := xs[..j] + [y] + xs[j + 1..];
    assert |r| == |xs|;
    assert forall k :: 0 <= k < |r| ==> r[k] == if k == j then y else xs[k];
  }

  lemma SplitAt(xs: seq<nat>, j: nat)
    requires j < |xs|
    ensures xs == xs[..j] + [xs[j]] + xs[j + 1..]
  {
  }

  /** The entries before and after position j, with entry j itself left out. */
  lemma FrameAround(slab: seq<nat>, slab2: seq<nat>, xs: seq<nat>, j: nat)
    requires j < |xs| && |slab2| == |slab|
    requires forall k :: 0 <= k < |xs| ==> xs[k] < |slab|
    requires forall k :: 0 <= k < |xs| && k != j ==> slab2[xs[k]] == slab[xs[k]]
    ensures FreePageCount(slab2, xs[..j]) == FreePageCount(slab, xs[..j])
    ensures FreePageCount(slab2, xs[j + 1..]) == FreePageCount(slab, xs[j + 1..])
  {
    var pre, post := xs[..j], xs[j + 1..];
    assert forall k :: 0 <= k < |pre| ==> pre[k] == xs[k];
    assert forall k :: 0 <= k < |post| ==> post[k] == xs[k + j + 1];
    FreeCountFrame(slab, slab2, pre);
    FreeCountFrame(slab, slab2, post);
  }

  /** Replacing entry j of a list by y changes its count by the difference of the two runs. */
  lemma CountReplaced(slab: seq<nat>, slab2: seq<nat>, xs: seq<nat>, j: nat, y: nat, ys: seq<nat>)
    requires j < |xs| && |slab2| == |slab| && y < |slab| && ys == xs[j := y]
    requires forall k :: 0 <= k < |xs| ==> xs[k] < |slab|
    requires forall k :: 0 <= k < |xs| && k != j ==> slab2[xs[k]] == slab[xs[k]]
    ensures forall k :: 0 <= k < |ys| ==> ys[k] < |slab2|
    ensures FreePageCount(slab2, ys) + slab[xs[j]] == FreePageCount(slab, xs) + slab2[y]
  {
    var pre, post := xs[..j], xs[j + 1..];
    SplitAt(xs, j);
    UpdateSplit(xs, j, y);
    FrameAround(slab, slab2, xs, j);
    FreeCountSplit(slab, pre, xs[j], post);
    FreeCountSplit(slab2, pre, y, post);
  }

  /** Removing entry j of a list takes its run out of the count. */
  lemma CountRemoved(slab: seq<nat>, slab2: seq<nat>, xs: seq<nat>, j: nat, ys: seq<nat>)
    requires j < |xs| && |slab2| == |slab| && ys == xs[..j] + xs[j + 1..]
    requires forall k :: 0 <= k < |xs| ==> xs[k] < |slab|
    requires forall k :: 0 <= k < |xs| && k != j ==> slab2[xs[k]] == slab[xs[k]]
    ensures forall k :: 0 <= k < |ys| ==> ys[k] < |slab2|
    ensures FreePageCount(slab2, ys) + slab[xs[j]] == FreePageCount(slab, xs)
  {
    var pre, post := xs[..j], xs[j + 1..];
    SplitAt(xs, j);
    FrameAround(slab, slab2, xs, j);
    FreeCountSplit(slab, pre, xs[j], post);
    FreeCountAppend(slab2, pre, post);
  }

  lemma RunTakenCount(s: PoolState, t: PoolState, h: nat, n: nat, len: nat, j: nat)
    requires Shape(s) && FreeListOK(s) && j < |s.free| && h == s.free[j] && h < NPages(s)
    requires IsFreeHead(s, h) && len == s.slab[h] && FreeRun(s, h, len)
    requires RunTaken(s, t, h, n, len) && FreeListOK(t)
    requires t.free == if len > n then s.free[j := h + n] else s.free[..j] + s.free[j + 1..]
    ensures FreePageCount(t.slab, t.free) + n == FreePageCount(s.slab, s.free)
  {
    forall k | 0 <= k < |s.free| && k != j
      ensures t.slab[s.free[k]] == s.slab[s.free[k]]
    {
      assert s.free[k] in s.free;
      assert s.free[k] != h;
      RunTakenOtherHeads(s, t, h, n, len, s.free[k]);
    }
    if len > n {
      CountReplaced(s.slab, t.slab, s.free, j, h + n, t.free);
    } else {
      CountRemoved(s.slab, t.slab, s.free, j, t.free);
    }
  }

  /** Taking n pages removes exactly n pages from the free list. */
  lemma AllocPagesCount(s: PoolState, n: nat)
    requires Valid(s) && n >= 1 && AllocPagesSpec(s, n).page.Some?
    ensures Valid(AllocPagesSpec(s, n).state)
    ensures FreePageCount(AllocPagesSpec(s, n).state.slab, AllocPagesSpec(s, n).state.free) + n
            == FreePageCount(s.slab, s.free)
  {
    var j, h, len := AllocPagesEffect(s, n);
    var t := AllocPagesSpec(s, n).state;
    RunTakenValid(s, t, h, n, len, j);
    RunTakenCount(s, t, h, n, len, j);
  }

  // ---------------------------------------------------------------------
  // Giving pages back
  // ---------------------------------------------------------------------

  /** A block that may be given back: an allocated run, or a chunk page. */
  predicate Releasable(s: PoolState, h: nat, n: nat)
    requires Shape(s) && h < NPages(s)
  {
    && 1 <= n && h + n <= NPages(s)
    && ((IsUsedHead(s, h) && n == HeadLen(s, h)) || (IsChunkPage(s, h) && n == 1))
  }

  lemma ReleasableRange(s: PoolState, h: nat, n: nat)
    requires Valid(s) && h < NPages(s) && Releasable(s, h, n)
    ensures 1 <= n && h + n <= NPages(s) && n < PAGE_START
    ensures forall i :: h < i < h + n ==> IsCont(s, i) && s.slab[i] == PAGE_BUSY
    ensures !IsFreeHead(s, h) && h !in s.free
  {
    assert PageOK(s, h);
    if IsUsedHead(s, h) {
      assert BusyRun(s, h, n);
    }
    Pow2Word32();
    assert s.start + NPages(s) * PageSize < Word32;
  }

  lemma FreePagesPageOK(s: PoolState, h: nat, n: nat, i: nat)
    requires Valid(s) && h < NPages(s) && Releasable(s, h, n) && i < NPages(s)
    ensures PageOK(FreePagesSpec(s, h, n), i)
  {
    ReleasableRange(s, h, n);
    var t := FreePagesSpec(s, h, n);
    if i < h || i >= h + n {
      assert t.slab[i] == s.slab[i] && t.role[i] == s.role[i];
      assert PageOK(s, i);
      if s.role[i] != PageRole {
        SameChunkPage(s, t, i);
      } else if !IsCont(s, i) {
        if i < h {
          HeadsApart(s, i, h);
        } else {
          HeadsApart(s, h, i);
        }
        if s.slab[i] < PAGE_START {
          assert FreeRun(t, i, s.slab[i]);
        } else {
          assert BusyRun(t, i, s.slab[i] - PAGE_START);
        }
      }
    } else if i == h {
      assert FreeRun(t, h, n);
    } else {
      assert t.slab[i] == PAGE_FREE;
    }
  }

  lemma FreePagesPages(s: PoolState, h: nat, n: nat)
    requires Valid(s) && h < NPages(s) && Releasable(s, h, n)
    ensures AllPagesOK(FreePagesSpec(s, h, n))
  {
    var t := FreePagesSpec(s, h, n);
    forall i | 0 <= i < NPages(t)
      ensures PageOK(t, i)
    {
      FreePagesPageOK(s, h, n, i);
    }
  }

  lemma FreePagesFreeList(s: PoolState, h: nat, n: nat)
    requires Valid(s) && h < NPages(s) && Releasable(s, h, n)
    ensures FreeListOK(FreePagesSpec(s, h, n))
  {
    ReleasableRange(s, h, n);
    var t := FreePagesSpec(s, h, n);
    assert forall x :: x in s.free ==> !(h <= x < h + n) && t.slab[x] == s.slab[x] && t.role[x] == s.role[x];
    DistinctCons(h, s.free);
    assert forall k :: 0 <= k < |t.free| ==> t.free[k] in t.free;
    forall i | 0 <= i < NPages(t) && IsFreeHead(t, i)
      ensures i in t.free
    {
      if i != h {
        assert !(h <= i < h + n);
        assert i in s.free;
      }
    }
  }

  lemma FreePagesSlot(s: PoolState, h: nat, n: nat, k: nat)
    requires Valid(s) && h < NPages(s) && Releasable(s, h, n) && k < SlotCount
    ensures SlotOK(FreePagesSpec(s, h, n), k)
  {
    ReleasableRange(s, h, n);
    var t := FreePagesSpec(s, h, n);
    var hs := PageChunkShift(s, h);
    assert SlotOK(s, k);
    if s.role[h] != PageRole && IsChunkShift(hs) && k == hs - MinShift {
      DistinctWithout(s.slots[k], h);
    } else {
      assert t.slots[k] == s.slots[k];
      assert h !in s.slots[k];
    }
    forall x | x in s.slots[k]
      ensures !(h < x < h + n)
    {
      if h < x < h + n {
        assert false;
      }
    }
    SlotKept(s, t, k, h, n);
  }

  /**
   * A slot list stays well formed when it loses pages and the pages it keeps
   * lie outside the run h .. h + n - 1, the only pages whose descriptors changed.
   */
  lemma SlotKept(s: PoolState, t: PoolState, k: nat, h: nat, n: nat)
    requires Shape(s) && Shape(t) && k < SlotCount && SlotOK(s, k)
    requires |t.slab| == |s.slab| && t.words == s.words && Distinct(t.slots[k])
    requires forall x :: x in s.slots[k] ==> !(h < x < h + n)
    requires forall x :: x in t.slots[k] ==> x in s.slots[k] && x != h
    requires forall x :: 0 <= x < |s.slab| && !(h <= x < h + n) ==> t.role[x] == s.role[x] && t.slab[x] == s.slab[x]
    ensures SlotOK(t, k)
  {
    forall x | x in t.slots[k]
      ensures x < NPages(t) && IsChunkPage(t, x) && PageChunkShift(t, x) == k + MinShift && HasFree(t, x)
    {
      SameChunkPage(s, t, x);
    }
    assert forall j :: 0 <= j < |t.slots[k]| ==> t.slots[k][j] in t.slots[k];
  }

  lemma FreePagesSlots(s: PoolState, h: nat, n: nat)
    requires Valid(s) && h < NPages(s) && Releasable(s, h, n)
    ensures AllSlotsOK(FreePagesSpec(s, h, n)) && SlotsComplete(FreePagesSpec(s, h, n))
  {
    ReleasableRange(s, h, n);
    var t := FreePagesSpec(s, h, n);
    forall k | 0 <= k < SlotCount
      ensures SlotOK(t, k)
    {
      FreePagesSlot(s, h, n, k);
    }
    FreePagesComplete(s, h, n);
  }

  /** A chunk page that keeps a free chunk after FreePagesSpec lies outside the run and stays listed. */
  lemma FreePagesComplete(s: PoolState, h: nat, n: nat)
    requires Valid(s) && h < NPages(s) && Releasable(s, h, n)
    ensures SlotsComplete(FreePagesSpec(s, h, n))
  {
    ReleasableRange(s, h, n);
    var t := FreePagesSpec(s, h, n);
    assert SlotsComplete(s);
    forall k | 0 <= k < SlotCount
      ensures forall x :: x in s.slots[k] && x != h ==> x in t.slots[k]
    {
    }
    CompleteKept(s, t, h, n);
  }

  /**
   * Every slot list keeps its pages other than h, and the pages h .. h + n - 1
   * stop being chunk pages: the chunk pages with a free chunk are still listed.
   */
  lemma CompleteKept(s: PoolState, t: PoolState, h: nat, n: nat)
    requires Shape(s) && Shape(t) && SlotsComplete(s) && n >= 1
    requires |t.slab| == |s.slab| && t.words == s.words
    requires forall x :: 0 <= x < |s.slab| && !(h <= x < h + n) ==> t.role[x] == s.role[x] && t.slab[x] == s.slab[x]
    requires forall x :: h <= x < h + n && x < |t.slab| ==> t.role[x] == PageRole
    requires forall k :: 0 <= k < SlotCount ==> forall x :: x in s.slots[k] && x != h ==> x in t.slots[k]
    ensures SlotsComplete(t)
  {
    forall i | 0 <= i < NPages(t) && IsChunkPage(t, i) && HasFree(t, i)
      ensures IsChunkShift(PageChunkShift(t, i)) && i in t.slots[PageChunkShift(t, i) - MinShift]
    {
      assert !(h <= i < h + n);
      SameChunkPage(s, t, i);
      assert i in s.slots[PageChunkShift(s, i) - MinShift];
    }
  }

  /** Giving back an allocated run or an emptied chunk page keeps the pool well formed. */
  lemma FreePagesValid(s: PoolState, h: nat, n: nat)
    requires Valid(s) && h < NPages(s) && Releasable(s, h, n)
    ensures Valid(FreePagesSpec(s, h, n))
  {
    FreePagesPages(s, h, n);
    FreePagesFreeList(s, h, n);
    FreePagesSlots(s, h, n);
  }

  /** Giving back n pages adds exactly n pages to the free list. */
  lemma FreePagesCount(s: PoolState, h: nat, n: nat)
    requires Valid(s) && h < NPages(s) && Releasable(s, h, n)
    ensures Valid(FreePagesSpec(s, h, n))
    ensures FreePageCount(FreePagesSpec(s, h, n).slab, FreePagesSpec(s, h, n).free)
            == FreePageCount(s.slab, s.free) + n
  {
    FreePagesValid(s, h, n);
    ReleasableRange(s, h, n);
    var t := FreePagesSpec(s, h, n);
    assert forall k :: 0 <= k < |s.free| ==> s.free[k] in s.free;
    assert forall x :: x in s.free ==> !(h <= x < h + n) && t.slab[x] == s.slab[x];
    FreeCountFrame(s.slab, t.slab, s.free);
    assert t.free[1..] == s.free;
  }
}
