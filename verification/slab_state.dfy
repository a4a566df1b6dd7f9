/**
 * The state of a slab pool (ngx_slab_pool_t plus its page descriptors and
 * page area), its well-formedness invariant, and which addresses are live
 * allocations.
 *
 * Page i of the pool starts at start + i * 4096.  Its descriptor holds the
 * occupancy word `slab[i]` and, in the low two bits of its prev word, the
 * role `role[i]`.  The page area is viewed as 32-bit words (`words`, 1024 per
 * page); a SMALL page keeps its chunk bitmap in its first words.  The
 * doubly linked lists of the source are kept as sequences of page indices:
 * `free` is the list of free page runs, `slots[k]` the list of chunk pages of
 * chunk shift k + 3 that still have a free chunk.
 */
module SlabState {
  import opened SlabTypes

  datatype Option<T> = None | Some(value: T)

  datatype PoolState = PoolState(
    start: nat,
    end: nat,
    slab: seq<nat>,
    role: seq<Role>,
    words: seq<nat>,
    free: seq<nat>,
    slots: seq<seq<nat>>)

  // ---------------------------------------------------------------------
  // Sequence helpers
  // ---------------------------------------------------------------------

  /** xs with positions [from, to) overwritten by v. */
  function Fill<T>(xs: seq<T>, from: nat, to: nat, v: T): (r: seq<T>)
    ensures |r| == |xs|
    ensures forall j :: 0 <= j < |xs| ==> r[j] == (if from <= j < to then v else xs[j])
  {
    seq(|xs|, j requires 0 <= j < |xs| => if from <= j < to then v else xs[j])
  }

  /** xs with every occurrence of x unlinked, the others kept in order. */
  function Without(xs: seq<nat>, x: nat): (r: seq<nat>)
    ensures forall y :: y in r <==> y in xs && y != x
    ensures |r| <= |xs|
  {
    if xs == [] then []
    else (if xs[0] == x then [] else [xs[0]]) + Without(xs[1..], x)
  }

  predicate Distinct(xs: seq<nat>)
  {
    forall j, k :: 0 <= j < k < |xs| ==> xs[j] != xs[k]
  }

  lemma DistinctCons(x: nat, xs: seq<nat>)
    requires x !in xs && Distinct(xs)
    ensures Distinct([x] + xs)
  {
    forall j, k | 0 <= j < k < |[x] + xs|
      ensures ([x] + xs)[j] != ([x] + xs)[k]
    {
      if j > 0 {
        assert ([x] + xs)[j] == xs[j - 1] && ([x] + xs)[k] == xs[k - 1];
      } else {
        assert ([x] + xs)[k] == xs[k - 1];
        assert xs[k - 1] in xs;
      }
    }
  }

  lemma {:induction false} DistinctWithout(xs: seq<nat>, x: nat)
    requires Distinct(xs)
    ensures Distinct(Without(xs, x))
    decreases |xs|
  {
    if xs != [] {
      assert Distinct(xs[1..]) by {
        forall j, k | 0 <= j < k < |xs[1..]|
          ensures xs[1..][j] != xs[1..][k]
        {
          assert xs[1..][j] == xs[j + 1] && xs[1..][k] == xs[k + 1];
        }
      }
      DistinctWithout(xs[1..], x);
      if xs[0] != x {
        assert xs[0] !in xs[1..] by {
          forall k | 0 <= k < |xs[1..]|
            ensures xs[1..][k] != xs[0]
          {
            assert xs[1..][k] == xs[k + 1];
          }
        }
        DistinctCons(xs[0], Without(xs[1..], x));
      } else {
        assert Without(xs, x) == Without(xs[1..], x);
      }
    }
  }

  /** Removing position j keeps the others and their distinctness. */
  lemma RemoveAt(xs: seq<nat>, j: nat)
    requires j < |xs| && Distinct(xs)
    ensures Distinct(xs[..j] + xs[j + 1..])
    ensures forall y :: y in xs[..j] + xs[j + 1..] <==> y in xs && y != xs[j]
  {
    var r := xs[..j] + xs[j + 1..];
    assert forall k :: 0 <= k < |r| ==> r[k] == (if k < j then xs[k] else xs[k + 1]);
    forall y | y in xs && y != xs[j]
      ensures y in r
    {
      var k :| 0 <= k < |xs| && xs[k] == y;
      if k < j {
        assert r[k] == y;
      } else {
        assert r[k - 1] == y;
      }
    }
  }

  /** Overwriting position j with a new element keeps distinctness. */
  lemma ReplaceAt(xs: seq<nat>, j: nat, y: nat)
    requires j < |xs| && Distinct(xs) && y !in xs
    ensures Distinct(xs[j := y])
    ensures forall z :: z in xs[j := y] <==> z == y || (z in xs && z != xs[j])
  {
    var r := xs[j := y];
    assert r[j] == y;
    forall z | z in xs && z != xs[j]
      ensures z in r
    {
      var k :| 0 <= k < |xs| && xs[k] == z;
      assert r[k] == z;
    }
    forall z | z in r
      ensures z == y || (z in xs && z != xs[j])
    {
      var k :| 0 <= k < |r| && r[k] == z;
      if k != j {
        assert xs[k] == z;
      }
    }
    forall a, b | 0 <= a < b < |r|
      ensures r[a] != r[b]
    {
      if a != j && b != j {
        assert r[a] == xs[a] && r[b] == xs[b];
      } else if a == j {
        assert r[b] == xs[b];
        assert xs[b] in xs;
      } else {
        assert r[a] == xs[a];
        assert xs[a] in xs;
      }
    }
  }

  // ---------------------------------------------------------------------
  // Shape and page classification
  // ---------------------------------------------------------------------

  function NPages(s: PoolState): nat
  {
    |s.slab|
  }

  predicate Shape(s: PoolState)
  {
    && |s.role| == |s.slab|
    && |s.words| == |s.slab| * WordsPerPage
    && |s.slots| == SlotCount
    && 0 < s.start && s.start % PageSize == 0
    && s.start + |s.slab| * PageSize <= s.end < Word32
  }

  /** Word k of the bitmap kept at the start of page i. */
  function MapWord(s: PoolState, i: nat, k: nat): nat
    requires Shape(s) && i < NPages(s) && k < WordsPerPage
  {
    s.words[i * WordsPerPage + k]
  }

  /** First page of a free run: its slab is the run length. */
  predicate IsFreeHead(s: PoolState, i: nat)
    requires Shape(s) && i < NPages(s)
  {
    s.role[i] == PageRole && PAGE_FREE < s.slab[i] < PAGE_START
  }

  /** First page of an allocated run: its slab is the run length | PAGE_START. */
  predicate IsUsedHead(s: PoolState, i: nat)
    requires Shape(s) && i < NPages(s)
  {
    s.role[i] == PageRole && PAGE_START < s.slab[i] < PAGE_BUSY
  }

  /** A page inside a run, after its first page: PAGE_FREE or PAGE_BUSY. */
  predicate IsCont(s: PoolState, i: nat)
    requires Shape(s) && i < NPages(s)
  {
    s.role[i] == PageRole && (s.slab[i] == PAGE_FREE || s.slab[i] == PAGE_BUSY)
  }

  predicate IsChunkPage(s: PoolState, i: nat)
    requires Shape(s) && i < NPages(s)
  {
    s.role[i] != PageRole
  }

  /** Pages spanned by a page that begins a block: run length, or 1 for a chunk page. */
  function HeadLen(s: PoolState, i: nat): nat
    requires Shape(s) && i < NPages(s)
  {
    if s.role[i] != PageRole then 1
    else if s.slab[i] >= PAGE_START then s.slab[i] - PAGE_START
    else s.slab[i]
  }

  /** The chunk shift of a chunk page, as ngx_slab_free reads it. */
  function PageChunkShift(s: PoolState, i: nat): nat
    requires Shape(s) && i < NPages(s)
  {
    if s.role[i] == Exact then ExactShift else s.slab[i] % 16
  }

  /** slab >> NGX_SLAB_MAP_SHIFT: the chunk map of a BIG page. */
  function BigMap(w: nat): nat
  {
    w / 0x1_0000
  }

  // ---------------------------------------------------------------------
  // Chunk occupancy
  // ---------------------------------------------------------------------

  /** Whether chunk c of chunk page i is marked in use. */
  predicate ChunkUsed(s: PoolState, i: nat, c: nat)
    requires Shape(s) && i < NPages(s) && c < 512
  {
    match s.role[i]
    case Small => Bit(MapWord(s, i, c / WordBits), c % WordBits)
    case Exact => Bit(s.slab[i], c)
    case Big => Bit(BigMap(s.slab[i]), c)
    case PageRole => false
  }

  /** The first bitmap word of SMALL page i that is not all ones, as an index into words. */
  function SmallFirstOpenWord(s: PoolState, i: nat): nat
    requires Shape(s) && i < NPages(s) && 3 <= s.slab[i] <= 6
  {
    Geometry(s.slab[i]);
    FirstNot(s.words, i * WordsPerPage, i * WordsPerPage + MapWords(s.slab[i]), BUSY)
  }

  /** Whether chunk page i still has a chunk to hand out (the test each alloc loop makes). */
  predicate HasFree(s: PoolState, i: nat)
    requires Shape(s) && i < NPages(s)
  {
    match s.role[i]
    case Small =>
      3 <= s.slab[i] <= 6 &&
      (Geometry(s.slab[i]);
       SmallFirstOpenWord(s, i) < i * WordsPerPage + MapWords(s.slab[i]))
    case Exact => s.slab[i] != BUSY
    case Big =>
      8 <= s.slab[i] % 16 <= 11 &&
      BigMap(s.slab[i]) != LowMask(ChunksPerPage(s.slab[i] % 16))
    case PageRole => false
  }

  // ---------------------------------------------------------------------
  // The invariant
  // ---------------------------------------------------------------------

  /** Pages (h, h + len) continue a free run. */
  predicate FreeRun(s: PoolState, h: nat, len: nat)
    requires Shape(s)
  {
    h + len <= NPages(s) &&
    forall j :: h < j < h + len ==> s.role[j] == PageRole && s.slab[j] == PAGE_FREE
  }

  /** Pages (h, h + len) continue an allocated run. */
  predicate BusyRun(s: PoolState, h: nat, len: nat)
    requires Shape(s)
  {
    h + len <= NPages(s) &&
    forall j :: h < j < h + len ==> s.role[j] == PageRole && s.slab[j] == PAGE_BUSY
  }

  predicate SmallMapOK(s: PoolState, i: nat)
    requires Shape(s) && i < NPages(s) && 3 <= s.slab[i] <= 6
  {
    Geometry(s.slab[i]);
    (forall k :: 0 <= k < MapWords(s.slab[i]) ==> MapWord(s, i, k) < Word32) &&
    (forall b :: 0 <= b < StorageChunks(s.slab[i]) ==> Bit(MapWord(s, i, 0), b))
  }

  predicate PageOK(s: PoolState, i: nat)
    requires Shape(s) && i < NPages(s)
  {
    match s.role[i]
    case PageRole =>
      || s.slab[i] == PAGE_FREE
      || s.slab[i] == PAGE_BUSY
      || (PAGE_FREE < s.slab[i] < PAGE_START && FreeRun(s, i, s.slab[i]))
      || (PAGE_START < s.slab[i] < PAGE_BUSY && BusyRun(s, i, s.slab[i] - PAGE_START))
    case Small => 3 <= s.slab[i] <= 6 && SmallMapOK(s, i)
    case Exact => s.slab[i] < Word32
    case Big =>
      && 8 <= s.slab[i] % 16 <= 11
      && s.slab[i] % 0x1_0000 == s.slab[i] % 16
      && BigMap(s.slab[i]) < Pow2(ChunksPerPage(s.slab[i] % 16))
  }

  predicate FreeListOK(s: PoolState)
    requires Shape(s)
  {
    && Distinct(s.free)
    && (forall k :: 0 <= k < |s.free| ==> s.free[k] < NPages(s))
    && (forall x :: x in s.free ==> x < NPages(s) && IsFreeHead(s, x))
    && (forall i :: 0 <= i < NPages(s) && IsFreeHead(s, i) ==> i in s.free)
  }

  /** The members of slot list k: chunk pages of shift k + 3 with a free chunk, each once. */
  predicate SlotOK(s: PoolState, k: nat)
    requires Shape(s) && k < SlotCount
  {
    && Distinct(s.slots[k])
    && (forall j :: 0 <= j < |s.slots[k]| ==> s.slots[k][j] < NPages(s))
    && (forall x :: x in s.slots[k] ==>
          && x < NPages(s)
          && IsChunkPage(s, x)
          && PageChunkShift(s, x) == k + MinShift
          && HasFree(s, x))
  }

  predicate AllPagesOK(s: PoolState)
    requires Shape(s)
  {
    forall i :: 0 <= i < NPages(s) ==> PageOK(s, i)
  }

  predicate AllSlotsOK(s: PoolState)
    requires Shape(s)
  {
    forall k :: 0 <= k < SlotCount ==> SlotOK(s, k)
  }

  /** Every chunk page with a free chunk is on the slot list of its shift. */
  predicate SlotsComplete(s: PoolState)
    requires Shape(s)
  {
    forall i :: 0 <= i < NPages(s) && IsChunkPage(s, i) && HasFree(s, i) ==>
      IsChunkShift(PageChunkShift(s, i)) && i in s.slots[PageChunkShift(s, i) - MinShift]
  }

  predicate Valid(s: PoolState)
  {
    && Shape(s)
    && AllPagesOK(s)
    && FreeListOK(s)
    && AllSlotsOK(s)
    && SlotsComplete(s)
  }

  // ---------------------------------------------------------------------
  // Live allocations
  // ---------------------------------------------------------------------

  predicate InPages(s: PoolState, p: nat)
  {
    s.start <= p < s.start + NPages(s) * PageSize
  }

  function PageOf(s: PoolState, p: nat): nat
    requires InPages(s, p)
  {
    (p - s.start) / PageSize
  }

  function OffsetOf(s: PoolState, p: nat): nat
    requires InPages(s, p)
  {
    (p - s.start) % PageSize
  }

  /**
   * p is the address of a block handed out by ngx_slab_alloc and not yet
   * released: the first byte of an allocated page run, or of a chunk that is
   * marked in use (and is not one of the chunks a SMALL page keeps its bitmap
   * in).
   */
  predicate Live(s: PoolState, p: nat)
    requires Shape(s)
  {
    InPages(s, p) &&
    var i := PageOf(s, p);
    var off := OffsetOf(s, p);
    if s.role[i] == PageRole then off == 0 && IsUsedHead(s, i)
    else
      var cs := ChunkSize(PageChunkShift(s, i));
      off % cs == 0 && off / cs < 512 && ChunkUsed(s, i, off / cs) &&
      (s.role[i] == Small ==>
         PageChunkShift(s, i) <= PageShift && off / cs >= StorageChunks(PageChunkShift(s, i)))
  }

  /** The number of bytes the block at p spans. */
  function Extent(s: PoolState, p: nat): nat
    requires Shape(s) && Live(s, p)
  {
    var i := PageOf(s, p);
    if s.role[i] == PageRole then HeadLen(s, i) * PageSize
    else ChunkSize(PageChunkShift(s, i))
  }

  /** The number of pages on the free-run list. */
  function FreePageCount(slab: seq<nat>, free: seq<nat>): nat
    requires forall j :: 0 <= j < |free| ==> free[j] < |slab|
  {
    if free == [] then 0 else slab[free[0]] + FreePageCount(slab, free[1..])
  }

  // ---------------------------------------------------------------------
  // Structural facts
  // ---------------------------------------------------------------------

  /** A page inside a run is never the first page of a block. */
  lemma ContNotHead(s: PoolState, i: nat)
    requires Shape(s) && i < NPages(s) && IsCont(s, i)
    ensures !IsFreeHead(s, i) && !IsUsedHead(s, i) && !IsChunkPage(s, i)
  {
  }

  /** Blocks that begin at different pages do not overlap. */
  lemma HeadsApart(s: PoolState, a: nat, b: nat)
    requires Shape(s) && a < b < NPages(s) && PageOK(s, a)
    requires !IsCont(s, a) && !IsCont(s, b)
    ensures a + HeadLen(s, a) <= b
  {
    assert IsCont(s, b) || a + HeadLen(s, a) <= b;
  }

  /** The geometry facts a chunk page's shift brings. */
  lemma ChunkPageShift(s: PoolState, i: nat)
    requires Valid(s) && i < NPages(s) && IsChunkPage(s, i)
    ensures IsChunkShift(PageChunkShift(s, i))
    ensures RoleOfShift(PageChunkShift(s, i)) == s.role[i]
  {
    assert PageOK(s, i);
  }

  /** Within one page, chunks of one size at different offsets do not overlap. */
  lemma ChunksApart(cs: nat, a: nat, b: nat)
    requires cs > 0 && a % cs == 0 && b % cs == 0 && a < b
    ensures a + cs <= b
  {
    assert a / cs < b / cs by {
      assert a == (a / cs) * cs && b == (b / cs) * cs;
      if a / cs >= b / cs {
        MulMonotone(b / cs, a / cs, cs);
      }
    }
    assert a + cs == (a / cs + 1) * cs;
    MulMonotone(a / cs + 1, b / cs, cs);
  }

  /** A chunk lies inside its page. */
  lemma ChunkInPage(shift: nat, off: nat)
    requires IsChunkShift(shift) && off < PageSize && off % ChunkSize(shift) == 0
    ensures off + ChunkSize(shift) <= PageSize
  {
    Geometry(shift);
    ChunksApart(ChunkSize(shift), off, PageSize);
  }

  /** Two live blocks never overlap. */
  lemma LiveDisjoint(s: PoolState, p: nat, q: nat)
    requires Valid(s) && Live(s, p) && Live(s, q) && p < q
    ensures p + Extent(s, p) <= q
  {
    var i, j := PageOf(s, p), PageOf(s, q);
    assert p == s.start + i * PageSize + OffsetOf(s, p);
    assert q == s.start + j * PageSize + OffsetOf(s, q);
    assert i <= j;
    if s.role[i] == PageRole {
      assert OffsetOf(s, p) == 0;
      assert i != j;
      assert !IsCont(s, j);
      HeadsApart(s, i, j);
      assert HeadLen(s, i) == s.slab[i] - PAGE_START;
      MulMonotone(i + HeadLen(s, i), j, PageSize);
    } else {
      var sh := PageChunkShift(s, i);
      ChunkPageShift(s, i);
      if i == j {
        ChunksApart(ChunkSize(sh), OffsetOf(s, p), OffsetOf(s, q));
      } else {
        ChunkInPage(sh, OffsetOf(s, p));
        MulMonotone(i + 1, j, PageSize);
      }
    }
  }
}
