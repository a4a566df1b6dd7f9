/**
 * Constants, descriptor tags and word-level arithmetic of the nginx slab
 * allocator (src/core/ngx_slab.h, src/core/ngx_slab.c), for the 32-bit
 * constant set: 4096-byte pages, 32-bit machine words, smallest chunk 8 bytes.
 *
 * A machine word is an unsigned integer below 2^32.  Its bits are read by
 * halving (Shr, Bit), so that setting or clearing a bit is adding or
 * subtracting a power of two.
 */
module SlabTypes {

  // ---------------------------------------------------------------------
  // Geometry (32-bit platform, 4 KiB pages, min_shift 3)
  // ---------------------------------------------------------------------

  const PageSize: nat := 4096
  const PageShift: nat := 12
  const MinShift: nat := 3
  const MinSize: nat := 8
  const WordBits: nat := 32
  /** Chunk size whose chunks map one-to-one onto the bits of a word: PageSize / WordBits. */
  const ExactSize: nat := 128
  const ExactShift: nat := 7
  /** Requests of at least half a page are served as whole pages. */
  const MaxSize: nat := 2048
  /** One slot list per chunk shift MinShift .. PageShift - 1. */
  const SlotCount: nat := 9
  /** sizeof(ngx_slab_page_t): three 32-bit words. */
  const DescSize: nat := 12
  const WordsPerPage: nat := 1024
  const Word32: nat := 0x1_0000_0000

  // ---------------------------------------------------------------------
  // Occupancy-word sentinels and masks (32-bit set)
  // ---------------------------------------------------------------------

  const PAGE_FREE: nat := 0
  const PAGE_BUSY: nat := 0xffff_ffff
  const PAGE_START: nat := 0x8000_0000
  const SHIFT_MASK: nat := 0x0000_000f
  const MAP_SHIFT: nat := 16
  const BUSY: nat := 0xffff_ffff

  // ---------------------------------------------------------------------
  // Role tags carried in the low two bits of a descriptor's prev word
  // ---------------------------------------------------------------------

  datatype Role = PageRole | Big | Exact | Small

  function Tag(r: Role): (t: nat)
    ensures t <= 3
  {
    match r
    case PageRole => 0
    case Big => 1
    case Exact => 2
    case Small => 3
  }

  /** prev & NGX_SLAB_PAGE_MASK, read back as a role. */
  function RoleOfTag(t: nat): (r: Role)
    requires t <= 3
    ensures Tag(r) == t
  {
    if t == 0 then PageRole else if t == 1 then Big else if t == 2 then Exact else Small
  }

  // ---------------------------------------------------------------------
  // Powers of two and per-shift page geometry
  // ---------------------------------------------------------------------

  function Pow2(k: nat): (r: nat)
    ensures r >= 1
  {
    if k == 0 then 1 else 2 * Pow2(k - 1)
  }

  lemma {:induction false} Pow2Add(a: nat, b: nat)
    ensures Pow2(a + b) == Pow2(a) * Pow2(b)
    decreases a
  {
    if a > 0 {
      Pow2Add(a - 1, b);
    }
  }

  lemma {:induction false} Pow2Monotone(a: nat, b: nat)
    requires a <= b
    ensures Pow2(a) <= Pow2(b)
    decreases b
  {
    if a < b {
      Pow2Monotone(a, b - 1);
    }
  }

  lemma Pow2Word32()
    ensures Pow2(16) == 0x1_0000 && Pow2(31) == PAGE_START && Pow2(32) == Word32
  {
    Pow2Add(16, 16);
    Pow2Add(16, 15);
    assert Pow2(15) == 0x8000;
  }

  /** A chunk shift served by a slot list. */
  predicate IsChunkShift(shift: nat)
  {
    MinShift <= shift < PageShift
  }

  function ChunkSize(shift: nat): (r: nat)
    ensures r >= 1
  {
    Pow2(shift)
  }

  /** The index of the chunk an offset inside a page falls in: off >> shift. */
  function ChunkIndex(off: nat, shift: nat): nat
  {
    DivOfNat(off, ChunkSize(shift));
    off / ChunkSize(shift)
  }

  lemma DivOfNat(x: int, m: int)
    requires x >= 0 && m >= 1
    ensures x / m >= 0
  {
  }

  function ChunksPerPage(shift: nat): (r: nat)
    requires shift <= PageShift
    ensures MinShift <= shift ==> r <= 512
  {
    if MinShift <= shift then
      Pow2Monotone(PageShift - shift, 9);
      assert Pow2(9) == 512;
      Pow2(PageShift - shift)
    else Pow2(PageShift - shift)
  }

  /** Bitmap words a SMALL page keeps at its own start: (1 << (pagesize_shift - shift)) / (8 * sizeof(uintptr_t)). */
  function MapWords(shift: nat): nat
    requires shift <= PageShift
  {
    ChunksPerPage(shift) / WordBits
  }

  /** Chunks a SMALL page spends on its own bitmap, at least one. */
  function StorageChunks(shift: nat): nat
    requires shift <= PageShift
  {
    var n := ChunksPerPage(shift) / 8 / ChunkSize(shift);
    if n == 0 then 1 else n
  }

  function SlotOfShift(shift: nat): nat
    requires IsChunkShift(shift)
  {
    shift - MinShift
  }

  /** The occupancy encoding a chunk shift uses. */
  function RoleOfShift(shift: nat): Role
  {
    if shift < ExactShift then Small else if shift == ExactShift then Exact else Big
  }

  /** Every chunk shift's geometry, spelled out. */
  lemma Geometry(shift: nat)
    requires IsChunkShift(shift)
    ensures ChunkSize(shift) * ChunksPerPage(shift) == PageSize
    ensures shift == 3 ==> ChunkSize(shift) == 8 && ChunksPerPage(shift) == 512 && MapWords(shift) == 16 && StorageChunks(shift) == 8
    ensures shift == 4 ==> ChunkSize(shift) == 16 && ChunksPerPage(shift) == 256 && MapWords(shift) == 8 && StorageChunks(shift) == 2
    ensures shift == 5 ==> ChunkSize(shift) == 32 && ChunksPerPage(shift) == 128 && MapWords(shift) == 4 && StorageChunks(shift) == 1
    ensures shift == 6 ==> ChunkSize(shift) == 64 && ChunksPerPage(shift) == 64 && MapWords(shift) == 2 && StorageChunks(shift) == 1
    ensures shift == 7 ==> ChunkSize(shift) == 128 && ChunksPerPage(shift) == 32
    ensures shift == 8 ==> ChunkSize(shift) == 256 && ChunksPerPage(shift) == 16
    ensures shift == 9 ==> ChunkSize(shift) == 512 && ChunksPerPage(shift) == 8
    ensures shift == 10 ==> ChunkSize(shift) == 1024 && ChunksPerPage(shift) == 4
    ensures shift == 11 ==> ChunkSize(shift) == 2048 && ChunksPerPage(shift) == 2
  {
    Pow2Add(shift, PageShift - shift);
    assert Pow2(PageShift) == 4096;
  }

  /** The geometry of the shifts SMALL pages use, spelled out. */
  lemma SmallGeometry(shift: nat)
    requires MinShift <= shift < ExactShift
    ensures shift == 3 ==> ChunkSize(shift) == 8 && ChunksPerPage(shift) == 512 && MapWords(shift) == 16 && StorageChunks(shift) == 8
    ensures shift == 4 ==> ChunkSize(shift) == 16 && ChunksPerPage(shift) == 256 && MapWords(shift) == 8 && StorageChunks(shift) == 2
    ensures shift == 5 ==> ChunkSize(shift) == 32 && ChunksPerPage(shift) == 128 && MapWords(shift) == 4 && StorageChunks(shift) == 1
    ensures shift == 6 ==> ChunkSize(shift) == 64 && ChunksPerPage(shift) == 64 && MapWords(shift) == 2 && StorageChunks(shift) == 1
  {
    Geometry(shift);
  }

  /** Chunk c of a page of the given shift lies inside the page at offset c * size. */
  lemma ChunkOffset(shift: nat, c: nat)
    requires IsChunkShift(shift) && c < ChunksPerPage(shift)
    ensures c * ChunkSize(shift) < PageSize
    ensures (c * ChunkSize(shift)) % ChunkSize(shift) == 0
    ensures (c * ChunkSize(shift)) / ChunkSize(shift) == c
  {
    Geometry(shift);
    var cs := ChunkSize(shift);
    if shift == 3 {
      assert c * cs == c * 8 && (c * 8) % 8 == 0 && (c * 8) / 8 == c;
    } else if shift == 4 {
      assert c * cs == c * 16 && (c * 16) % 16 == 0 && (c * 16) / 16 == c;
    } else if shift == 5 {
      assert c * cs == c * 32 && (c * 32) % 32 == 0 && (c * 32) / 32 == c;
    } else if shift == 6 {
      assert c * cs == c * 64 && (c * 64) % 64 == 0 && (c * 64) / 64 == c;
    } else if shift == 7 {
      assert c * cs == c * 128 && (c * 128) % 128 == 0 && (c * 128) / 128 == c;
    } else if shift == 8 {
      assert c * cs == c * 256 && (c * 256) % 256 == 0 && (c * 256) / 256 == c;
    } else if shift == 9 {
      assert c * cs == c * 512 && (c * 512) % 512 == 0 && (c * 512) / 512 == c;
    } else if shift == 10 {
      assert c * cs == c * 1024 && (c * 1024) % 1024 == 0 && (c * 1024) / 1024 == c;
    } else {
      assert c * cs == c * 2048 && (c * 2048) % 2048 == 0 && (c * 2048) / 2048 == c;
    }
  }

  /** The chunk an offset inside a page falls in is a chunk of that page. */
  lemma ChunkIndexBound(shift: nat, off: nat)
    requires IsChunkShift(shift) && off < PageSize
    ensures 0 <= off / ChunkSize(shift) < ChunksPerPage(shift) <= 512
  {
    Geometry(shift);
  }

  /** In a page-aligned pool, an address is aligned to a chunk size that divides the page exactly when its offset in its page is. */
  lemma AddrMod(start: nat, x: nat, cs: nat, n: nat)
    requires start % PageSize == 0 && 0 < cs && cs * n == PageSize
    ensures (start + x) % cs == (x % PageSize) % cs
  {
    var r := x % PageSize;
    var k := start / PageSize + x / PageSize;
    assert start + x == PageSize * k + r;
    MulAssoc(cs, n, k);
    DivMod(r, cs);
    MulDistrib(cs, n * k, r / cs);
    assert start + x == cs * (n * k + r / cs) + r % cs;
    ModOfSum(cs, n * k + r / cs, r % cs);
  }

  lemma MulAssoc(a: nat, b: nat, c: nat)
    ensures (a * b) * c == a * (b * c)
  {
  }

  lemma MulDistrib(a: nat, b: nat, c: nat)
    ensures a * b + a * c == a * (b + c)
  {
  }

  lemma DivMod(x: nat, m: nat)
    requires m > 0
    ensures x == m * (x / m) + x % m
  {
  }

  /** Division by m is unique: m * q + t with t < m leaves remainder t. */
  lemma ModOfSum(m: nat, q: nat, t: nat)
    requires 0 < m && t < m
    ensures (m * q + t) % m == t
  {
    var y := m * q + t;
    var d := y / m;
    assert y == m * d + y % m;
    if d > q {
      MulMonotone(q + 1, d, m);
      assert false;
    } else if d < q {
      MulMonotone(d + 1, q, m);
      assert false;
    }
  }

  lemma MulMonotone(x: nat, y: nat, c: nat)
    requires x <= y
    ensures x * c <= y * c
  {
  }

  /** An aligned offset is its chunk index times the chunk size. */
  lemma ChunkMultiple(cs: nat, off: nat)
    requires cs > 0 && off % cs == 0
    ensures (off / cs) * cs == off
  {
    assert off == (off / cs) * cs + off % cs;
  }

  /** The bitmap word of a chunk of a SMALL page lies inside the page's bitmap. */
  lemma WordOfChunk(shift: nat, c: nat)
    requires MinShift <= shift < ExactShift && c < ChunksPerPage(shift)
    ensures c / WordBits < MapWords(shift) && c / WordBits < 16
  {
    Geometry(shift);
  }

  /** Bit b of word x of a bitmap is bit x * 32 + b of the whole map. */
  lemma WordIndex(x: nat, b: nat)
    requires b < WordBits
    ensures (x * WordBits + b) / WordBits == x && (x * WordBits + b) % WordBits == b
  {
  }

  /** Offsets aligned to the same chunk are the same offset. */
  lemma SameChunk(cs: nat, a: nat, b: nat)
    requires cs > 0 && b % cs == 0
    ensures a % cs == 0 && a / cs == b / cs ==> a == b
  {
    assert a == (a / cs) * cs + a % cs && b == (b / cs) * cs;
  }

  /** An offset other than chunk c's own does not name chunk c. */
  lemma ChunkIndexDiffers(cs: nat, off: nat, c: nat)
    requires cs > 0 && off != c * cs
    ensures !(off % cs == 0 && off / cs == c)
  {
    assert off == (off / cs) * cs + off % cs;
  }

  // ---------------------------------------------------------------------
  // Bits of a word
  // ---------------------------------------------------------------------

  /** w >> k */
  function Shr(w: nat, k: nat): nat
  {
    if k == 0 then w else Shr(w / 2, k - 1)
  }

  /** (w >> b) & 1 */
  predicate Bit(w: nat, b: nat)
  {
    Shr(w, b) % 2 == 1
  }

  /** w | (1 << b), for a bit that is clear */
  function SetBit(w: nat, b: nat): nat
  {
    w + Pow2(b)
  }

  /** w & ~(1 << b), for a bit that is set */
  function ClearBit(w: nat, b: nat): nat
    requires Bit(w, b)
  {
    ClearBitGe(w, b);
    w - Pow2(b)
  }

  lemma {:induction false} ClearBitGe(w: nat, b: nat)
    requires Bit(w, b)
    ensures w >= Pow2(b)
    decreases b
  {
    if b > 0 {
      ClearBitGe(w / 2, b - 1);
    }
  }

  /** (1 << k) - 1: the k lowest bits. */
  function LowMask(k: nat): nat
  {
    Pow2(k) - 1
  }

  lemma {:induction false} ShrZero(k: nat)
    ensures Shr(0, k) == 0
    decreases k
  {
    if k > 0 {
      ShrZero(k - 1);
    }
  }

  /** The bits of w above a are those of w >> a. */
  lemma {:induction false} BitShr(w: nat, a: nat, b: nat)
    ensures Bit(w, a + b) == Bit(Shr(w, a), b)
    decreases a
  {
    if a > 0 {
      BitShr(w / 2, a - 1, b);
    }
  }

  /** Setting bit b leaves it set and every other bit as it was. */
  lemma {:induction false} SetBitBits(w: nat, b: nat, c: nat)
    requires !Bit(w, b)
    ensures Bit(SetBit(w, b), c) == (c == b || Bit(w, c))
    decreases b
  {
    if b == 0 {
      if c > 0 {
        assert (w + 1) / 2 == w / 2;
      }
    } else if c == 0 {
      assert Pow2(b) == 2 * Pow2(b - 1);
    } else {
      assert (w + Pow2(b)) / 2 == w / 2 + Pow2(b - 1);
      SetBitBits(w / 2, b - 1, c - 1);
    }
  }

  /** Clearing bit b leaves it clear and every other bit as it was. */
  lemma {:induction false} ClearBitBits(w: nat, b: nat, c: nat)
    requires Bit(w, b)
    ensures Bit(ClearBit(w, b), c) == (c != b && Bit(w, c))
    decreases b
  {
    ClearBitGe(w, b);
    var v := w - Pow2(b);
    assert !Bit(v, b) by {
      ClearLeavesClear(w, b);
    }
    SetBitBits(v, b, c);
    assert SetBit(v, b) == w;
  }

  lemma {:induction false} ClearLeavesClear(w: nat, b: nat)
    requires Bit(w, b)
    ensures w >= Pow2(b) && !Bit(w - Pow2(b), b)
    decreases b
  {
    ClearBitGe(w, b);
    if b > 0 {
      ClearLeavesClear(w / 2, b - 1);
      assert (w - Pow2(b)) / 2 == w / 2 - Pow2(b - 1);
    }
  }

  /** A word below 2^k has no bit at k or above. */
  lemma {:induction false} BitsBelow(w: nat, k: nat, b: nat)
    requires w < Pow2(k) && k <= b
    ensures !Bit(w, b)
    decreases k
  {
    if k == 0 {
      assert w == 0;
      ShrZero(b);
    } else {
      BitsBelow(w / 2, k - 1, b - 1);
    }
  }

  /** Setting a clear bit below k keeps a word below 2^k. */
  lemma {:induction false} SetBitBound(w: nat, b: nat, k: nat)
    requires w < Pow2(k) && b < k && !Bit(w, b)
    ensures SetBit(w, b) < Pow2(k)
    decreases b
  {
    assert Pow2(k) == 2 * Pow2(k - 1);
    if b == 0 {
      assert w % 2 == 0;
    } else {
      assert w / 2 < Pow2(k - 1);
      SetBitBound(w / 2, b - 1, k - 1);
      assert Pow2(b) == 2 * Pow2(b - 1);
      assert w + Pow2(b) == 2 * (w / 2 + Pow2(b - 1)) + w % 2;
    }
  }

  /** Below 2^k, the all-ones word is the one whose k low bits are all set. */
  lemma {:induction false} AllOnes(w: nat, k: nat)
    requires w < Pow2(k)
    ensures w == LowMask(k) <==> (forall b :: 0 <= b < k ==> Bit(w, b))
    decreases k
  {
    if k > 0 {
      AllOnes(w / 2, k - 1);
      if w == LowMask(k) {
        assert w / 2 == LowMask(k - 1) && w % 2 == 1;
        forall b | 0 <= b < k
          ensures Bit(w, b)
        {
          if b > 0 {
            assert Bit(w / 2, b - 1);
          }
        }
      } else if w % 2 == 1 {
        assert w / 2 != LowMask(k - 1);
        var b :| 0 <= b < k - 1 && !Bit(w / 2, b);
        assert !Bit(w, b + 1);
      } else {
        assert !Bit(w, 0);
      }
    }
  }

  /** Below 2^k, zero is the word whose k low bits are all clear. */
  lemma {:induction false} AllZero(w: nat, k: nat)
    requires w < Pow2(k)
    ensures w == 0 <==> (forall b :: 0 <= b < k ==> !Bit(w, b))
    decreases k
  {
    if k > 0 {
      AllZero(w / 2, k - 1);
      if w == 0 {
        forall b | 0 <= b < k
          ensures !Bit(w, b)
        {
          ShrZero(b);
        }
      } else if w % 2 == 1 {
        assert Bit(w, 0);
      } else {
        assert w / 2 != 0;
        var b :| 0 <= b < k - 1 && Bit(w / 2, b);
        assert Bit(w, b + 1);
      }
    }
  }

  /** The k lowest bits are exactly those of (1 << k) - 1. */
  lemma {:induction false} LowMaskBits(k: nat, b: nat)
    ensures Bit(LowMask(k), b) == (b < k)
    decreases k
  {
    if k == 0 {
      ShrZero(b);
    } else if b > 0 {
      assert LowMask(k) / 2 == LowMask(k - 1);
      LowMaskBits(k - 1, b - 1);
    }
  }

  /** w >> k is zero exactly when w has no bit at k or above (w & ~((1 << k) - 1) == 0). */
  lemma {:induction false} ShrZeroBits(w: nat, k: nat, b: nat)
    requires Shr(w, k) == 0 && k <= b
    ensures !Bit(w, b)
    decreases k
  {
    BitShr(w, k, b - k);
    ShrZero(b - k);
  }

  // ---------------------------------------------------------------------
  // Searches over the bits of a word and over a run of words
  // ---------------------------------------------------------------------

  /** The lowest clear bit of w in [from, to), or to when there is none. */
  function LowestClear(w: nat, from: nat, to: nat): (r: nat)
    requires from <= to
    ensures from <= r <= to
    ensures r < to ==> !Bit(w, r)
    ensures (forall b :: from <= b < r ==> Bit(w, b))
    decreases (to as int) - (from as int)
  {
    if from == to then to
    else if !Bit(w, from) then from
    else LowestClear(w, from + 1, to)
  }

  /** The first position j in [from, to) with ws[j] != v, or to when there is none. */
  function FirstNot(ws: seq<nat>, from: nat, to: nat, v: nat): (r: nat)
    requires from <= to <= |ws|
    ensures from <= r <= to
    ensures r < to ==> ws[r] != v
    ensures (forall j :: from <= j < r ==> ws[j] == v)
    decreases (to as int) - (from as int)
  {
    if from == to then to
    else if ws[from] != v then from
    else FirstNot(ws, from + 1, to, v)
  }

  /** A word below 2^32 other than the all-ones word has a clear bit. */
  lemma NotBusyHasClear(w: nat)
    requires w < Word32 && w != BUSY
    ensures LowestClear(w, 0, WordBits) < WordBits
  {
    Pow2Word32();
    AllOnes(w, 32);
  }
}
