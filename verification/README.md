# nginx 0.5.0: slab allocator and IP-hash peer selection

This project models two pieces of nginx 0.5.0 in Dafny and proves properties of them.

The first is the shared-memory **slab allocator** (`src/core/ngx_slab.c`, `src/core/ngx_slab.h`). A pool is one region: slot list heads, a descriptor per page, then the pages.

- `ngx_slab_init` lays the region out and makes all pages one free run.
- `ngx_slab_alloc` serves requests of 2048 bytes or more with whole pages, taken first-fit from the free-run list.
- Smaller requests get a power-of-two chunk from a page on the slot list of that chunk shift. A fresh page is carved when the list has none with a free chunk.
- Chunk pages use one of three occupancy encodings:
  - SMALL (8 to 64 bytes): a bitmap in the page's own first chunks;
  - EXACT (128 bytes): the descriptor's slab word is the bitmap;
  - BIG (256 to 2048 bytes): the shift in the slab word's low bits, the map in its upper half.
- `ngx_slab_free` finds the page and its role from the address and validates the pointer. It clears the chunk's bit, relinks a page that was full, and returns an emptied page to the free-run list.

The second is the **IP-hash peer selection** of `src/http/modules/ngx_http_upstream_ip_hash_module.c`.

- A request's state is seeded with hash 89 and three bytes of the client's IPv4 address: bits 31-8 of the word `s_addr` as the host reads it. On a big-endian host these are the address's first three octets. On a little-endian host they are its last three, last first.
- Each call walks the hash sequence `hash = (hash * 113 + byte) % 6271` over the peer table. It skips peers already tried and peers that are down.
- It accepts the first peer whose failure count, or failing that its failure timeout, allows it.
- After twenty refused rounds it falls back to round robin.

The model fixes the 32-bit constant set:

- 4096-byte pages and 32-bit words;
- min_shift 3, so the smallest chunk is 8 bytes;
- exact size 128 (shift 7);
- max size 2048;
- nine slot lists.

Descriptors become arrays indexed by page number:

- `slab` holds the occupancy word;
- `role` holds the tag kept in the low bits of `prev`;
- the page area is an array of 32-bit words, where SMALL bitmaps live;
- each slot list and the free-run list is a sequence of page indices, first to last.

A page absent from its slot list is what `next == NULL` marks in the source.

Layout of the project:

- `slab_types.dfy`: constants, role tags, per-shift geometry and word-level bit arithmetic. A word is a natural number below 2^32, and setting or clearing a bit is adding or subtracting a power of two.
- `slab_state.dfy`: the value `PoolState` and its invariant `Valid`. Among other things, `Valid` says that:
  - every descriptor holds a value the code can leave there: a PAGE_FREE or PAGE_BUSY page, the head of a free run or of an allocated run whose following pages carry the matching value, or a chunk page whose occupancy word fits its encoding. It does not say that every PAGE_FREE or PAGE_BUSY page lies in some run (see Left out);
  - the free list lists exactly the free-run heads;
  - each slot list lists exactly the pages of its shift with a free chunk.

  It also defines `Live`: the addresses handed out and not yet released.
- `slab_ops.dfy`: every operation as a function on `PoolState`, branch for branch. These are the specifications the methods are proved against.
- `slab_pool.dfy`: the class `Pool`, with the descriptor arrays as fields. Its methods, loops included, are proved to compute those functions.
- `slab_init.dfy`, `slab_pages_proofs.dfy`, `slab_alloc_proofs.dfy`, `slab_free_proofs.dfy`, `slab_frame.dfy`: the properties of the operations.
- `slab_findings.dfy`: the places where the C code as written goes wrong, each with its corrected counterpart.
- `ip_hash.dfy`: the IP-hash selection. It has a specification function for the walk, the properties of the walk, and the class `PeerData` whose `GetPeer` method runs the source's loop.

## Model

| member | source | states |
|---|---|---|
| SlabTypes.RoleOfTag | src/core/ngx_slab.c:27-31 | reading a role back from `prev & 3` gives the role whose tag was stored |
| SlabTypes.Geometry | src/core/ngx_slab.c:9-24 | for each chunk shift 3..11, chunk size times chunks per page is 4096. It also gives the bitmap words and storage chunks of a SMALL page per shift, as the comment table lists them (8, 2, 1 and 1 storage chunks for 8, 16, 32 and 64 bytes) |
| SlabTypes.ChunkIndexBound | src/core/ngx_slab.c:456-458 | an offset inside a page falls in one of that page's chunks, so at most 512 chunks |
| SlabPool.ExactShiftLoop | src/core/ngx_slab.c:114-117 | the loop computing exact_shift ends with 2^shift == 128 |
| SlabInit.InitLayout | src/core/ngx_slab.c:137-163 | start is page-aligned and lies past the slot heads and the descriptors of every page kept. The kept pages end before the pool's end. The trim never raises the estimate |
| SlabInit.InitRoom | src/core/ngx_slab.c:140-163 | a pool with four pages of room past its header keeps at least one page |
| SlabInit.InitValid | src/core/ngx_slab.c:128-163 | the fresh pool is well formed and every slot list is empty. All pages form one free run on the free list, and no block is live |
| SlabPool.Pool.Init | src/core/ngx_slab.c:102-170 | the constructed pool is the layout InitSpec describes, and is well formed |
| SlabOps.ShiftForBounds | src/core/ngx_slab.c:197-206 | a request below 2048 bytes gets a chunk shift of 3..11: shift 3 up to 8 bytes, otherwise the least shift with 2^(shift-1) < size <= 2^shift |
| SlabPool.SizeShiftLoop | src/core/ngx_slab.c:197-200 | the `s >>= 1` loop computes that shift, with the same bounds |
| SlabAllocProofs.GrantedBounds | src/core/ngx_slab.c:183-206 | the block granted covers the request. For 2048 bytes or more it is whole pages, under size + 4096. Above 8 bytes a chunk is under twice the size; up to 8 bytes it is exactly 8 |
| SlabOps.FirstFit | src/core/ngx_slab.c:641-643 | the position found is the first run in list order with at least n pages; every earlier run is shorter |
| SlabPool.Pool.FindRun | src/core/ngx_slab.c:641-643 | the free-list scan returns that first-fit position |
| SlabPageProofs.AllocPagesFirstFit | src/core/ngx_slab.c:641-686 | ngx_slab_alloc_pages returns NULL, with the pool unchanged, exactly when no free run has n pages. Otherwise it returns the head of the first such run in list order, which becomes an allocated head of n pages |
| SlabPageProofs.AllocPagesEffect | src/core/ngx_slab.c:643-680 | the page returned heads the first free run of at least n pages, and that run is split exactly. A longer run keeps its list position with its first n pages cut off; an exact fit leaves the list. The taken pages become an allocated run of n pages |
| SlabPageProofs.AllocPagesValid | src/core/ngx_slab.c:636-687 | taking pages keeps the pool well formed |
| SlabPageProofs.AllocPagesCount | src/core/ngx_slab.c:643-680 | the free pages on the free list drop by exactly n |
| SlabPool.Pool.AllocPages | src/core/ngx_slab.c:636-687 | the method's new state and result are those of ngx_slab_alloc_pages, and the pool stays well formed |
| SlabPool.Pool.TakeRun | src/core/ngx_slab.c:645-678 | the descriptors are rewritten as the split describes, and the free list loses or shortens that one run |
| SlabPageProofs.FreePagesValid | src/core/ngx_slab.c:690-710 | giving back an allocated run, or a single chunk page, keeps the pool well formed |
| SlabPageProofs.FreePagesCount | src/core/ngx_slab.c:696-709 | the free pages on the free list grow by exactly the run's length |
| SlabFreeProofs.FreePagesLive | src/core/ngx_slab.c:696-700 | no block on the released pages stays live; blocks on every other page are untouched |
| SlabPool.Pool.FreePages | src/core/ngx_slab.c:690-710 | the method's new state is that of ngx_slab_free_pages |
| SlabPageProofs.ReleasableRange | src/core/ngx_slab.c:594-597 | the run ngx_slab_free hands to ngx_slab_free_pages lies within the pages. Its continuation pages are all PAGE_BUSY, and its head is not already on the free list |
| SlabAllocProofs.AllocPagesLive | src/core/ngx_slab.c:183-195 | taking whole pages keeps the pool well formed and makes the run's first address live with n * 4096 bytes. No other block changes |
| SlabAllocProofs.FirstWithFreeHead | src/core/ngx_slab.c:223-269 | in a well-formed pool every listed page has a free chunk, so the slot-list walk stops at the list's first page, and finds one exactly when the list is not empty |
| SlabAllocProofs.AllocCorrect | src/core/ngx_slab.c:173-419 | ngx_slab_alloc keeps the pool well formed. It returns 0 exactly when there is no room, and then changes nothing. Otherwise the address is a block that was not live and now is, of the granted size, and no other block changes |
| SlabAllocProofs.AllocLarge | src/core/ngx_slab.c:183-195 | the same for requests of 2048 bytes or more, which take whole pages at start + index * 4096 |
| SlabAllocProofs.AllocListed | src/core/ngx_slab.c:219-346 | the same when the request's slot list holds a page |
| SlabAllocProofs.AllocFresh | src/core/ngx_slab.c:349-410 | the same when the request's slot list is empty, so a fresh page is carved or 0 is returned |
| SlabPool.Pool.Alloc | src/core/ngx_slab.c:173-419 | the method computes ngx_slab_alloc and carries the guarantees of AllocCorrect |
| SlabPool.Pool.AllocWholePages | src/core/ngx_slab.c:183-195 | the method computes ngx_slab_alloc for requests of 2048 bytes or more |
| SlabPool.Pool.AllocChunk | src/core/ngx_slab.c:197-410 | the method computes ngx_slab_alloc for smaller requests |
| SlabPool.Pool.AllocShift | src/core/ngx_slab.c:212-410 | once the shift is known, the method serves the request from the first listed page with a free chunk, else from a fresh page, as the specification of chunk requests says |
| SlabPool.Pool.AllocFresh | src/core/ngx_slab.c:349-410 | with no listed page free, the method takes one page from the free runs and carves it, or returns NULL and leaves the pool as it was |
| SlabOps.FirstWithFree | src/core/ngx_slab.c:223-269 | the page chosen is the first on its slot list with a free chunk; every earlier page has none |
| SlabPool.Pool.FindListed | src/core/ngx_slab.c:223-269 | the walk along the slot list returns that page |
| SlabPool.Pool.PageHasFree | src/core/ngx_slab.c:230-232 | the method decides whether a page has a free chunk in its encoding |
| SlabPool.Pool.ScanWords | src/core/ngx_slab.c:230-232 | the scan returns the first bitmap word in a range that differs from the given value |
| SlabPool.LowestClearBit | src/core/ngx_slab.c:234-237 | the `m <<= 1` scan returns the lowest clear bit |
| SlabTypes.LowestClear | src/core/ngx_slab.c:234-237 | the bit found is clear and every lower bit is set |
| SlabPool.Pool.AllocIn | src/core/ngx_slab.c:221-346 | the method hands out a chunk of a page with a free chunk, in the page's encoding |
| SlabAllocProofs.AllocInPageOK | src/core/ngx_slab.c:221-346 | taking a chunk from a listed page keeps the pool well formed and the free list unchanged. The address becomes live with the page's chunk size |
| SlabAllocProofs.AllocSmallOK | src/core/ngx_slab.c:223-269 | that, for SMALL pages: the lowest clear bit of the first non-full word is set |
| SlabAllocProofs.AllocExactOK | src/core/ngx_slab.c:273-303 | that, for EXACT pages, with 128-byte chunks |
| SlabAllocProofs.AllocBigOK | src/core/ngx_slab.c:312-345 | that, for BIG pages: the lowest clear bit of the map in the upper half is set |
| SlabPool.Pool.AllocSmall | src/core/ngx_slab.c:223-269 | the method computes the SMALL branch (with the address correction listed under Findings) |
| SlabPool.Pool.MarkSmall | src/core/ngx_slab.c:230-262 | exactly one bitmap word changes, by setting its lowest clear bit. The page leaves its slot list exactly when no word is left with a clear bit |
| SlabPool.Pool.Unlink | src/core/ngx_slab.c:251-257 | the page leaves its slot list and nothing else changes |
| SlabPool.Pool.AllocExact | src/core/ngx_slab.c:273-303 | the method computes the EXACT branch |
| SlabPool.Pool.AllocBig | src/core/ngx_slab.c:307-345 | the method computes the BIG branch |
| SlabPool.Pool.MarkBig | src/core/ngx_slab.c:315-339 | exactly one map bit is set, the lowest clear one. The page leaves its slot list exactly when the map is full |
| SlabAllocProofs.CarveOK | src/core/ngx_slab.c:349-407 | carving a freshly taken page for a shift whose slot list is empty keeps the pool well formed and the free list as it was. Only that page changes. The address returned lies on the page, is live with that chunk size, and is the only live block there |
| SlabAllocProofs.CarveFromFresh | src/core/ngx_slab.c:349-407 | carving the page that ngx_slab_alloc_pages just returned meets those guarantees |
| SlabPool.Pool.Carve | src/core/ngx_slab.c:352-407 | the method computes the carving of a fresh page |
| SlabPool.Pool.MapSmallPage | src/core/ngx_slab.c:356-369 | the method returns the storage-chunk count n, sets the first word to (2 << n) - 1 and clears the other bitmap words |
| SlabState.LiveDisjoint | src/core/ngx_slab.c:173-419 | in a well-formed pool, two live blocks never overlap |
| SlabFreeProofs.FreeCorrect | src/core/ngx_slab.c:422-633 | ngx_slab_free releases exactly when the pointer is a live block (or a SMALL page's own bitmap chunk, see Left out). It reports "outside of pool" exactly for pointers outside the pages. Any refusal changes nothing. Releasing a live block leaves a well-formed pool in which that block alone is no longer live |
| SlabFreeProofs.DoubleFree | src/core/ngx_slab.c:422-633 | giving the same block back twice: the second call is refused and changes nothing |
| SlabFreeProofs.AllocFreeRoundTrip | src/core/ngx_slab.c:173-633 | freeing the address ngx_slab_alloc just returned is accepted and leaves a well-formed pool whose live blocks are exactly those before the allocation |
| SlabFreeProofs.LargeRoundTrip | src/core/ngx_slab.c:636-710 | for a request of 2048 bytes or more, that round trip also returns every page taken: the free list holds as many free pages as before the allocation |
| SlabFreeProofs.FreeSmallOutcome | src/core/ngx_slab.c:447-500 | a SMALL pointer is released exactly when it is live or a bitmap chunk; a misaligned pointer or a clear bit is refused without change |
| SlabFreeProofs.FreeSmallLive | src/core/ngx_slab.c:461-497 | freeing a live SMALL chunk is reported released. It leaves a well-formed pool in which that chunk alone stops being live, whether or not the emptied page is returned |
| SlabFreeProofs.FreeExactOutcome | src/core/ngx_slab.c:502-535 | an EXACT pointer is released exactly when it is live; otherwise nothing changes |
| SlabFreeProofs.FreeExactLive | src/core/ngx_slab.c:511-532 | the same for a live EXACT chunk, including when its slab word drops to zero and the page is returned |
| SlabFreeProofs.FreeBigOutcome | src/core/ngx_slab.c:537-574 | a BIG pointer is released exactly when it is live; otherwise nothing changes |
| SlabFreeProofs.FreeBigLive | src/core/ngx_slab.c:549-571 | the same for a live BIG chunk, including when its map empties and the page is returned |
| SlabFreeProofs.FreePageOutcome | src/core/ngx_slab.c:576-592 | a pointer into a PAGE-role page is released exactly when it is live, that is, it is the head address of an allocated run. Otherwise nothing changes |
| SlabFreeProofs.FreePageLive | src/core/ngx_slab.c:594-601 | freeing the head of an allocated run is reported released and leaves a well-formed pool in which that block alone stops being live |
| SlabPool.Pool.Free | src/core/ngx_slab.c:422-633 | the method computes ngx_slab_free and carries the guarantees of FreeCorrect |
| SlabPool.Pool.FreeSmall | src/core/ngx_slab.c:447-500 | the method computes the SMALL branch of ngx_slab_free |
| SlabPool.Pool.FreeExact | src/core/ngx_slab.c:502-535 | the method computes the EXACT branch |
| SlabPool.Pool.FreeBig | src/core/ngx_slab.c:537-574 | the method computes the BIG branch |
| SlabPool.Pool.FreePage | src/core/ngx_slab.c:576-602 | the method computes the PAGE branch |
| SlabPool.Pool.ReleaseSmall | src/core/ngx_slab.c:462-495 | a used chunk is given back: its bit is cleared and the page relinked if it had left its slot list, and the page goes back to the free runs when no data chunk stays in use |
| SlabPool.Pool.ClearSmall | src/core/ngx_slab.c:461-475 | the chunk's bit is cleared, and a page that had left its slot list is put back at its head |
| SlabPool.Pool.ClearExact | src/core/ngx_slab.c:511-524 | the chunk's bit is cleared, and a page that was full is put back at the head of its slot list |
| SlabPool.Pool.ClearBig | src/core/ngx_slab.c:549-563 | the map bit is cleared, and a page that had left its slot list is put back at its head |
| SlabPool.Pool.Relink | src/core/ngx_slab.c:468-472 | the page is put at the head of its slot list |
| SlabPool.Pool.SmallPageInUse | src/core/ngx_slab.c:477-493 | the method decides whether a data chunk of a SMALL page is still in use, ignoring its bitmap chunks |
| SlabFindings.EndPassesBoundsTest | src/core/ngx_slab.c:434-441 | the end address passes the bounds test as written, yet lies past the last page |
| SlabFindings.SmallAddrReusesChunk | src/core/ngx_slab.c:240-260 | once the first bitmap word is full, the address as written names a chunk already in use, not the one just marked |
| SlabFindings.SizeDispatchSplitsSlot | src/core/ngx_slab.c:221-271 | requests of 100 and 128 bytes share the shift-7 slot list, yet the code as written treats them as SMALL and EXACT |
| SlabFindings.SlotRoles | src/core/ngx_slab.c:352-407 | with the encoding chosen by shift, every page on a slot list uses the one encoding of that list's shift |
| SlabFindings.FreeRunReleasedAgain | src/core/ngx_slab.c:576-597 | the head address of a listed free run is not live, yet passes the page tests as written and reaches ngx_slab_free_pages; the corrected FreePage reports it already free |
| SlabFindings.FreedHeadSelfLinked | src/core/ngx_slab.c:702-709 | ngx_slab_free_pages, applied as written to the first run on the free list, leaves that page's prev pointing at the page itself; the list still reads the same two runs |
| SlabFindings.TakenRunStaysListed | src/core/ngx_slab.c:654-657 | ngx_slab_alloc_pages then takes that run whole: the unlink through the self-link changes nothing, so the run handed out is still first on the free list |
| SlabFindings.TakenRunLeaves | src/core/ngx_slab.c:654-657 | the same unlink on the list before the second release does remove the run |
| SlabFindings.PagesWrap | src/core/ngx_slab.c:184-185 | with a 32-bit size, a request within 4095 bytes of 2^32 asks for zero pages, where the true count is 2^20 |
| SlabFindings.HugeRequestRefused | src/core/ngx_slab.c:183-192 | with the count unwrapped, such a request returns 0 and leaves the pool unchanged |
| SlabFindings.StaleLinksLoseRun | src/core/ngx_slab.c:702-709 | freeing a whole page taken from a fresh pool, as written, cuts the rest of the pool off the free list |
| SlabFindings.UnlistedRunKept | src/core/ngx_slab.c:705-709 | pushing that page without the unlink keeps both runs on the free list |
| SlabFindings.StaleBackLink | src/core/ngx_slab.c:702-703 | the unlink as written leaves the next page's back link stale. When that page is later unlinked it stays on its slot list, and the free list runs into the slot list |
| SlabFindings.BackLinkRepaired | src/core/ngx_slab.c:702-709 | with both links repaired, both lists come out right |
| IpHash.AddrBytes | src/http/modules/ngx_http_upstream_ip_hash_module.c:113-116 | the seed is three bytes, each below 256 |
| IpHash.AddrBytesNetwork | src/http/modules/ngx_http_upstream_ip_hash_module.c:113-116 | the three bytes are exactly the top 24 bits of `s_addr` read as a host-order integer |
| IpHash.AddrBytesSameNetwork | src/http/modules/ngx_http_upstream_ip_hash_module.c:113-116 | two `s_addr` words get the same bytes, and so the same peer sequence, if and only if they agree but for their low 8 bits; on a big-endian host that is sharing a /24 network |
| IpHash.AddrOctets | src/http/modules/ngx_http_upstream_ip_hash_module.c:113-116 | for the address o0.o1.o2.o3, a big-endian host seeds with o0, o1, o2 and a little-endian host with o3, o2, o1 |
| IpHash.PeerData.Init | src/http/modules/ngx_http_upstream_ip_hash_module.c:104-121 | the request's state holds the address bytes, hash 89 and zero tries |
| IpHash.PeerData.MixAddr | src/http/modules/ngx_http_upstream_ip_hash_module.c:154-156 | one hash round folds in the three bytes and yields a value below 6271 |
| IpHash.MarkTriedBits | src/http/modules/ngx_http_upstream_ip_hash_module.c:160-161 | setting a candidate's tried bit sets exactly that bit and keeps every word 32-bit |
| IpHash.WalkCorrect | src/http/modules/ngx_http_upstream_ip_hash_module.c:152-209 | a walk keeps the state well formed. It only adds tried bits, and only for down peers or the chosen one. pc->tries never rises and drops by at most one per round. Round robin comes only after twenty rounds, with hash and peers untouched. A chosen peer was untried and not down, and passed its failure count or else its timeout; its fails are reset only in the second case. The saved hash, modulo the peer count, is its index |
| IpHash.WalkTrace | src/http/modules/ngx_http_upstream_ip_hash_module.c:150-209 | the walk is the first-fit search along the hash sequence. With k the tries it used, the candidates of rounds 1..k were all unacceptable (tried, down, or failing both the count and the timeout). pc->tries fell by exactly the number of those rounds whose candidate was still untried. The tried bits afterwards are exactly those set before, those of the down candidates met and that of the chosen peer. Round robin comes at exactly twenty tries (twenty-one from an entry at twenty), with hash and peers untouched. A chosen peer is the acceptable candidate of round k + 1, whose hash (Mix applied k + 1 times) is saved, and its fails are reset only when the timeout let it pass |
| IpHash.GetPeerCorrect | src/http/modules/ngx_http_upstream_ip_hash_module.c:141-209 | past twenty tries, or with a single peer, the call goes to round robin and changes nothing; otherwise it keeps the promises of WalkCorrect and WalkTrace, starting from the saved hash |
| IpHash.PeerData.GetPeer | src/http/modules/ngx_http_upstream_ip_hash_module.c:126-210 | the method's selection, new pc->tries and new state are those of the specification the two lemmas above describe |
| IpHash.PeerData.Round | src/http/modules/ngx_http_upstream_ip_hash_module.c:152-209 | one pass of the loop either ends the walk with the result the walk specifies (a chosen peer, or round robin at the twentieth try), or uses exactly one try and leaves a state from which the rest of the walk gives the same result |
| IpHash.PeerData.Accept | src/http/modules/ngx_http_upstream_ip_hash_module.c:206-207 | the chosen peer's tried bit is set and the hash saved; nothing else changes |

## Left out

- Locking: `ngx_shmtx_lock`/`unlock`, and the commented-out peer mutex, are cross-process concurrency. Each call is taken as atomic.
- Logging, the junk fill of NGX_DEBUG_MALLOC, and the descriptor writes made only under NGX_DEBUG are diagnostics. Under NGX_DEBUG, `prev` of an allocated run is 0, so the unlink in `ngx_slab_free_pages` would dereference NULL. The non-debug build is the one modelled, and in it the model uses the corrected `ngx_slab_free_pages`, which pushes the run without the unlink of lines 702-703 (see Findings).
- The lazily computed globals max_size, exact_size and exact_shift are constants. `ExactShiftLoop` shows the loop's result.
- The 64-bit constant set is left out, together with the `1 << ...` shifts on `int` that it makes undefined.
- Pointers and tags are page indices and a role. Descriptor links are sequences of page indices, except in the findings, which model the links themselves.
- SlabPool.Pool.Init: the page area is taken to hold zeros, since the model cannot see memory it never wrote. The pool header's own size is not modelled: `slotsAddr` is where the slot heads begin. The pool must end below 2^32 - 4096 and keep at least one page.
- min_size and min_shift are fixed at 8 and 3, as for every pool in this nginx version.
- SlabFreeProofs.FreeCorrect: the source, and so the model, releases a pointer to one of a SMALL page's own bitmap chunks and clears its bit. The pool is no longer well formed afterwards. The guarantees of a well-formed result are therefore stated only for live blocks.
- The IP-hash module's configuration handler and `ngx_http_upstream_init_round_robin_peer` are not part of this model. Neither is `get_rr_peer`: the round-robin fallback is the opaque result `RoundRobin`, and its effect on the state is not modelled.
- `ngx_time()` is the parameter `now`.
- Copying the chosen peer's sockaddr, socklen, name and SSL session into the connection is represented by the result `Chosen(p)`. Clearing `pc->cached` and `pc->connection` is left out.
- IpHash.PeerData.GetPeer: `pc->tries` is a plain integer, with no unsigned wrap-around.
- The walk's `tries` is checked against 20 on entry with `>`, but on each refused round with `>=`. A call that starts with exactly 20 tries therefore makes one more round. The model follows the code.
- SlabOps.FreePage: refuses every slab below PAGE_START as already free, not only PAGE_FREE. This differs from the code as written; see Findings.
- SlabState.Valid: does not state that the free runs, allocated runs and chunk pages partition the pages. Each run head's descriptor and the pages of its run are checked, but a PAGE_FREE or PAGE_BUSY page need not lie in any run as far as Valid says. The whole-pool conservation of pages is therefore not proved: the round trips proved are that alloc then free restores the live blocks (SlabFreeProofs.AllocFreeRoundTrip) and, for whole-page requests, the free page count (SlabFreeProofs.LargeRoundTrip).
- IpHash.AddrBytes: the seed is bits 31-8 of `s_addr` as the host reads it, exactly as the code shifts it. On a little-endian host those are octets four, three and two, so clients of one /24 network spread over the peers, while clients that share their last three octets always get the same peer. The model states this (IpHash.AddrOctets) and does not pick a host byte order.

## Findings

Each row below has two halves in `slab_findings.dfy`. One models the code as written, with a lemma that exhibits the input on which it goes wrong. The other is the corrected behaviour, which the rest of the model uses, with its property proved.

| source | as written | input that shows it | evidently intended | confidence | as-written member | corrected member |
|---|---|---|---|---|---|---|
| src/core/ngx_slab.c:434 | `p > pool->end` lets through addresses from the end of the last page up to `end` itself | `p == end` in any well-formed pool: the page index of line 440 is past the descriptor table | refuse every address outside `[start, start + pages * 4096)` | high (not executed) | SlabFindings.EndPassesBoundsTest | SlabFreeProofs.FreeCorrect |
| src/core/ngx_slab.c:240-260 | the SMALL address is `bitmap + (i << shift)`, leaving out the word index `n` | a SMALL page whose first bitmap word is full: the address handed out is a chunk of word 0, already in use | `bitmap + ((n * 32 + i) << shift)` | high (not executed) | SlabFindings.SmallAddrReusesChunk | SlabAllocProofs.AllocSmallOK |
| src/core/ngx_slab.c:221,271,352,382 | the encoding is chosen by comparing the size with 128, though the slot is chosen by shift | sizes 65 to 127 get shift 7 but are served SMALL, on the list that size 128 serves EXACT | choose the encoding by `shift` against exact_shift | high (not executed) | SlabFindings.SizeDispatchSplitsSlot | SlabFindings.SlotRoles |
| src/core/ngx_slab.c:582 | only `slab == PAGE_FREE` is reported already free | freeing the head address of the first run on the free list: its slab is the run length, so ngx_slab_free_pages runs on it and leaves its prev pointing at itself; when ngx_slab_alloc_pages later takes that run whole, the unlink changes nothing and the run handed out stays on the free list, to be handed out again | report every slab below PAGE_START as already free | high (not executed) | SlabFindings.TakenRunStaysListed | SlabFreeProofs.FreePageOutcome |
| src/core/ngx_slab.c:185 | `(size + 4095) >> 12` in a 32-bit size_t wraps | size 2^32 - 1: zero pages are requested from ngx_slab_alloc_pages | round up without wrap-around, so the request is refused | medium (not executed) | SlabFindings.PagesWrap | SlabFindings.HugeRequestRefused |
| src/core/ngx_slab.c:702-703 | every released page is unlinked through its `prev`, though an allocated run is on no list and its links are stale | a fresh pool: take one whole page, free it; the rest of the pool drops off the free list | unlink only pages that are on a slot list | high (not executed) | SlabFindings.StaleLinksLoseRun | SlabPageProofs.FreePagesValid |
| src/core/ngx_slab.c:702-703 | the unlink repairs the predecessor's `next` but not the successor's `prev` | a slot list of two pages; the first empties and is freed, then the second fills and is unlinked: it stays listed and the free list runs into the slot list | also set `page->next->prev = page->prev` | high (not executed) | SlabFindings.StaleBackLink | SlabFindings.BackLinkRepaired |
