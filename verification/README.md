# Tor 0.2.3: data structures, parsers and state machines, verified

A Dafny model of the self-contained algorithms of Tor 0.2.3, with proofs of what they promise.
`dafny verify dfyconfig.toml` checks all of it.  Each module follows one component:

| files | component | main results |
|---|---|---|
| HashChains, HashTable, HashIteration, HashRuns | hash tables generated by `ht.h` | in-place growth loses nothing and agrees with the copying branch; every run of operations behaves as a set keyed by eqfn and passes the representation check; iteration visits each element once |
| PageRuns, PageHeap | page allocator of `OpenBSD_malloc_Linux.c` | free list canonical, pages partitioned, length recovered from tags, cache limit kept |
| ChunkBits, ChunkPage, ChunkBucket | its chunk pages | bitmaps, counters and lists exact; header and chunks never overlap |
| ChunkBooks, BucketTable, Allocator | malloc and free as a whole | each call gives or takes exactly one block; no two blocks in use overlap |
| PageDirectory | its directory lookup | same answer from every remembered position |
| PoolChunk, MemPool, PoolSize | memory pools of `mempool.c` | no live item is handed out; lists by fill level; exactly which item sizes get room for two |
| MemArea | arenas of `memarea.c` | blocks disjoint, aligned and owned; the size assertion cannot fail |
| CounterMode | AES counter mode of `aes.c` | refines the standard for any cutting of the input; decrypts itself |
| Sha256Compress, Sha256, Sha256Words, Sha256Constants, Sha256Example, Primes | `sha256.c` | both compression forms agree with the standard, constants and an example digest included; streaming equals hashing the padded message |
| Numerals, Scanf, Inet4, Inet6Text, Inet6Canonical, Inet6Parse, Inet6RoundTrip, Inet6Grammar | address texts of `compat.c` and the scanner of `util.c` | the canonical text; round trip for every address; exactly which texts are accepted; safe on every string |
| CircuitExpiry | `circuit_expire_building` | how long each kind of circuit lasts; counted once; stuck circuits closed within three sweeps |
| Escape, Calendar | `util.c` | escape round trip; day numbers by the civil calendar |
| CallGraph | `contrib/mdd.py` | depths and closure are what they should be |
| DiOps, AddressOrder | `di_ops.c`, `address.c` | constant-time comparison; total preorder under a mask, and exactly where CMP_SEMANTIC is none |
| Bytes, CStrings, Division, Limits, PowersOfTwo, Sequences, Wrappers | shared definitions | |

Code that changes state is a class whose methods modify its fields, or a method with the source's
loop.  The contract ties the new state to the old one, and lemmas state what that means.  What an
operation asks of the world outside (memory from malloc, mmap and munmap, random numbers, the
clock, the answers of the build-time statistics) is a parameter, and the results hold for all
answers, with one exception: if free_pages gets no memory for a list node, its pages are lost
(`PageHeap.Heap.FreePages`).  Sizes follow a 64-bit system with 8-byte pointers and 4096-byte pages.

## Where the code differs from what is said about it

* `ht.h` lines 719-720: the loop guard admits one index too many, so that growing to a size at or
  above the load limit of the last prime reads past the prime list (`HashTable.ChoosePrime`,
  `HashTable.RunOffPrimes`).  Inserting into a table in good order never gets there
  (`HashTable.Table.GoodCanInsert`).
* `ht.h` lines 581-589: an element that HT_REPLACE finds already in the table is counted again, and
  no other is (`HashTable.Table.Replace`, `HashRuns.CountedTwice`).
* `OpenBSD_malloc_Linux.c` lines 313-319: the conditional operator binds weaker than the
  comparison, so that the distances to the two remembered pages are not compared; the search
  starts from `last_dir` every time (`PageDirectory.NearerAlwaysLast`).  The answer is right all
  the same.
* `OpenBSD_malloc_Linux.c` lines 1580-1600: a freed run that joins both neighbours counts its
  right neighbour twice in `cachesize`, so that less stays cached than the limit allows
  (`PageHeap.CacheLimit`, `PageHeap.BridgeKeepsLess`).
* `OpenBSD_malloc_Linux.c` lines 1501-1502: without memory for a list node the pages freed are tagged
  as free and never found again (`PageHeap.Heap.FreePages`).
* `mempool.c` lines 389-393: two items per chunk are promised, but item sizes near the assertion's
  limit make the doubling endless or the capacity zero (`PoolSize.NewPool`, `PoolSize.NeverSized`,
  `PoolSize.SizedForNone`).
* `memarea.c` lines 203-204: `memarea_owns_ptr` also accepts the bytes skipped for alignment
  (`MemArea.Area.OwnsPtr`, `MemArea.SkippedByte`).  Sizes within the header of the ceiling pass the assertion of
  `memarea_alloc` and fail that of `alloc_chunk` or `tor_malloc` (`MemArea.Area.Alloc`,
  `MemArea.BelowCeiling`).
* `compat.c`: a colon behind the last word is accepted (`Inet6Grammar.TrailingColon`).
* `address.c` line 856: masks above 128 bits are not reduced for IPv6.  The comparison reads past
  the address if the mask is 136 or more, and for 129 to 135 if the addresses are equal
  (`AddressOrder.CompareMasked`, `AddressOrder.OneBitTooMany`).
* `address.c` lines 864-866: under CMP_SEMANTIC the comparison is not transitive
  (`AddressOrder.SemanticPreorder`, `AddressOrder.CircleExists`).
* `util.c` lines 2703-2705: the test for overflow lets some overflows pass (`Scanf.AcceptedIff`,
  `Scanf.TenDigits`, `Scanf.Unnoticed`).
* `circuituse.c`: a circuit that is spared and then measured outlives two sweeps
  (`CircuitExpiry.TwoAreNotEnough`).

## Model

| member | source | states |
|---|---|---|
| HashChains.RehashInPlace | tor-maint-0.2.3-ebb95d0/src/common/ht.h:745-757 | The realloc branch of HT_GROW ends, with the same entries, each on exactly one chain; every bucket of the longer table has exactly the entries whose cached hashes ask for it, each once. |
| HashChains.RehashBucket | tor-maint-0.2.3-ebb95d0/src/common/ht.h:746-756 | The inner loop keeps in bucket b the entries that belong there and moves each other one to the front of its new bucket, whether or not that bucket has been visited. |
| HashChains.MoveEntry | tor-maint-0.2.3-ebb95d0/src/common/ht.h:752-754 | The three pointer writes take an entry out of one chain and put it first on another; no other chain changes. |
| HashChains.RehashFresh | tor-maint-0.2.3-ebb95d0/src/common/ht.h:721-735 | The malloc branch of HT_GROW fills a new table with the same entries, and every bucket has the same ones as after the other branch: exactly those whose hashes ask for it, each once. |
| HashChains.SameBuckets | tor-maint-0.2.3-ebb95d0/src/common/ht.h:721-759 | Whatever chains the two branches leave, each bucket has the same multiset of entries; their order is left open (TwoOrders). |
| HashChains.TwoOrders | tor-maint-0.2.3-ebb95d0/src/common/ht.h:721-757 | Chains that agree so and differ in order. |
| HashTable.Table.BucketsAre | tor-maint-0.2.3-ebb95d0/src/common/ht.h:706-764 | Which elements a bucket has follows from the set of elements and the number of buckets alone, whichever branch has filled it. |
| HashChains.PutAt | tor-maint-0.2.3-ebb95d0/src/common/ht.h:581-586 | HT_REPLACE puts the element where the matching one was, or behind the end of the chain, and clears the link of the replaced one. |
| HashTable.ChoosePrime | tor-maint-0.2.3-ebb95d0/src/common/ht.h:715-720 | The least prime whose load limit exceeds the size is chosen; the loop runs off the prime list exactly when the size reaches the load limit of the last prime. |
| HashTable.Table.Grow | tor-maint-0.2.3-ebb95d0/src/common/ht.h:706-764 | Growth keeps the set of elements; it does nothing, fails or runs past the primes exactly under the stated conditions, and otherwise makes the load limit exceed the size. |
| HashTable.Table.FindP | tor-maint-0.2.3-ebb95d0/src/common/ht.h:532-544 | The pointer found designates the matching entry if there is one, else the end of the right chain. |
| HashTable.Table.Find | tor-maint-0.2.3-ebb95d0/src/common/ht.h:548-555 | The result is the stored element equal to the key under eqfn, or NULL exactly when there is none. |
| HashTable.Table.Insert | tor-maint-0.2.3-ebb95d0/src/common/ht.h:559-569 | The set of elements gains the new one and the count rises by one; the table stays in place while there is room; the count is within the load limit afterwards exactly if there was room, or a larger prime and memory for it. |
| HashTable.Table.Replace | tor-maint-0.2.3-ebb95d0/src/common/ht.h:574-591 | The table stays in place while there is room; the matching element, if another one, is swapped for the new one and returned; an exact count stays exact exactly if the element was not in the table before; and exactly when the count is within the load limit afterwards. |
| HashTable.Table.GoodCanInsert | tor-maint-0.2.3-ebb95d0/src/common/ht.h:559-588 | Inserting into a table in good order never makes HT_GROW read past the prime list. |
| HashTable.RunOffPrimes | tor-maint-0.2.3-ebb95d0/src/common/ht.h:715-720 | A size, within 32 bits, for which the loop runs off the prime list. |
| HashTable.Table.Remove | tor-maint-0.2.3-ebb95d0/src/common/ht.h:595-607 | The set loses exactly the matching element, the count follows, and the link of the removed element is cleared. |
| HashIteration.Start | tor-maint-0.2.3-ebb95d0/src/common/ht.h:639-648 | The first entry of the table in iteration order, or NULL exactly for an empty table. |
| HashIteration.Next | tor-maint-0.2.3-ebb95d0/src/common/ht.h:655-669 | The entry one further in the iteration order, found from a pointer to the present one. |
| HashIteration.NextRmv | tor-maint-0.2.3-ebb95d0/src/common/ht.h:671-687 | Takes out the present entry, keeps the order of the others and the good order of the table, and gives the entry that followed. |
| HashIteration.Sweep | tor-maint-0.2.3-ebb95d0/src/or/geoip.c:359-373 | In a caller loop over START, NEXT and NEXT_RMV the body is run on each stored element once, in order, as the log that it keeps shows; exactly those are taken out for which its decision, which may depend on all elements seen before, says so, although they are freed at once. |
| HashIteration.CallOn | tor-maint-0.2.3-ebb95d0/src/common/ht.h:623-631 | The link is read before the function is called, so that the chain is mended although the function may free the entry. |
| HashIteration.ForeachFn | tor-maint-0.2.3-ebb95d0/src/common/ht.h:613-634 | The function is called once on each element, in order, as its own log shows; exactly those for which it says so leave the table and the count, and a table in good order stays so. |
| HashIteration.KeptMembers | tor-maint-0.2.3-ebb95d0/src/common/ht.h:613-687 | The elements that stay are exactly those not judged to go at their turn. |
| HashIteration.RepIsBad | tor-maint-0.2.3-ebb95d0/src/common/ht.h:778-810 | Returns 0 exactly for a table whose prime, limit, hashes, places and count all agree. |
| HashIteration.GoodPasses | tor-maint-0.2.3-ebb95d0/src/common/ht.h:778-810 | A table kept by the operations passes that check exactly when its count is right and within its load limit. |
| HashRuns.Step | tor-maint-0.2.3-ebb95d0/src/common/ht.h:532-764 | Any FIND, INSERT, REPLACE of a new element, REMOVE or GROW takes a table in good order to one in good order, does to the set of elements and to the number of buckets what it is for, and returns the right element; memory is asked for only when the table is full. |
| HashRuns.Run | tor-maint-0.2.3-ebb95d0/src/common/ht.h:532-810 | Every sequence of such calls behaves as a finite set keyed by eqfn, the number of buckets is the one the growth rule gives, the count is the size of the set, and REP_IS_BAD returns 0. |
| HashRuns.CountedTwice | tor-maint-0.2.3-ebb95d0/src/common/ht.h:574-591 | The input for which the count goes wrong: one element that replaces itself makes the count 2, and REP_IS_BAD fails. |
| PageRuns.CanonicalUnique | tor-maint-0.2.3-ebb95d0/src/common/OpenBSD_malloc_Linux.c:1507-1573 | An address-sorted, disjoint, coalesced list of non-empty runs is determined by the pages in it. |
| PageRuns.AddRun | tor-maint-0.2.3-ebb95d0/src/common/OpenBSD_malloc_Linux.c:1507-1573 | A freed run goes to its place and is joined with both neighbours: the list stays canonical, gains exactly those pages, and the branch for a destroyed list cannot be taken. |
| PageHeap.Heap.MallocPages | tor-maint-0.2.3-ebb95d0/src/common/OpenBSD_malloc_Linux.c:849-1029 | First fit from the list or fresh pages; the books of free pages, live runs and tags stay exact, and the pages returned belong to no live run. |
| PageHeap.Heap.MarkPages | tor-maint-0.2.3-ebb95d0/src/common/OpenBSD_malloc_Linux.c:983-1014 | The tags FIRST and FOLLOW, and FIRST for a guard page, are entered for the run and nothing else changes. |
| PageHeap.Heap.UnmarkPages | tor-maint-0.2.3-ebb95d0/src/common/OpenBSD_malloc_Linux.c:1452-1490 | The scan over FOLLOW tags recovers exactly the allocated length. |
| PageHeap.ScanStops | tor-maint-0.2.3-ebb95d0/src/common/OpenBSD_malloc_Linux.c:1461-1470 | The page behind a live run never carries FOLLOW, so the scan cannot run into the next allocation. |
| PageHeap.Heap.PagesFit | tor-maint-0.2.3-ebb95d0/src/common/OpenBSD_malloc_Linux.c:858-858 | The pages taken hold the request, and one page less would not. |
| PageHeap.Heap.FreePages | tor-maint-0.2.3-ebb95d0/src/common/OpenBSD_malloc_Linux.c:1418-1715 | The three refusals happen exactly for their tags and offsets; otherwise the run leaves the live set and joins the list, the books staying exact just if there is a node for it, and while munmap works the cache limit is kept. |
| PageHeap.CacheLimit | tor-maint-0.2.3-ebb95d0/src/common/OpenBSD_malloc_Linux.c:1580-1592 | How much stays cached after a free: the limit, less the right neighbour when that was joined on both sides, because it counts twice in cachesize. |
| PageHeap.BridgeKeepsLess | tor-maint-0.2.3-ebb95d0/src/common/OpenBSD_malloc_Linux.c:1580-1592 | A page freed between two free ones, with a cache for two, of which one is kept. |
| PageHeap.Heap.Trim | tor-maint-0.2.3-ebb95d0/src/common/OpenBSD_malloc_Linux.c:1580-1711 | What exceeds the cache goes back to the system from the end of the joined run, and the books stay exact. |
| PageHeap.Heap.CutIntoChunks | tor-maint-0.2.3-ebb95d0/src/common/OpenBSD_malloc_Linux.c:1135-1136 | A page cut into chunks stays one live page that free_pages cannot free. |
| PageHeap.Heap.MakeWhole | tor-maint-0.2.3-ebb95d0/src/common/OpenBSD_malloc_Linux.c:1798-1799 | Marking it FIRST again makes it a live run of its own. |
| ChunkPage.Layout | tor-maint-0.2.3-ebb95d0/src/common/OpenBSD_malloc_Linux.c:1050-1073 | For every chunk size at least two chunks remain on a page, the bitmap has a bit for each, and a struct pginfo on its own page lies within the chunks taken from it. |
| ChunkPage.SetBits | tor-maint-0.2.3-ebb95d0/src/common/OpenBSD_malloc_Linux.c:1104-1112 | The first bits of the bitmap end up set, whatever the memory held before. |
| ChunkPage.Steal | tor-maint-0.2.3-ebb95d0/src/common/OpenBSD_malloc_Linux.c:1114-1123 | Exactly the chunks that overlap the struct pginfo are marked as used. |
| ChunkPage.MoreStolen | tor-maint-0.2.3-ebb95d0/src/common/OpenBSD_malloc_Linux.c:1117-1122 | The number of chunks taken is the least whose bytes cover the struct pginfo. |
| ChunkPage.AllFree | tor-maint-0.2.3-ebb95d0/src/common/OpenBSD_malloc_Linux.c:1769-1770 | The counter reaches the total exactly when no chunk of the page is handed out. |
| ChunkBits.FirstFree | tor-maint-0.2.3-ebb95d0/src/common/OpenBSD_malloc_Linux.c:1174-1183 | The search finds the lowest set bit, and finds it inside the bitmap if a chunk is free. |
| ChunkBits.Walk | tor-maint-0.2.3-ebb95d0/src/common/OpenBSD_malloc_Linux.c:1185-1206 | The random walk stops at the free chunk as many further on as was drawn and never leaves the valid bits. |
| ChunkBits.FindFree | tor-maint-0.2.3-ebb95d0/src/common/OpenBSD_malloc_Linux.c:1174-1206 | With or without guards the chunk chosen is a free one, number r of them in ascending order, although bits above the last chunk may hold anything. |
| ChunkBits.CountWith | tor-maint-0.2.3-ebb95d0/src/common/OpenBSD_malloc_Linux.c:1208-1211 | Flipping a bit moves the number of set bits below the chunk count by one, or not at all for a bit above it. |
| ChunkBucket.LinkIn | tor-maint-0.2.3-ebb95d0/src/common/OpenBSD_malloc_Linux.c:1763-1764 | The two writes put a page at that place of the list. |
| ChunkBucket.LinkOut | tor-maint-0.2.3-ebb95d0/src/common/OpenBSD_malloc_Linux.c:1783-1783 | The write takes the page out of the list. |
| ChunkBucket.TakeChunk | tor-maint-0.2.3-ebb95d0/src/common/OpenBSD_malloc_Linux.c:1169-1225 | The chunk handed out was free, its bit and the counter follow, and a page with nothing left leaves the list. |
| ChunkBucket.MakeChunks | tor-maint-0.2.3-ebb95d0/src/common/OpenBSD_malloc_Linux.c:1036-1142 | A new page, all chunks free, becomes the first of its list. |
| ChunkBucket.GiveBack | tor-maint-0.2.3-ebb95d0/src/common/OpenBSD_malloc_Linux.c:1741-1807 | Giving back a chunk enters a full page into the list, and releases the page exactly when no chunk of it is in use. |
| ChunkBucket.FreeChunk | tor-maint-0.2.3-ebb95d0/src/common/OpenBSD_malloc_Linux.c:1723-1807 | Misaligned pointers and chunks already free are refused, exactly those; otherwise the chunk leaves the live set. |
| ChunkBucket.PointerIsChunk | tor-maint-0.2.3-ebb95d0/src/common/OpenBSD_malloc_Linux.c:1733-1737 | A pointer passes the alignment test exactly when it is the address of the chunk whose number is computed from it. |
| ChunkBucket.Bucket.Malloc | tor-maint-0.2.3-ebb95d0/src/common/OpenBSD_malloc_Linux.c:1148-1226 | Counters, bitmaps and the list stay exact; the result is an address nobody holds, or NULL exactly when a needed page, header or mprotect is missing. |
| ChunkBucket.Bucket.Free | tor-maint-0.2.3-ebb95d0/src/common/OpenBSD_malloc_Linux.c:1723-1808 | The same for free_bytes, and the page directory loses the page exactly when it is released. |
| ChunkBucket.ChunkInside | tor-maint-0.2.3-ebb95d0/src/common/OpenBSD_malloc_Linux.c:1117-1122 | Every chunk lies inside its page and behind the struct pginfo if that is there. |
| ChunkBucket.ChunksApart | tor-maint-0.2.3-ebb95d0/src/common/OpenBSD_malloc_Linux.c:1212-1225 | Different chunks of one size never overlap. |
| ChunkBucket.BucketOf | tor-maint-0.2.3-ebb95d0/src/common/OpenBSD_malloc_Linux.c:1157-1167 | The chunks of the bucket chosen hold the request and are less than twice as long. |
| ChunkBooks.HeaderFits | tor-maint-0.2.3-ebb95d0/src/common/OpenBSD_malloc_Linux.c:1050-1068 | The bucket taken for a struct pginfo that lies elsewhere is the one for its size. |
| ChunkBooks.Opens | tor-maint-0.2.3-ebb95d0/src/common/OpenBSD_malloc_Linux.c:1036-1142 | A page is cut and its first chunk handed out; the chunk with its struct pginfo leaves the hands of callers, and every struct pginfo keeps a chunk of its own. |
| Allocator.GivesUp | tor-maint-0.2.3-ebb95d0/src/common/OpenBSD_malloc_Linux.c:1771-1808 | A page whose last chunk comes back is given up, and the chunk of its struct pginfo is to be freed in turn. |
| BucketTable.PageDir.Malloc | tor-maint-0.2.3-ebb95d0/src/common/OpenBSD_malloc_Linux.c:1148-1226 | malloc_bytes in one bucket leaves the pages, chunks and lists of all the others alone. |
| BucketTable.PageDir.Free | tor-maint-0.2.3-ebb95d0/src/common/OpenBSD_malloc_Linux.c:1723-1790 | So does free_bytes. |
| Allocator.Allocator.MallocBytes | tor-maint-0.2.3-ebb95d0/src/common/OpenBSD_malloc_Linux.c:1036-1226 | With the page and the chunk for a struct pginfo that it may take from another bucket, in turn, callers hold exactly one chunk more; NULL comes back exactly if no page with room, page, struct pginfo or mprotect is to be had, and then callers hold what they held. |
| Allocator.Allocator.FreeBytes | tor-maint-0.2.3-ebb95d0/src/common/OpenBSD_malloc_Linux.c:1723-1808 | Refusals exactly for their causes; otherwise callers hold exactly that chunk less, although an idle page is freed and the chunk of its struct pginfo as well, in turn. |
| Allocator.Allocator.Malloc | tor-maint-0.2.3-ebb95d0/src/common/OpenBSD_malloc_Linux.c:1239-1273 | A block of at least the size asked for that callers did not hold before, and nothing else that they hold changes; NULL exactly if the size is absurd, its bucket starved or no run of pages to be had, and then callers hold what they held. |
| Allocator.Allocator.Free | tor-maint-0.2.3-ebb95d0/src/common/OpenBSD_malloc_Linux.c:1811-1857 | A pointer is accepted exactly if callers hold a block that starts there, and then exactly that block is given back; any other is refused and nothing that callers hold changes. |
| Allocator.Allocator.BlocksApart | tor-maint-0.2.3-ebb95d0/src/common/OpenBSD_malloc_Linux.c:849-1226 | No two blocks in use overlap: runs of pages, chunks of any sizes, and each struct pginfo. |
| Allocator.Allocator.CutByOne | tor-maint-0.2.3-ebb95d0/src/common/OpenBSD_malloc_Linux.c:1128-1139 | A page is tagged as cut exactly when one bucket has it, and no two have the same. |
| PageDirectory.NearerAlwaysLast | tor-maint-0.2.3-ebb95d0/src/common/OpenBSD_malloc_Linux.c:313-322 | Where it is evaluated that test is always true, so that the search starts from last_dir. |
| PageDirectory.FindsOne | tor-maint-0.2.3-ebb95d0/src/common/OpenBSD_malloc_Linux.c:324-339 | There is one page that a lookup can find. |
| PageDirectory.Lookup | tor-maint-0.2.3-ebb95d0/src/common/OpenBSD_malloc_Linux.c:302-344 | Whatever pages last_dir and prev_dir remember, the page found is the last one not above the target, or the first one, and the sign tells found, above or below. |
| PoolSize.TorLog2 | tor-maint-0.2.3-ebb95d0/src/common/util.c:386-412 | The floor of the binary logarithm, and 0 for 0. |
| PoolSize.RoundToPowerOf2 | tor-maint-0.2.3-ebb95d0/src/common/util.c:418-429 | The nearest power of two, the lower one on a tie, for arguments from 1 to below 2^63. |
| PoolSize.DoubleUpTo | tor-maint-0.2.3-ebb95d0/src/common/mempool.c:391-393 | The loop stops at a doubling that holds two items, the start or the first such one, or never, exactly when no doubling below 2^64 does. |
| PoolSize.NewPool | tor-maint-0.2.3-ebb95d0/src/common/mempool.c:355-409 | Of the sizes that the assertions let through, a chunk holds two items exactly for items up to 2^62 - 40 bytes; the loop never ends exactly from there to 2^63 - 48; beyond that the capacity is 0.  The chunk is the power of two nearest to the hint (capped at MAX_CHUNK), doubled as far as two items need, and MIN_CHUNK at least; the capacity is the number of items that fit. |
| PoolSize.ChunkBytesUnique | tor-maint-0.2.3-ebb95d0/src/common/mempool.c:387-395 | One size answers that description. |
| PoolSize.NeverSized | tor-maint-0.2.3-ebb95d0/src/common/mempool.c:392-393 | A size that the assertions let through and for which the loop does not end. |
| PoolSize.SizedForNone | tor-maint-0.2.3-ebb95d0/src/common/mempool.c:392-398 | One for which the capacity is 0. |
| MemPool.Create | tor-maint-0.2.3-ebb95d0/src/common/mempool.c:355-409 | A pool comes back, with the sizes chosen for it from item size and hint, unless an assertion fails or the doubling does not end; it is in good order exactly for items of which two fit a chunk, and has capacity 0 for all others. |
| PoolSize.ItemsPerChunk | tor-maint-0.2.3-ebb95d0/src/common/mempool.c:397-398 | The capacity computed is the number of items that fit, and stays below INT_MAX. |
| PoolChunk.Chunk.Take | tor-maint-0.2.3-ebb95d0/src/common/mempool.c:248-267 | The item handed out was on the free list or not yet carved; items in use, free list and uncarved tail keep partitioning the chunk. |
| PoolChunk.Chunk.Give | tor-maint-0.2.3-ebb95d0/src/common/mempool.c:303-304 | The item goes to the front of the free list. |
| PoolChunk.PopFront | tor-maint-0.2.3-ebb95d0/src/common/mempool.c:226-228 | The first chunk leaves its doubly linked list, links mended. |
| PoolChunk.Unlink | tor-maint-0.2.3-ebb95d0/src/common/mempool.c:310-315 | A chunk leaves the list wherever it is. |
| PoolChunk.SortList | tor-maint-0.2.3-ebb95d0/src/common/mempool.c:425-453 | The used list becomes a permutation of itself with fuller chunks first; of an ordered one no link is touched. |
| PoolChunk.CutList | tor-maint-0.2.3-ebb95d0/src/common/mempool.c:476-501 | The list ends behind the chunks to keep and the others are counted. |
| MemPool.Pool.Get | tor-maint-0.2.3-ebb95d0/src/common/mempool.c:208-290 | The item returned is in nobody's hands and becomes held; it comes from the first used chunk, else the first empty one, else a new one; every chunk stays on exactly the list for its number of items, and the counters stay exact. |
| MemPool.Pool.Release | tor-maint-0.2.3-ebb95d0/src/common/mempool.c:294-350 | The item is no longer held, and its chunk changes lists exactly when it was full or becomes empty; it then goes to the front of the used or the empty list. |
| MemPool.ReleasedFull | tor-maint-0.2.3-ebb95d0/src/common/mempool.c:306-322 | A full chunk that gets an item back belongs on the used list; this needs room for two items. |
| MemPool.Pool.Clean | tor-maint-0.2.3-ebb95d0/src/common/mempool.c:461-502 | Of the empty chunks those emptied last are kept, as many as asked; with keep_recently_used every chunk freed has been empty ever since the previous clean. |
| CounterMode.Carry | tor-maint-0.2.3-ebb95d0/src/common/aes.c:445-455 | The cascade over the four words is one more modulo 2^128. |
| CounterMode.CounterCipher.CountUp | tor-maint-0.2.3-ebb95d0/src/common/aes.c:445-455 | Counter words and counter block move on together by exactly one. |
| CounterMode.CounterCipher.Crypt | tor-maint-0.2.3-ebb95d0/src/common/aes.c:405-459 | Byte i of the output is the input byte xor byte (offset + i) % 16 of the encryption of iv + (offset + i) / 16, and the offset moves on by the length. |
| CounterMode.CounterCipher.CryptInPlace | tor-maint-0.2.3-ebb95d0/src/common/aes.c:466-499 | The in-place form writes the same bytes. |
| CounterMode.CounterCipher.constructor | tor-maint-0.2.3-ebb95d0/src/common/aes.c:504-519 | The counter starts at the number that the 16 bytes of the IV spell, the first the highest. |
| CounterMode.BlockIsNumber | tor-maint-0.2.3-ebb95d0/src/common/aes.c:293-304 | The block that is encrypted for a counter is the one whose bytes, the first the highest, spell it as a number. |
| CounterMode.EncryptedInPieces | tor-maint-0.2.3-ebb95d0/src/common/aes.c:405-459 | However the input is cut up, the bytes are the same. |
| CounterMode.EncryptedTwice | tor-maint-0.2.3-ebb95d0/src/common/aes.c:405-459 | A second run with the same key and IV gives back the input. |
| Primes.FirstPrimes | tor-maint-0.2.3-ebb95d0/src/common/sha256.c:50-64 | The list that follows has the first 64 prime numbers, all of them and in order. |
| Sha256Constants.RoundConstants | tor-maint-0.2.3-ebb95d0/src/common/sha256.c:50-64 | K[i] is the one word made of the first 32 bits of the fractional part of the cube root of prime number i. |
| Sha256Constants.InitialWords | tor-maint-0.2.3-ebb95d0/src/common/sha256.c:222-229 | The words sha256_init starts from are those bits of the square roots of the first eight primes. |
| Sha256Words.RotatedBits | tor-maint-0.2.3-ebb95d0/src/common/sha256.c:25-25 | RORc moves bit i + n modulo 32 to place i. |
| Sha256Words.StoredBytes | tor-maint-0.2.3-ebb95d0/src/common/sha256.c:20-20 | The bytes STORE32H writes spell the word as a number, the first the highest. |
| Sha256Words.LoadedBytes | tor-maint-0.2.3-ebb95d0/src/common/sha256.c:19-19 | LOAD32H reads the number that four bytes spell. |
| Sha256Words.StoredLength | tor-maint-0.2.3-ebb95d0/src/common/sha256.c:21-24 | STORE64H writes the eight bytes of its number, the first the highest. |
| Sha256Example.DigestOfAbc | tor-maint-0.2.3-ebb95d0/src/common/sha256.c:79-328 | The digest of "abc" is the one in the standard, worked out through padding, schedule and all 64 rounds. |
| Sha256Compress.FillSchedule | tor-maint-0.2.3-ebb95d0/src/common/sha256.c:95-103 | Each of the 64 words meets its equation in step 1 of section 6.2.2 of FIPS 180-4. |
| Sha256Compress.ScheduleIsUnique | tor-maint-0.2.3-ebb95d0/src/common/sha256.c:95-103 | Those equations have exactly one solution. |
| Sha256Compress.ChoiceAndMajority | tor-maint-0.2.3-ebb95d0/src/common/sha256.c:68-69 | The shorter forms of Ch and Maj are equations 4.2 and 4.3 of the standard. |
| Sha256Compress.RoundIsStandard | tor-maint-0.2.3-ebb95d0/src/common/sha256.c:107-118 | RND and the shuffle are step 3 of section 6.2.2. |
| Sha256Compress.CompressIsStandard | tor-maint-0.2.3-ebb95d0/src/common/sha256.c:79-199 | Whatever schedule and registers meet the equations of the standard, its intermediate hash value is what the compression function gives. |
| Sha256Compress.LineIsRound | tor-maint-0.2.3-ebb95d0/src/common/sha256.c:119-188 | A line of the unrolled form is a round of the loop form under the renaming of registers. |
| Sha256Compress.CompressLoop | tor-maint-0.2.3-ebb95d0/src/common/sha256.c:79-199 | The loop form computes the compression function. |
| Sha256Compress.CompressUnrolled | tor-maint-0.2.3-ebb95d0/src/common/sha256.c:79-199 | The unrolled form computes the same. |
| Sha256.PadIsMinimal | tor-maint-0.2.3-ebb95d0/src/common/sha256.c:297-317 | The padding takes the least number of whole blocks with room for the marker and the length. |
| Sha256.PadIsInjective | tor-maint-0.2.3-ebb95d0/src/common/sha256.c:297-317 | Different messages are padded differently. |
| Sha256.Sha256State.Process | tor-maint-0.2.3-ebb95d0/src/common/sha256.c:240-273 | The state stands for the message so far followed by the input, however the input is cut up. |
| Sha256.Sha256State.Done | tor-maint-0.2.3-ebb95d0/src/common/sha256.c:281-328 | The output is the fold of the compression function over the padded message. |
| Scanf.ScanUnsigned | tor-maint-0.2.3-ebb95d0/src/common/util.c:2689-2715 | Reads up to the width of the digits at hand, in base 10 or 16, and gives what they come to in 32 bits, or fails where a sum falls below the one before. |
| Scanf.ScannedIsValue | tor-maint-0.2.3-ebb95d0/src/common/util.c:2703-2705 | The number is right exactly if it fits 32 bits; otherwise what is accepted is its remainder modulo 2^32. |
| Scanf.AcceptedIff | tor-maint-0.2.3-ebb95d0/src/common/util.c:2700-2708 | Digits are accepted exactly if no prefix of them comes to less, modulo 2^32, than the one a digit shorter. |
| Scanf.TenDigits | tor-maint-0.2.3-ebb95d0/src/common/util.c:2700-2708 | Of ten decimal digits: exactly if the remainder is not less than the number without its last digit. |
| Scanf.Unnoticed | tor-maint-0.2.3-ebb95d0/src/common/util.c:2703-2705 | An overflow that the test does not notice: 6442450944 is read as 2147483648. |
| Scanf.Sscanf | tor-maint-0.2.3-ebb95d0/src/common/util.c:2738-2803 | For every text and every pattern: what is stored before the text stops matching, and how much, or -1 exactly when a malformed directive is reached. |
| Scanf.Convert | tor-maint-0.2.3-ebb95d0/src/common/util.c:2765-2798 | One conversion does what its directive says. |
| Scanf.PrintedIsScanned | tor-maint-0.2.3-ebb95d0/src/common/util.c:2689-2798 | What printf writes with %u or %x for a 32-bit number, the same conversion reads back, whatever follows it. |
| Inet4.Aton | tor-maint-0.2.3-ebb95d0/src/common/compat.c:1831-1844 | Accepts exactly four numerals of one to three digits, none above 255, joined by dots, and gives their values. |
| Inet4.QuadSpells | tor-maint-0.2.3-ebb95d0/src/common/compat.c:1831-1844 | The scan and the four tests come to that description. |
| Inet4.QuadRoundTrip | tor-maint-0.2.3-ebb95d0/src/common/address.c:1649-1657 | What tor_inet_ntoa writes is read back as the same four bytes. |
| Inet6Text.FindGap | tor-maint-0.2.3-ebb95d0/src/common/compat.c:1888-1905 | The gap is the first of the longest runs of zero words, or none if no run is longer than one. |
| Inet6Text.GapIsUnique | tor-maint-0.2.3-ebb95d0/src/common/compat.c:1888-1905 | That description fits one position only. |
| Inet6Text.PrintWords | tor-maint-0.2.3-ebb95d0/src/common/compat.c:1907-1923 | The words are written in lower-case hexadecimal with a double colon for the gap, inside the 64-byte buffer. |
| Inet6Text.Ntop | tor-maint-0.2.3-ebb95d0/src/common/compat.c:1854-1933 | The text of the address, or NULL exactly when text and terminator do not fit. |
| Inet6Canonical.DottedIff | tor-maint-0.2.3-ebb95d0/src/common/compat.c:1866-1887 | The text has a dot exactly if the address, as a number, is in ::ffff:0:0/96, or is from 2^16 to below 2^32 with a last group that is not zero. |
| Inet6Canonical.DottedShape | tor-maint-0.2.3-ebb95d0/src/common/compat.c:1866-1887 | Such a text is "::" or, from 2^32 on, "::ffff:", and the dotted quad of the last four bytes. |
| Inet6Canonical.GapIsLeftmostLongest | tor-maint-0.2.3-ebb95d0/src/common/compat.c:1888-1905 | The gap is a run of two zero words or more that no longer one beats, and no other as long before it. |
| Inet6Canonical.NoGap | tor-maint-0.2.3-ebb95d0/src/common/compat.c:1888-1905 | There is none exactly if no two zero words stand together. |
| Inet6Canonical.TextIsSpelt | tor-maint-0.2.3-ebb95d0/src/common/compat.c:1907-1923 | Any other text is the words in hexadecimal with colons between them, with "::" for the words of the gap. |
| Inet6Canonical.TextIsTidy | tor-maint-0.2.3-ebb95d0/src/common/compat.c:1854-1933 | Every character is a digit, a lower-case letter up to f, a colon or a dot. |
| Inet6Canonical.LoopbackText | tor-maint-0.2.3-ebb95d0/src/common/compat.c:1854-1933 | The text of 15 zero bytes and a one is "::1". |
| Inet6Canonical.CompatibleText | tor-maint-0.2.3-ebb95d0/src/common/compat.c:1854-1933 | That of 12 zero bytes and 1, 2, 3, 4 is "::1.2.3.4". |
| Numerals.NumeralIsOnly | tor-maint-0.2.3-ebb95d0/src/common/compat.c:1917-1917 | The numeral printed for a number is the only one without needless zeros or upper-case letters. |
| Inet6Parse.ShortStrtol | tor-maint-0.2.3-ebb95d0/src/common/compat.c:1985-1996 | After the length test a word is below 65536, as the source asserts. |
| Inet6Parse.ReadWords | tor-maint-0.2.3-ebb95d0/src/common/compat.c:1978-2013 | The word loop stays inside words[] and its assertions hold on every string. |
| Inet6Parse.Fill | tor-maint-0.2.3-ebb95d0/src/common/compat.c:2015-2027 | The gap is opened within words[], nothing unset is read, and the number of words moved is never negative. |
| Inet6Parse.Pton | tor-maint-0.2.3-ebb95d0/src/common/compat.c:1943-2037 | Result and stored bytes are a function of the text alone, for every string. |
| Inet6RoundTrip.RoundTrip | tor-maint-0.2.3-ebb95d0/src/common/compat.c:1854-2037 | For every address and in each text form, parsing the printed text gives back the same bytes. |
| Inet6RoundTrip.TextLength | tor-maint-0.2.3-ebb95d0/src/common/compat.c:1854-1933 | The text takes 2 to 39 characters. |
| Inet6RoundTrip.PrintAndParse | tor-maint-0.2.3-ebb95d0/src/common/compat.c:1854-2037 | With room for 40 bytes, printing succeeds and parsing gives back the address. |
| Inet6Grammar.ParsedIffDenoted | tor-maint-0.2.3-ebb95d0/src/common/compat.c:1943-2037 | A text is accepted exactly when it has one of the described forms, and what is stored is what the form denotes. |
| Inet6Grammar.TrailingColon | tor-maint-0.2.3-ebb95d0/src/common/compat.c:2000-2002 | A colon behind the last word is accepted and changes nothing. |
| CircuitExpiry.CutoffIs | tor-maint-0.2.3-ebb95d0/src/or/circuituse.c:366-372 | A cutoff lies the rounded number of milliseconds before now. |
| CircuitExpiry.OldestCutoff | tor-maint-0.2.3-ebb95d0/src/or/circuituse.c:374-383 | As long as the timeout does not exceed the close time, a circuit older than the hidden-service cutoff is older than every cutoff. |
| CircuitExpiry.Circuit.Expire | tor-maint-0.2.3-ebb95d0/src/or/circuituse.c:385-584 | What the loop body does to one circuit, in every branch. |
| CircuitExpiry.Sweep | tor-maint-0.2.3-ebb95d0/src/or/circuituse.c:385-585 | Each circuit of the list is treated once and by its own fields only. |
| CircuitExpiry.SweepIsCareful | tor-maint-0.2.3-ebb95d0/src/or/circuituse.c:385-584 | Spared at most once, never touched before its cutoff, nor with streams attached before it opened, and open circuits only while waiting for an introduction or rendezvous. |
| CircuitExpiry.HowLong | tor-maint-0.2.3-ebb95d0/src/or/circuituse.c:352-475 | In times: for one-hop, opened, four-hop, measuring, spared and ordinary circuits, the age below which a circuit is left alone, and from which on one of ours is not, if it carries no streams and is not open, or open and waiting for an introduction or rendezvous. |
| CircuitExpiry.WhatThen | tor-maint-0.2.3-ebb95d0/src/or/circuituse.c:463-583 | From that age on: exactly which circuits are counted as timed out and kept, which are spared, and with what the others are closed and counted. |
| CircuitExpiry.WhatRemains | tor-maint-0.2.3-ebb95d0/src/or/circuituse.c:473-583 | Of a circuit only the purpose, the mark and the note that it was spared change, the one that the outcome says. |
| CircuitExpiry.LroundIsNearest | tor-maint-0.2.3-ebb95d0/src/common/util.c:372-382 | The rounded timeout is within half a millisecond. |
| CircuitExpiry.CountedOnce | tor-maint-0.2.3-ebb95d0/src/or/circuituse.c:473-515 | Over any run a circuit counts as timed out at most once and as closed at most once, and as closed only after having counted as timed out. |
| CircuitExpiry.RankDrops | tor-maint-0.2.3-ebb95d0/src/or/circuituse.c:463-583 | A sweep that finds an old, stuck circuit closes it or lowers its rank. |
| CircuitExpiry.ClosedWithinThree | tor-maint-0.2.3-ebb95d0/src/or/circuituse.c:352-585 | Three such sweeps close it, whatever the build-time functions answer. |
| CircuitExpiry.TwoAreNotEnough | tor-maint-0.2.3-ebb95d0/src/or/circuituse.c:463-583 | Two do not always. |
| MemArea.Freelist.AllocChunk | tor-maint-0.2.3-ebb95d0/src/common/memarea.c:107-131 | The chunk is unused, aligned, apart from all others, and its memory is at least CHUNK_SIZE minus the header; the list length stays exact. |
| MemArea.Freelist.FreeChunk | tor-maint-0.2.3-ebb95d0/src/common/memarea.c:136-147 | The chunk goes to the list while that has fewer than four, else back to malloc. |
| MemArea.AddChunk | tor-maint-0.2.3-ebb95d0/src/common/memarea.c:230-242 | Whichever chunk is added, recycled oversize ones included, it has room for the request, so that the assertion at line 242 holds. |
| MemArea.Carve | tor-maint-0.2.3-ebb95d0/src/common/memarea.c:244-251 | The new block overlaps no block of the area. |
| MemArea.Area.Alloc | tor-maint-0.2.3-ebb95d0/src/common/memarea.c:220-253 | A new aligned block, disjoint from all allocated since the last clear; it starts where the first chunk has room, if it has, and no chunk is added then; otherwise in one new chunk, first or, for one big block, second in the list; an assertion fails exactly for sizes at the ceiling. |
| MemArea.BelowCeiling | tor-maint-0.2.3-ebb95d0/src/common/memarea.c:220-253 | A size that passes the first assertion and fails the next. |
| MemArea.Area.Clear | tor-maint-0.2.3-ebb95d0/src/common/memarea.c:176-187 | One empty chunk stays, and the others go to the list or to malloc, touching no other area. |
| MemArea.Area.DropAll | tor-maint-0.2.3-ebb95d0/src/common/memarea.c:161-170 | All chunks go that way. |
| MemArea.Area.OwnsPtr | tor-maint-0.2.3-ebb95d0/src/common/memarea.c:205-214 | True exactly for the bytes of blocks and those skipped behind them for alignment. |
| MemArea.SkippedByte | tor-maint-0.2.3-ebb95d0/src/common/memarea.c:203-214 | The byte behind a block of one byte is owned. |
| MemArea.BlockOwned | tor-maint-0.2.3-ebb95d0/src/common/memarea.c:205-214 | Every byte of a block is found and lies in front of the sentinel. |
| Escape.EscapedLength | tor-maint-0.2.3-ebb95d0/src/common/util.c:1093-1116 | The counting pass gives the number of bytes the writing pass emits. |
| Escape.EscForLog | tor-maint-0.2.3-ebb95d0/src/common/util.c:1089-1151 | The buffer is filled exactly, with the escaped text and a NUL. |
| Escape.EscapedIsPrintable | tor-maint-0.2.3-ebb95d0/src/common/util.c:1121-1144 | Every byte of the escaped text is from 32 to 126. |
| Escape.WrittenAsIs | tor-maint-0.2.3-ebb95d0/src/common/util.c:1121-1144 | A byte stands for itself exactly if it is printable and no backslash or quote. |
| Escape.Unescape | tor-maint-0.2.3-ebb95d0/src/common/util.c:2368-2464 | The two passes decode the text without overrunning the buffer the first one measured; their fallback branches are dead. |
| Escape.HexByte | tor-maint-0.2.3-ebb95d0/src/common/util.c:2422-2436 | A hexadecimal escape in either case is the byte with that number. |
| Escape.LettersRead | tor-maint-0.2.3-ebb95d0/src/common/util.c:2417-2421 | The escapes with letters are newline, tab and carriage return, in both directions. |
| Escape.FailsOnlyOnBigOctals | tor-maint-0.2.3-ebb95d0/src/common/util.c:2376-2464 | It fails exactly when the first pass does or on an octal escape above 255. |
| Escape.RoundTrip | tor-maint-0.2.3-ebb95d0/src/common/util.c:1089-2464 | Unescaping an escaped string gives it back and stops right behind its closing quote, whatever follows. |
| Calendar.LeapDaysCount | tor-maint-0.2.3-ebb95d0/src/common/util.c:1332-1337 | n_leapdays counts the leap years of the interval. |
| Calendar.Timegm | tor-maint-0.2.3-ebb95d0/src/common/util.c:1346-1371 | The number of seconds is that of the day by the usual closed formula for the civil calendar and the time of day, or an error exactly out of range. |
| Calendar.DayNumberIsCivil | tor-maint-0.2.3-ebb95d0/src/common/util.c:1358-1363 | The day number is the closed formula that needs no table of months. |
| Calendar.ValidIffBeforeNextMonth | tor-maint-0.2.3-ebb95d0/src/common/util.c:1339-1341 | The table of months has the days that lie, by that formula, before the first of the next month. |
| Calendar.NextDayNumber | tor-maint-0.2.3-ebb95d0/src/common/util.c:1358-1363 | The day number rises by one from each valid day to the next, over months, years and leap days. |
| Calendar.SecondsRise | tor-maint-0.2.3-ebb95d0/src/common/util.c:1346-1371 | On valid times from 1970 on, earlier means a smaller result. |
| CallGraph.MaxDepth | tor-maint-0.2.3-ebb95d0/contrib/mdd.py:127-128 | The greatest depth among the functions called, unknown ones counting as BIG. |
| CallGraph.DepthPass | tor-maint-0.2.3-ebb95d0/contrib/mdd.py:118-132 | A pass that finds nothing leaves every function without a depth calling another such one. |
| CallGraph.FindDepths | tor-maint-0.2.3-ebb95d0/contrib/mdd.py:115-134 | The loop ends; a depth is given exactly to functions from which no cycle can be reached, and it is the length of the longest chain of calls. |
| CallGraph.ClosurePass | tor-maint-0.2.3-ebb95d0/contrib/mdd.py:149-156 | A pass that grows nothing leaves every set closed under the sets of its members. |
| CallGraph.FindClosure | tor-maint-0.2.3-ebb95d0/contrib/mdd.py:147-158 | The loop ends with exactly the transitive closure, although it updates the sets in place. |
| CallGraph.Analyse | tor-maint-0.2.3-ebb95d0/contrib/mdd.py:114-158 | Both loops, one after the other. |
| DiOps.Memcmp | tor-maint-0.2.3-ebb95d0/src/common/di_ops.c:24-84 | The branch-free loop gives the difference at the first byte that differs. |
| DiOps.ComparesNumbers | tor-maint-0.2.3-ebb95d0/src/common/di_ops.c:24-84 | Its sign is that of comparing the two strings as big-endian numbers. |
| DiOps.Memeq | tor-maint-0.2.3-ebb95d0/src/common/di_ops.c:96-132 | 1 exactly for equal bytes, else 0. |
| AddressOrder.CompareMasked | tor-maint-0.2.3-ebb95d0/src/common/address.c:868-957 | For every mask of eight bits: the source reads past an IPv6 address exactly for two of them under a mask above 128 when they are equal or the mask is at least 136; otherwise the sign is that of the order by family and leading bits, for CMP_SEMANTIC of the order that takes IPv4 addresses in both forms for the same. |
| AddressOrder.PrefixIsBlock | tor-maint-0.2.3-ebb95d0/src/common/address.c:889-922 | The leading bits of an address are the number of the one aligned block of addresses that it is in; a mask beyond the length leaves the whole address. |
| AddressOrder.OrderedByBlocks | tor-maint-0.2.3-ebb95d0/src/common/address.c:889-922 | Addresses of one family compare as the numbers of their blocks. |
| AddressOrder.FamiliesInOrder | tor-maint-0.2.3-ebb95d0/src/common/address.c:919-921 | Unspecified addresses come before IPv4 and those before IPv6. |
| AddressOrder.Neighbours | tor-maint-0.2.3-ebb95d0/src/common/address.c:894-895 | 10.0.0.1 and 10.0.0.2 tie under 24 bits and not under 31. |
| AddressOrder.OneBitTooMany | tor-maint-0.2.3-ebb95d0/src/common/address.c:856-857 | A comparison that reads past the address. |
| AddressOrder.MappedBits | tor-maint-0.2.3-ebb95d0/src/common/address.c:929-951 | Of the leading bits of an IPv4 address in either form those behind the first 96 are bits of the embedded number. |
| AddressOrder.MaskTranslates | tor-maint-0.2.3-ebb95d0/src/common/address.c:858-861 | 96 + m bits of a mapped address against an IPv4 address compare as m bits the other way around, as documented. |
| AddressOrder.SemanticTies | tor-maint-0.2.3-ebb95d0/src/common/address.c:836-846 | CMP_SEMANTIC under the full mask turns its sign around and ties the two forms of an IPv4 address and no other addresses. |
| AddressOrder.SemanticPreorder | tor-maint-0.2.3-ebb95d0/src/common/address.c:864-866 | It is transitive exactly on the sets without an IPv4 address, an IPv6 address below the mapped ones and a mapped address not above the first. |
| AddressOrder.CircleExists | tor-maint-0.2.3-ebb95d0/src/common/address.c:864-866 | Three such addresses: 1.2.3.4, :: and ::ffff:1.2.3.4. |
| AddressOrder.PrefixSplit | tor-maint-0.2.3-ebb95d0/src/common/address.c:901-912 | Whole bytes and leftover bits together are the leading bits of the address. |
| AddressOrder.TotalPreorder | tor-maint-0.2.3-ebb95d0/src/common/address.c:864-866 | That order is a total preorder, with ties exactly for one family and equal leading bits. |
| AddressOrder.TiesAreEqual | tor-maint-0.2.3-ebb95d0/src/common/address.c:864-866 | Under the full mask only equal addresses tie. |
| AddressOrder.ShorterMask | tor-maint-0.2.3-ebb95d0/src/common/address.c:868-922 | A tie stays a tie under a shorter mask. |

## Left out

- PageRuns.AddRun: the free list is a list of values; the `prev` and `next` links of its nodes, and the nodes' own storage through `px` and recursive calls of ifree, are not modelled.
- PageHeap.Heap.FreePages: of a page-aligned pointer to a FIRST page callers know that malloc_pages returned it; the tag of a guard page is the same as that of the first page of a run, so that the code cannot tell them apart.
- PageHeap.Heap.MallocPages: the page directory is a map from pages to tags; its growth in map_pages, and the recomputation of malloc_brk and last_index, are not modelled.
- ChunkBucket.PlaceFor: nothing is said about address order, which the insertion at lines 1759-1764 does not keep.
- ChunkBucket.Bucket.Free: a pointer into the struct pginfo of a page that holds its own is excluded; the code would take it for a chunk in use.
- Allocator.Allocator.Malloc: of the options only malloc_guard and malloc_cache are modelled; the free-list nodes and the pages of the page directory, which the allocator takes from itself and from mmap, are not blocks of the model, and there is always a node.
- Allocator.Allocator.Free: callers do not pass the address of a guard page or a pointer into a struct pginfo, which the code cannot tell from what it may free; the checks for addresses below the heap or above it, realloc and calloc are not modelled.
- Allocator.Allocator.FreeBytes: the same of a pointer into a struct pginfo.
- BucketTable.PageDir.Free: the same again.
- ChunkBits.FindFree: a bitmap word is the list of its 64 bits and the mask u is the position of its one bit.
- HashTable.Table.Insert: as the source asks, no matching element is in the table, and there is a table or memory for one.
- HashTable.Table.Replace: an element not in the table has a NULL link, and there is a table or memory for one; otherwise the source dereferences NULL or leaves a stale link.
- HashRuns.Legal: a run calls HT_REPLACE with elements that are not in the table, keeps elements outside unlinked, and has memory for the table when it is full; what happens otherwise is stated by Replace and Insert.
- HashTable.Table.Grow: the load factor 0.6 is a fraction, not a floating-point number; the entry count is not bounded to 32 bits.
- HT_FIND_OR_INSERT_, HT_CLEAR and the first half of `ht.h`, which is never compiled.
- MemPool.Pool.Get: an item is its chunk and its number there; the back pointer stored in front of it is that pair.  qsort is an insertion sort with the same promise.
- PoolSize.RoundToPowerOf2: arguments of 2^63 and above, whose shifts are undefined, are excluded; mp_pool_new never passes one.
- MemPool.Create: the abort when malloc has no memory for the pool is not modelled.
- mp_pool_destroy and the statistics of mempool.c and memarea.c, which only add traversals.
- MemArea.Area.Alloc: one area with the global list; other areas enter as the chunks in `known`, which no operation touches.  The sentinel's value is not stored; blocks are shown to end in front of it.
- CounterMode.CounterCipher.Crypt: the block cipher is an arbitrary function on blocks; the OpenSSL counter mode, EVP and key setup are not modelled.
- Sha256.Sha256State.Process: the error returns for a buffer that is too full cannot be reached from sha256_init and are not modelled; the bit length is kept modulo 2^64.
- Inet6Text.Ntop: what a failing tor_snprintf leaves in the caller's buffer is not modelled.
- CircuitExpiry.Sweep: logging, control events, the relaunch of a rendezvous and what closing a circuit triggers elsewhere are not modelled; the build-time functions are answers.
- CircuitExpiry.OldestCutoff: timeouts are real numbers, so that rounding happens only where tor_lround rounds.
- CircuitExpiry.Circuit.Expire: a REND_READY circuit has a build state, which the code dereferences.
- Escape.EscForLog: the NULL string, printed as "(null)", is not modelled.
- Calendar.Timegm: time_t is unbounded; a 64-bit one holds every result.
- CallGraph.FindDepths: at most BIG functions; the parsing of C files and the printing of the script are not modelled.
- AddressOrder.SemanticPreorder: stated for the full mask of tor_addr_compare; under shorter masks, which are relative to the first address, no order is claimed.
- tor_addr_to_PTR_name and tor_addr_parse_PTR_name, a second round trip of the kind of Inet6RoundTrip.
- TLS, zlib, libevent, sockets, processes, threads, files and the Windows branches: calls into code not shown.
- Circuit selection and launching, directory and descriptor code: dominated by functions not shown.
