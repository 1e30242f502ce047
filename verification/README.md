# Verification model of lightcache

lightcache is a small memory cache server in C: a slab allocator, a hash table that recycles its
nodes, and a single-threaded server that reads requests and writes responses one byte per event.
This project models those three parts and the client's half of the wire format in Dafny, in the
form the C code has: classes whose methods update fields, arrays and intrusive links in place. Each
class is proved against a specification on values, and the properties the system is for are proved
about that specification over whole runs.

## What is modelled

**Slab allocator** (`src/slab.c`).
- `SlabPool` is the specification: a pool of slabs with size classes, free/partial/full lists as
  sequences of slab numbers, slot sets, a byte counter, and the two transitions `Malloc` and `Free`.
  Its invariant `Inv` joins lists, counters, bitmaps and bytes.
- `SlabRuns` states what holds in every run of `scmalloc` and `scfree` by a client that frees only
  what it holds: list membership, alignment, disjointness, bytes, NULL results and draining.
- `SlabChoice` states which slab and slot `scmalloc` picks: partial slabs before empty ones, the least
  free slot, and what was given back last first.
- `SlabOffsets` states exactly for how many slabs the 32-bit arithmetic of region and offsets is right.
- `Bits` (bitmap words and the de Bruijn lookup), `SlabLists` (intrusive lists with the stale `prev`
  that `pop` leaves at the head), `SizeClasses` (class table and ceiling search) and `SlabAllocator`
  (`init_cache_manager`, `scmalloc`, `scfree` on control blocks) are the code. The manager's `Rep`
  ties head/tail/next/prev, `nused`, the bitmap words and `mem_used` to a `Pool`; `Scmalloc` and
  `Scfree` are proved to perform exactly `Malloc` and `Free`; `RunOps` lifts that to whole runs with
  all the pointers they return, and `AllocatorSession` to runs from `init_cache_manager` on.

**Hash table** (`src/hashtab.c`).
- `HashTable` has chain nodes with in-place recycling and a table that is swapped on growth. `Map()`
  is the finite map a table stands for. The position invariant, no node after a live node of a
  chain holds the same key, is what makes a rehash succeed although it inserts tombstones as live.
- `HashTableRuns` runs any list of operations against the finite map.

**Server** (`src/lightcache.c`, `src/util.c`, `src/protocol.h`, `test/lcclient.py`).
- `Numbers` and `Wire` are byte order, decimal parsing and the packets, both directions. `Wire.Cut`
  is how the server takes the first request off any stream of bytes.
- `Streams` says what a whole run takes off a stream: answered requests completely, aborted ones up to
  the part that there was no memory for (`TakeAll`).
- `Commands` is the meaning of the protocol: a map from keys to data, timeout and set time, one
  setting and the counters; `Perform` maps a state and a request to a new state and an answer, given
  the clock and whether there is memory. Lemmas say for each return code exactly which requests get
  it, for each key what a request does to it, and for each counter what it counts in a run.
- `Executor` is `execute_cmd` over the hash table of cached requests, with the heap of live blocks:
  `live` are the blocks allocated and not freed, `held` says which key a cached block belongs to.
- `Connection` is the connection state machine: buffers, handing them over to the cache, freeing,
  one byte per event, with memory given or refused at every event. Its invariant `Valid` holds at
  every event boundary, also after a request had to be aborted for want of memory.
- `Session` connects everything: a client's requests, any schedule of events, and the responses the
  client decodes.
- `Strays` is the session that goes wrong: what the server does with the body of an aborted request.

## Assumptions

- The allocations of the hash table (`hset` and `_hgrow`) succeed. Every other allocation of the
  server succeeds or fails as `Env.memory` of the event says, and every `scmalloc` has its own
  result.
- The client's requests are well-formed (`Wire.WellFormed`): keys contain no NUL; without a key there
  is no data and without data no extra, as the server reads on that basis (`src/lightcache.c:518`,
  `:534`); GET, DELETE and GET_SETTING carry a key, and a SET with data carries an extra. Requests over
  the size limits are included: their header alone is a unit of the stream and is answered with
  INVALID_PARAM_SIZE. Only after an aborted request can the server meet anything else; when it does,
  the model stops in the state UNDEFINED: the source dereferences a NULL key or extra, or the key has
  a NUL in it.
- A `read` delivers a byte, would block or reports the end; a `write` takes a byte, would block or
  fails for good. The poller delivers registered events, or a stale one for a closed connection.
- One client connection. With several, one of them may be sending data that another one frees.
- `conn->out` starts out without data, which `make_conn` does not ensure (`src/lightcache.c:78-82`).
- A little-endian machine with 4-byte aligned 32-bit fields: two padding bytes follow the first two
  bytes of either header. Those of the response header are never written and stay what they were.
- The clock, the text GET_STATS prints, and what the response header holds before it is first
  written are parameters.
- `scmalloc` and `scfree` run with fewer than 4096 slabs. `SlabOffsets` shows that this is exactly
  when offsets and region survive the allocator's 32-bit arithmetic.

## Where code and expectation differ

- The bits past the last chunk of a slab are never cleared, so a found bit alone does not mean a
  free slot; `SlabPool.LeastFreeBelow` and the counters show why the index is below the chunk count.
- From 4096 slabs on (about 4 GB) the region that `init_cache_manager` asks for is too small for its
  slabs (`src/slab.c:389`), and chunks of the smallest class no longer decode to their slab.
- That the answers are those to the client's requests holds exactly as long as no request is aborted
  (`Conn.ServedExactly`), and a request is aborted exactly if, at the byte before its key, data or
  extra, there is no memory for that part (`Conn.EventHandler`). Then the rest of its body stays on
  the stream and is taken for the next header (`src/lightcache.c:201-224`, `Conn.AbortLeaves`). For
  instance a SET whose data spell requests: aborted before its data, the server executes them all
  (`Strays.StraySession`), such as a FLUSH_ALL (`Strays.StrayFlush`).
- An entry's age is cut to an unsigned 32-bit number (`src/lightcache.c:294`). For the timeouts that can be
  stored the cut age decides like the true one exactly below 2^32 seconds, and when the clock was set
  back, so that the age is negative, exactly if the cut age is at most 1 (`Commands.Expiry32Exactly`).
  For instance with the clock set back by one second GET drops a fresh entry (`Commands.SetBackClock`).
- `atoull` accepts a minus sign and negates modulo 2^64, and reads only the leading digits; this is
  `strtoull` (ISO C99, section 7.20.1.4) and is modelled by `Numbers.Strtoull`.
- After growth `count` is not the number of nodes; only `count - freecount` has a meaning, which
  `HTab.HCount` has in every contract.

## Model

| member | source | states |
|---|---|---|
| `Bits.SetBitMeaning` | src/slab.c:108-113 | or-ing in the shifted one sets that bit of a word and changes no other |
| `Bits.ClearBitMeaning` | src/slab.c:114-119 | and-ing with the complement clears that bit and changes no other |
| `Bits.LowestBitExists` | src/slab.c:136-149 | every nonzero word has a lowest set bit |
| `Bits.Nlz64IsLowestBit` | src/slab.c:136-149 | for every nonzero 64-bit word the de Bruijn product and table give the index of the lowest set bit |
| `Bits.BitSet.constructor` | src/slab.c:407-408 | a new bitmap has every bit set, also those past the chunk count: no slot is used |
| `Bits.BitSet.SetBit` | src/slab.c:108-113 | the slot becomes free and the other slots stay as they are |
| `Bits.BitSet.ClearBit` | src/slab.c:114-119 | the slot becomes used and the other slots stay as they are |
| `Bits.BitSet.GetBit` | src/slab.c:121-126 | nonzero exactly for a free slot |
| `Bits.BitSet.FfSetBit` | src/slab.c:151-166 | the least free slot of all words, -1 only if every slot is used |
| `SlabPool.RemovedContents` | src/slab.c:205-231 | removing from a list without duplicates takes out exactly that element |
| `SlabPool.RemovedAt` | src/slab.c:205-231 | removal cuts the list at the element's place and keeps the order |
| `SlabPool.MovedAgrees` | src/slab.c:233-254 | moving a slab between two lists keeps every slab in exactly one list, its new home |
| `SlabPool.LeastFreeBelow` | src/slab.c:456-461 | while fewer slots than the chunk count are used, the first set bit is below the chunk count |
| `SlabPool.AddressDecodes` | src/slab.c:463-490 | division and remainder recover slab and slot of every chunk address, and the chunk ends inside the slab |
| `SlabPool.TakeSlabFacts` | src/slab.c:441-454 | the slab chosen by scmalloc heads the partial list of its class, has a free slot there, and all other slabs keep their lists; which slab that is, `SlabChoice` says |
| `SlabPool.MallocKeepsInv` | src/slab.c:420-471 | scmalloc keeps the joint invariant of lists, counters, bitmaps and bytes, for every size |
| `SlabPool.MallocAddsOne` | src/slab.c:420-471 | the chunk handed out was not live, becomes live and is at least the requested size; the other live chunks stay live and keep their sizes |
| `SlabPool.MallocTakesSlot` | src/slab.c:459-470 | a successful scmalloc takes one slot of one slab that had room in the least sufficient class |
| `SlabPool.FreeKeepsInv` | src/slab.c:473-513 | scfree of a live chunk keeps the joint invariant, also for classes with one chunk per slab |
| `SlabPool.FreeEndsOne` | src/slab.c:473-513 | scfree ends exactly that chunk; the other live chunks stay live and keep their sizes |
| `SlabPool.RelistFacts` | src/slab.c:499-510 | a drained slab is found in the partial or the full list and a formerly full one in the full list: the asserts on the moves never fail |
| `SlabPool.FreeFacts` | src/slab.c:473-513 | what scfree finds at a live chunk: its slot is used and below the chunk count, its slab counts it and is ready to be moved, and the byte counter covers it |
| `SlabRuns.InitInv` | src/slab.c:394-409 | the state after initialization satisfies the invariant with no live chunk |
| `SlabRuns.InvOneList` | src/slab.c:441-461 | each slab is in exactly one list: free with no slot used, partial of its class with some but not all, or full of its class with all |
| `SlabRuns.LivePlace` | src/slab.c:463-464 | a live chunk starts at a multiple of eight and lies inside its slab and the region |
| `SlabRuns.LiveDisjoint` | src/slab.c:463-464 | two live chunks never overlap |
| `SlabRuns.BytesBounded` | src/slab.c:466-468 | the bytes handed out never exceed the slab region, so the assert at 468 holds |
| `SlabRuns.EveryRunIsSafe` | src/slab.c:420-513 | in every state of every legal run from initialization: one right list per slab, live chunks aligned, inside, large enough and pairwise disjoint, and mem_used equal to the sum over slabs and within the region |
| `SlabRuns.MallocNullExactly` | src/slab.c:431-451 | scmalloc returns NULL exactly when the size exceeds the largest class or no slab at all is empty or a non-full slab of the least sufficient class |
| `SlabRuns.ReleasingAll` | src/slab.c:473-513 | freeing the live chunks in any order is legal and leaves none |
| `SlabRuns.StepResult` | src/slab.c:420-513 | what scmalloc returns is what it adds to the chunks of the client, with at least the size asked for; NULL changes nothing; scfree takes away the chunk it is given |
| `SlabRuns.DrainFreesEverything` | src/slab.c:499-512 | afterwards every slab is empty and on the free list, mem_used is 0, and any class can be served again |
| `SlabChoice.ChunkCountLargest` | src/slab.c:367-367 | the chunk count of a class is the largest number of chunks that fit in a slab |
| `SlabChoice.MallocExactly` | src/slab.c:441-470 | scmalloc takes the head of the partial list, else adopts the head of the free list; there it uses the least free slot, counts it, and moves the slab to the front of the full list exactly if that was the last; all other lists stay |
| `SlabChoice.WhenRoom` | src/slab.c:441-443 | the partial list of a class is not empty exactly if a slab of the class that holds chunks has room |
| `SlabChoice.EmptySlabLast` | src/slab.c:441-451 | an empty slab is taken exactly if no slab of the class that holds chunks has room; else the free list is unchanged and the slab of the chunk is one of the class |
| `SlabChoice.SameSlabAgain` | src/slab.c:441-461 | as long as a slab has room its class is served from it, at rising addresses |
| `SlabChoice.FreedTo` | src/slab.c:493-510 | a drained slab goes to the front of the free list, a formerly full one to the front of the partial list of its class |
| `SlabChoice.FreedIsReused` | src/slab.c:441-510 | a chunk given back by a full slab is the next of its class to be handed out |
| `SlabChoice.DrainedIsReused` | src/slab.c:441-510 | a slab that was drained last is the next empty slab to be taken, from its start |
| `SlabChoice.OnePartialSlab` | src/slab.c:441-461 | in every run without releases at most one slab of each class is neither empty nor full |
| `SlabOffsets.Offsets32Exactly` | src/slab.c:463-490 | the 32-bit offsets of all chunks of all 47 classes decode to their slab and slot, past the range check, if and only if there are fewer than 4096 slabs |
| `SlabOffsets.RecoversBelow4096` | src/slab.c:463-490 | for one chunk: no wrap, the range check passes, slab and slot come back |
| `SlabOffsets.FailsFrom4096` | src/slab.c:463-490 | from 4096 slabs on the first chunk of slab 4095 or 4096, in the smallest class of 24 bytes, is rejected or decodes to another slab |
| `SlabOffsets.RegionFits32` | src/slab.c:389-389 | the 32-bit product that is the size of the slab region is right if and only if there are fewer than 4096 slabs, else too small |
| `SlabLists.SlabList.Chain` | src/slab.c:394-406 | the array of control blocks becomes the free list in index order |
| `SlabLists.SlabList.Peek` | src/slab.c:168-171 | the first block, NULL for an empty list |
| `SlabLists.SlabList.Push` | src/slab.c:173-184 | the block becomes the first; the others keep their order |
| `SlabLists.SlabList.Pop` | src/slab.c:186-203 | the first block comes off, also when it was the last; the new head's stale prev breaks nothing |
| `SlabLists.SlabList.UnlinkTail` | src/slab.c:213-221 | the tail comes off; its prev is set, as the assert demands |
| `SlabLists.SlabList.UnlinkMiddle` | src/slab.c:222-225 | an inner block comes out; only good prev links are used |
| `SlabLists.SlabList.Rem` | src/slab.c:205-231 | found exactly if the list holds the block; then it is cut out at its place, else nothing changes |
| `SlabLists.RemAndPush` | src/slab.c:233-241 | the block moves to the front of the other list exactly if the source holds it; blocks of other lists keep their links |
| `SlabLists.PopAndPush` | src/slab.c:243-254 | the head moves to the front of the other list; nothing changes if there is none |
| `SizeClasses.SizeToCache` | src/slab.c:263-302 | terminates; a class of least size at least the key, NULL exactly if there is none or the table is invalid; the largest l + r on the way is that of MaxSum, and a C int for at most 2^30 + 1 classes |
| `SizeClasses.SumsFitExactly` | src/slab.c:273-285 | l + r stays within a C int in every search of every sorted table of n classes if and only if n is at most 2^30 + 1 |
| `SizeClasses.TableOk` | src/slab.c:351-368 | the table built at factor 1.25 is aligned, strictly increasing and within a slab; exactly its last three classes hold one chunk per slab |
| `SizeClasses.LargestClasses` | src/slab.c:362-368 | the sizes of classes 43, 44 and 46, which the one-chunk boundary rests on |
| `SizeClasses.ScalingGrows` | src/slab.c:362-365 | one scaling and rounding step gives a larger multiple of eight |
| `SizeClasses.ClassSizeGrows` | src/slab.c:362-368 | scaling and rounding make every class a multiple of eight and larger than the one before |
| `SizeClasses.InRangeSizeHasClass` | src/slab.c:431-439 | a class is found exactly for sizes up to the largest class |
| `SizeClasses.BuildClasses` | src/slab.c:362-368 | the loop builds that table, with empty lists and the chunk counts |
| `SlabAllocator.SlabsFit` | src/slab.c:370-412 | control blocks, slabs and headers together stay within the memory limit, for any limit |
| `SlabAllocator.CountIsMost` | src/slab.c:372-373 | the number of slabs is the largest for which manager, classes, control blocks, slabs and four headers fit in the limit, cut to 32 bits for limits that hold more |
| `SlabAllocator.NewBlocks` | src/slab.c:397-409 | distinct control blocks numbered in order, each with an all-free bitmap of its own |
| `SlabAllocator.CacheManager.Assemble` | src/slab.c:394-414 | the parts put together represent the initial pool and, below 4096 slabs, satisfy the manager's invariant |
| `SlabAllocator.CacheManager.CountSlabs` | src/slab.c:372-373 | the largest number of slabs that fit in the limit with their control blocks, cut to an unsigned int; not cut for limits below 2^32 MB |
| `SlabAllocator.CacheManager.InitCacheManager` | src/slab.c:328-418 | for any limit: fails exactly if fewer than two slabs fit (counted as unsigned int) or one of the four malloci calls fails; else it has the largest number of slabs that fit, mem_mallocd is exactly what was asked for and within the limit, mem_used is 0, the region has the size of the slabs if and only if they are fewer than 4096, and then the manager represents the initial pool |
| `SlabAllocator.CacheManager.LayOut` | src/slab.c:380-412 | the part after the checks: control blocks, free list and region with exactly those bytes counted |
| `SlabAllocator.CacheManager.MoveHead` | src/slab.c:243-254 | pop_and_push between two of the manager's lists moves one slab and leaves all other lists representing what they did |
| `SlabAllocator.CacheManager.MoveItem` | src/slab.c:233-241 | rem_and_push likewise, finding the slab exactly if its list has it |
| `SlabAllocator.CacheManager.TakeSlabFor` | src/slab.c:441-451 | the head of the partial list, else a free slab moved to it and given to the class, NULL exactly if there is neither; that is the choice `SlabChoice.EmptySlabLast` describes |
| `SlabAllocator.CacheManager.TakeBit` | src/slab.c:456-459 | the least free slot, below the chunk count, is marked used and counted |
| `SlabAllocator.CacheManager.TakeSlotOf` | src/slab.c:456-461 | and the slab goes to the full list exactly when that was its last slot |
| `SlabAllocator.CacheManager.HandOut` | src/slab.c:456-470 | the address computed in 32-bit steps is the chunk's, and mem_used stays within mem_mallocd |
| `SlabAllocator.CacheManager.ServeClass` | src/slab.c:441-470 | serving a class is the state machine's step for it |
| `SlabAllocator.CacheManager.Scmalloc` | src/slab.c:420-471 | performs exactly the Malloc transition, result included, and keeps lists, links, bitmaps and counters consistent; what that transition picks is `SlabChoice.MallocExactly` |
| `SlabAllocator.CacheManager.GiveBit` | src/slab.c:493-499 | the bit of a live chunk is clear, so the double-free branch is not taken; the slot is freed and uncounted |
| `SlabAllocator.CacheManager.Relist` | src/slab.c:499-510 | the slab moves as its new count demands and both asserts hold |
| `SlabAllocator.CacheManager.FreeSlot` | src/slab.c:493-512 | bit, counter, lists and mem_used change together as the transition says |
| `SlabAllocator.CacheManager.Scfree` | src/slab.c:473-513 | performs exactly the Free transition; neither error branch is reached |
| `SlabAllocator.RunOps` | src/slab.c:420-513 | any legal sequence of calls on the manager ends in the state the state machine reaches, and every call returns the pointer or NULL that the state machine gives |
| `SlabAllocator.AllocatorSession` | src/slab.c:328-513 | from init_cache_manager through any legal calls: the state is safe in the sense of EveryRunIsSafe, mem_used stays within the region and the limit, and the returned pointers are those of the state machine |
| `HashTable.HTab.constructor` | src/hashtab.c:67-90 | an empty table of 2^logsize chains |
| `HashTable.HTab.HGet` | src/hashtab.c:172-186 | the live node of the key, NULL exactly for absent keys, with the mapped value |
| `HashTable.HTab.Scan` | src/hashtab.c:119-129 | finds whether the key is live and the last tombstone of its chain |
| `HashTable.HTab.Reuse` | src/hashtab.c:131-144 | the last tombstone becomes the live node of the key; its key block is large enough; the position invariant holds on |
| `HashTable.HTab.PushFront` | src/hashtab.c:145-162 | without tombstones the new node heads the chain; the position invariant holds on |
| `HashTable.HTab.Insert` | src/hashtab.c:130-162 | the map gains exactly the binding, with a new node only if the chain has no tombstone |
| `HashTable.HTab.HSet` | src/hashtab.c:114-170 | HEXISTS exactly for present keys with nothing changed, else the map gains the binding; never HERROR; the table grows exactly if the load reaches three quarters, to the least doubling that fits all nodes; a node is reused if and only if the chain had a tombstone |
| `HashTable.HTab.HFree` | src/hashtab.c:213-219 | the map loses the key of a live node and the count goes down by one; a second free does nothing |
| `HashTable.HTab.SetFlag` | src/hashtab.c:51-51 | re-marking a copied tombstone takes its key out of the map again |
| `HashTable.HTab.NotYetCopied` | src/hashtab.c:44-50 | by the position invariant no node still to be copied has a key that is already live in the new table |
| `HashTable.HTab.CopyNode` | src/hashtab.c:43-54 | one rehash step never sees HEXISTS or a missing item, and copies the node's contribution to the map |
| `HashTable.HTab.Rehash` | src/hashtab.c:36-56 | all nodes of all chains are copied, tombstones included; always succeeds |
| `HashTable.HTab.HGrow` | src/hashtab.c:28-65 | growth keeps the map and never adds nodes; the table is doubled once and then as often as its nodes, tombstones included, load it to three quarters; it succeeds and terminates with hset |
| `HashTable.Grown` | src/hashtab.c:164-168 | the least doubling of a size that n nodes load below three quarters |
| `HashTable.GrownStep` | src/hashtab.c:28-65 | inserting nodes one by one, each possibly growing the table, gives the size that fits them all |
| `HashTable.HTab.ValueStored` | src/lightcache.c:334-334 | storing into a live node's value changes the map at its key only |
| `HashTableRuns.Perform` | src/hashtab.c:114-219 | one hset, hget or hfree of a key is the step of the finite map, outcome included |
| `HashTableRuns.RunAll` | src/hashtab.c:114-219 | any sequence of them yields the outcomes and the contents of the finite map, and count - freecount is its size |
| `HashTableRuns.StepExactly` | src/hashtab.c:114-219 | exactly a put of an absent key stores, exactly a deletion of a present one frees, and no operation touches another key |
| `HashTableRuns.OutcomesAt` | src/hashtab.c:114-219 | the i-th outcome is that of the i-th operation after the ones before it |
| `HashTableRuns.FirstPutStays` | src/hashtab.c:123-125 | in any run the first value put under a key stays until the key is deleted; meanwhile it is found and other values are refused |
| `HashTableRuns.AbsentUntilPut` | src/hashtab.c:172-186 | in any run an absent key stays absent until it is put, and is not found |
| `HashTableRuns.Delete` | src/hashtab.c:213-219 | hget and hfree of a key are the deletion of the finite map |
| `Numbers.BigEndianRoundTrip` | src/lightcache.c:506-507 | network byte order decodes to the number that was encoded |
| `Numbers.BytesAt` | src/util.c:103-119 | byte i of a word is its i-th byte from below in memory and from above in network order |
| `Numbers.NetworkOrder` | src/lightcache.c:174-174 | the four bytes of a length, most significant first |
| `Numbers.OrIsPlus` | src/util.c:111-111 | or-ing a number below 2^k to a multiple of 2^k adds it |
| `Numbers.AndIsMod` | src/util.c:111-111 | and-ing with 2^k - 1 keeps the lowest k bits, the remainder by 2^k |
| `Numbers.SwapRound` | src/util.c:111-112 | one round of the swap loop, with or, and and shifts on 64-bit words, moves the lowest byte of one word to the low end of the other |
| `Numbers.LiSwap64` | src/util.c:103-119 | the loop of shifts, and and or computes the number whose bytes are read in the opposite order, within 64 bits |
| `Numbers.SwapReverses` | src/util.c:103-129 | the bytes in memory are reversed and swapping twice gives the number back |
| `Numbers.Atoull` | src/util.c:131-144 | an accepted number is at least 1 and fits 64 bits |
| `Numbers.AtoullOfDigits` | src/util.c:131-144 | a string of digits is accepted exactly when it denotes 1 .. 2^64 - 1, as that number |
| `Numbers.AtoullExactly` | src/util.c:131-144 | white space, one sign and digits up to the first other byte: refused exactly without digits, for zero and beyond 64 bits; a minus sign negates modulo 2^64 |
| `Numbers.Decimal` | test/lcclient.py:33-33 | the digits the client sends for n denote n |
| `Wire.HeaderDecodes` | test/lcclient.py:28-43 | the header fields the server reads are those the client packed |
| `Wire.RequestLayout` | test/lcclient.py:28-43 | every byte of a packed request: opcode, key length, the lengths in network order, then key, data and extra; an oversize one is its header |
| `Wire.ResponseLayout` | src/lightcache.c:172-182 | every byte of a response: opcode, code, padding, the length in network order, then the data |
| `Wire.HandlesExactly` | src/lightcache.c:256-451 | of the complete units on a stream exactly these are not handled: GET, DELETE or GET_SETTING without a key, SET with data and without a timeout, and a key with a NUL |
| `Wire.CutInvertsEncode` | src/lightcache.c:501-564 | the request the server cuts off a stream that starts with a packed request is that request with that length, whatever follows |
| `Wire.CutAllInvertsEncodeAll` | src/lightcache.c:501-564 | cutting all units off a stream of packed requests, whatever follows, gives exactly these requests and then what follows |
| `Wire.GivenUpLeaves` | src/lightcache.c:201-224 | of a packed request that is given up for want of memory exactly the part without memory and what comes after it stay on the stream |
| `Wire.Client.RecvUntil` | test/lcclient.py:45-52 | exactly the next n bytes |
| `Wire.Client.RecvPacket` | test/lcclient.py:73-79 | decodes the opcode, code and data of an encoded response and consumes exactly its bytes |
| `Wire.EncodeRespsFront` | test/lcclient.py:73-79 | a stream of responses starts with the encoding of the first |
| `Wire.ReceiveAll` | test/lcclient.py:73-79 | receiving packets until the stream of encoded responses ends yields exactly these responses in order |
| `Commands.GetsAreHitsOrMisses` | src/lightcache.c:280-301 | cmd_get = get_hits + get_misses in every run |
| `Commands.CountersExactly` | src/lightcache.c:280-310 | in every run cmd_get and cmd_set grow by the number of GETs and SETs, get_hits by the GETs answered SUCCESS, get_misses by those answered KEY_NOTEXISTS |
| `Commands.AnswersAt` | src/lightcache.c:256-451 | the i-th answer is that of the i-th request in the state the ones before it lead to |
| `Commands.InvalidCommandExactly` | src/lightcache.c:439-442 | INVALID_COMMAND for exactly the opcodes that are none of the seven; nothing changes |
| `Commands.SizeRefusedExactly` | src/lightcache.c:509-515 | INVALID_PARAM_SIZE for exactly the oversize headers; nothing changes |
| `Commands.OutOfMemoryExactly` | src/lightcache.c:201-224 | OUT_OF_MEMORY for exactly the aborted requests, and GET_STATS and GET_SETTING without memory for their answer; nothing changes |
| `Commands.KeyNotExistsExactly` | src/lightcache.c:280-355 | KEY_NOTEXISTS for exactly a GET of an absent or expired key and a DELETE of an absent one |
| `Commands.InvalidParamExactly` | src/lightcache.c:313-408 | INVALID_PARAM for exactly a SET without data or number, a CHG_SETTING without data, of another setting or without number, and a GET_SETTING of another setting; store and setting stay |
| `Commands.SuccessExactly` | src/lightcache.c:256-451 | SUCCESS for exactly the other requests |
| `Commands.DataExactly` | src/lightcache.c:256-451 | only a GET that finds its entry, GET_SETTING and GET_STATS are answered with data, and with which |
| `Commands.StoreExactly` | src/lightcache.c:280-361 | for every key: an accepted SET stores its entry, DELETE and FLUSH_ALL remove, a GET removes an entry it finds expired, nothing else touches the store |
| `Commands.SetAnswers` | src/lightcache.c:306-339 | a SET with data and a string of digits is answered SUCCESS and stored with that number as timeout exactly for 1 .. 2^64 - 1; else INVALID_PARAM with the store unchanged; likewise without data |
| `Commands.TimeoutStored` | src/lightcache.c:313-339 | the timeout sent as str(n) is stored as n |
| `Commands.FlushAnswers` | src/lightcache.c:356-362 | FLUSH_ALL is answered SUCCESS and leaves an empty store and everything else |
| `Commands.AnswersSmall` | src/lightcache.c:509-515 | in every run the data of entries and answers is below the size limit, so its length fits the header |
| `Commands.EntryKept` | src/lightcache.c:280-361 | commands that neither store nor remove a key leave its entry exactly if no GET of the key among them finds the cut age above the timeout, else the key is gone; for any clock |
| `Commands.GetAfterSet` | src/lightcache.c:280-339 | after an accepted SET and any such commands, GET returns the data exactly if neither it nor a GET of the key in between finds the cut age above the timeout, else KEY_NOTEXISTS; for any clock |
| `Commands.GetAfterSetInTime` | src/lightcache.c:280-339 | while the clock stays within 2^32 seconds from the SET on and does not run back behind it, GET returns the data exactly while the true age does not exceed the timeout |
| `Commands.SetBackClock` | src/lightcache.c:294-299 | with the clock one second before the SET, GET drops the fresh entry for every timeout below 2^32 - 1 |
| `Commands.AbsentUntilStored` | src/lightcache.c:280-361 | an absent key stays absent until a SET of it is accepted |
| `Commands.RemovingWorks` | src/lightcache.c:340-361 | after DELETE, expired or not, or FLUSH_ALL, GET finds nothing until the key is stored again |
| `Commands.Expiry32Exactly` | src/lightcache.c:294-294 | for any age, also a negative one: the cut age decides like the true age for all timeouts 1 .. 2^64 - 1 if and only if the age is below 2^32 and, if negative, cut to at most 1 |
| `Commands.SettingKept` | src/lightcache.c:363-389 | only an accepted CHG_SETTING changes the setting |
| `Commands.SettingExactly` | src/lightcache.c:363-389 | an accepted CHG_SETTING stores its number, and no other request touches the setting |
| `Commands.SettingRoundTrip` | src/lightcache.c:363-402 | any string of digits sent by CHG_SETTING, leading zeros included, comes back from GET_SETTING as the number it denotes for exactly 1 .. 2^64 - 1 (OUT_OF_MEMORY if the answer has no memory); else INVALID_PARAM and no change |
| `Executor.DropKeepsStore` | src/lightcache.c:90-102 | taking one key out of the cache leaves the requests and blocks of the others |
| `Executor.AddKeepsStore` | src/lightcache.c:325-336 | entering a request under an absent key leaves the others |
| `Executor.CountBlocks` | src/lightcache.c:90-102 | blocks partitioned by key, four each, are four times as many as the keys |
| `Executor.Store.constructor` | src/lightcache.c:899-902 | an empty cache of 16 chains, nothing live |
| `Executor.Store.LiFree` | src/mem.c:50-56 | NULL is ignored; a freed block must be live, so in no run is a block freed twice |
| `Executor.Store.FreeBlocks` | src/lightcache.c:96-99 | request, key, data and extra are each freed once, from live blocks |
| `Executor.Store.DelCachedReq` | src/lightcache.c:90-102 | the cached request's blocks go, the node's value is cleared, other requests stay; nothing happens for a tombstone |
| `Executor.Store.DropItem` | src/lightcache.c:296-297 | del_cached_req and hfree remove exactly the key, and only its blocks |
| `Executor.Store.FlushItems` | src/lightcache.c:241-253 | after the enumeration of all nodes the map is empty and every cached block is freed |
| `Executor.Store.Overwrite` | src/lightcache.c:330-335 | an existing key's request is freed and replaced by the new one |
| `Executor.Store.PutReq` | src/lightcache.c:326-335 | the request is in the table under its key, whether the key existed or not; HERROR does not occur |
| `Executor.Store.CacheReq` | src/lightcache.c:325-336 | the map is updated at the key and the request's blocks become the cache's |
| `Executor.Store.Lookup` | src/lightcache.c:283-299 | the cached request of a present, unexpired key with its data; an expired entry is removed; the cached timeout always parses |
| `Executor.Store.DoGet` | src/lightcache.c:276-305 | GET as specified, code, store and both counters (which `Commands.CountersExactly` and `KeyNotExistsExactly` pin down); a hit's data is the cached buffer and is not freed with the response |
| `Executor.Store.DoSet` | src/lightcache.c:306-339 | SET as specified, code, store and counter (which `Commands.SetAnswers` and `InvalidParamExactly` pin down); the request is kept exactly when it was cached |
| `Executor.Store.DoDelete` | src/lightcache.c:340-355 | DELETE as specified |
| `Executor.Store.DoChgSetting` | src/lightcache.c:363-389 | CHG_SETTING as specified |
| `Executor.Store.DoGetSetting` | src/lightcache.c:390-408 | the setting in network byte order in a block of its own; OUT_OF_MEMORY and no block without memory; INVALID_PARAM for another key |
| `Executor.Store.DoGetStats` | src/lightcache.c:409-438 | the statistics text in a block of fixed size; OUT_OF_MEMORY and no block without memory |
| `Executor.Store.FourBlocksEach` | src/lightcache.c:90-102 | the cache holds exactly four blocks per item |
| `Executor.Store.Execute` | src/lightcache.c:256-451 | every command changes the cache, setting and counters as its meaning says and answers accordingly, with memory or without; the only blocks that leave or enter the connection's ownership are a cached request and new response data |
| `Streams.TakeParts` | src/lightcache.c:496-573 | what a run takes off a stream is what its parts take off one after the other |
| `Streams.TakeBound` | src/lightcache.c:501-502 | every unit, aborted ones too, takes at least a header off the stream |
| `Streams.TakeSent` | src/lightcache.c:496-573 | well-formed requests that are all answered are taken off their packed stream one by one |
| `Streams.TakeCuts` | src/lightcache.c:496-573 | units that were all answered are the first complete ones of the stream, whatever it holds |
| `Streams.FirstAbort` | src/lightcache.c:201-224 | the first aborted request of a run leaves the rest of its body in front of the later requests |
| `Connection.Conn.constructor` | src/lightcache.c:667-672 | a new connection reads a header, owns one empty request and satisfies the invariant; without memory it is closed |
| `Connection.Conn.FreeRequest` | src/lightcache.c:104-118 | the request's blocks are freed unless the cache has taken them over |
| `Connection.Conn.FreeResponse` | src/lightcache.c:120-129 | response data is freed exactly if the response owns it |
| `Connection.Conn.InitResources` | src/lightcache.c:132-153 | what the last command owned is released and the connection owns one empty request; without memory it fails and owns nothing |
| `Connection.Conn.ReadNBytes` | src/lightcache.c:469-494 | at most one byte moves from the stream to its place in the buffer; completed exactly when the total is reached |
| `Connection.Conn.PhaseBuffer` | src/lightcache.c:201-224 | a block of the length plus one, ending in NUL; without memory NULL and nothing changed |
| `Connection.Conn.EnterReadKey` | src/lightcache.c:201-208 | with memory READ_KEY starts with an empty buffer of the right size; without, the state is SEND_HEADER with write interest, the request is booked as aborted at this place, the encoding of (opcode, OUT_OF_MEMORY) is exactly what is to be sent; the invariant holds; the server is in step afterwards exactly if it was and there was memory |
| `Connection.Conn.EnterReadData` | src/lightcache.c:209-216 | likewise for READ_DATA, with the key read before still owned |
| `Connection.Conn.EnterReadExtra` | src/lightcache.c:217-224 | likewise for READ_EXTRA |
| `Connection.Conn.AddResponse` | src/lightcache.c:172-182 | the header bytes are the encoding of opcode, code and length with the old padding, and sending starts |
| `Connection.Conn.SendResponse` | src/lightcache.c:184-187 | INVALID_PARAM_SIZE for an oversize header, or OUT_OF_MEMORY for an aborted request: state SEND_HEADER, write interest, the invariant, and the request booked as answered, and the encoding of that bare code with the opcode is exactly what is to be sent; the store stays |
| `Connection.Conn.Record` | src/lightcache.c:496-573 | the unit taken off the stream is booked with its event; the server stays in step with the client exactly if it was in step and the unit is not an aborted one |
| `Connection.Conn.ExecuteCmd` | src/lightcache.c:256-451 | the request that was cut off the stream is executed and its encoded answer is what is to be sent |
| `Connection.Conn.CmdReceived` | src/lightcache.c:518-520 | a complete request is executed exactly if it has the key and extra its command uses; else the source is undefined from there |
| `Connection.Conn.ParseHeader` | src/lightcache.c:503-511 | the parsed lengths and opcode are those of the header at the front of the stream |
| `Connection.Conn.HeaderDone` | src/lightcache.c:503-524 | reject an oversize header, else go on: the invariant holds, and the request is aborted exactly if it announces a key and there is no memory |
| `Connection.Conn.HeaderParsed` | src/lightcache.c:517-523 | execute at once, or read the key, or abort, exactly if there is a key and no memory for it |
| `Connection.Conn.KeyDone` | src/lightcache.c:533-540 | execute, or read the data, or abort, exactly if there are data and no memory for them |
| `Connection.Conn.DataDone` | src/lightcache.c:549-556 | read the extra part, or execute, or abort, exactly if there is an extra part and no memory for it |
| `Connection.Conn.ExtraDone` | src/lightcache.c:560-563 | execute; nothing is aborted |
| `Connection.Conn.ReadHeader` | src/lightcache.c:501-525 | one read event in READ_HEADER keeps the invariant, consumes a byte exactly when there is one, and aborts the request exactly if that byte is the last before a part that needs a block and there is no memory |
| `Connection.Conn.ReadKey` | src/lightcache.c:526-541 | likewise in READ_KEY |
| `Connection.Conn.ReadData` | src/lightcache.c:542-557 | likewise in READ_DATA |
| `Connection.Conn.ReadExtra` | src/lightcache.c:558-564 | likewise in READ_EXTRA |
| `Connection.Conn.TryReadRequest` | src/lightcache.c:496-573 | every read event keeps the invariant; one byte is consumed exactly when there is one; at most one unit is booked, an aborted one exactly as said for ReadHeader; the invalid-state branch is unreachable |
| `Connection.Conn.SendNBytes` | src/lightcache.c:575-601 | at most one byte of the buffer is appended to the output; completed exactly when the total is reached |
| `Connection.Conn.SendHeader` | src/lightcache.c:609-619 | the header goes out, then the data if there is any, else a new request is awaited |
| `Connection.Conn.SendData` | src/lightcache.c:620-626 | the data goes out, then a new request is awaited |
| `Connection.Conn.TrySendResponse` | src/lightcache.c:603-636 | every write event keeps the invariant; the invalid-state branch is unreachable |
| `Connection.Conn.EnterReadHeader` | src/lightcache.c:193-200 | once a response is out, its blocks are released and an empty request is ready; without memory the connection is closed and owns nothing |
| `Connection.Conn.DisconnectConn` | src/lightcache.c:155-170 | everything the connection owns is freed; the cache stays |
| `Connection.Conn.NextIsHandled` | src/lightcache.c:496-573 | while no request was aborted, the next request on the stream is the client's next, so it is well-formed and the source is defined |
| `Connection.Conn.HandleRead` | src/lightcache.c:673-678 | a read event keeps the invariant and consumes at most one byte; the connection is closed exactly if the peer is gone |
| `Connection.Conn.HandleWrite` | src/lightcache.c:682-688 | a write event keeps the invariant; the connection is closed if the peer is gone, and else only for want of memory for the next request |
| `Connection.Conn.EventHandler` | src/lightcache.c:638-691 | every event keeps the invariant, sets last_heard and moves exactly one byte if the socket allows and there is one to move; at most one unit is booked; the server loses step with the client exactly if the byte read is the last before a key, data or extra and there is no memory for it; a closed connection ignores events; it is closed only if the peer is gone or, after a response, memory is refused |
| `Connection.Conn.Served` | src/lightcache.c:496-636 | all answered units, also those after an abort, were taken off the client's stream one by one and leave what is ahead; up to the first aborted one they are the client's requests in order; the store is in the state they lead to; the output is a prefix of their encoded answers, all of it when the server reads |
| `Connection.Conn.ServedExactly` | src/lightcache.c:496-636 | the answered units are a prefix of the client's requests if and only if none was aborted |
| `Connection.Conn.AbortLeaves` | src/lightcache.c:201-224 | after the first abort the stream begins with the rest of that request, never empty, followed by the later requests |
| `Connection.Conn.NothingWaits` | src/lightcache.c:496-573 | when the server reads and nothing is left to read, no complete unit is unanswered, also after aborts |
| `Connection.Conn.StuckOn` | src/lightcache.c:256-451 | the source becomes undefined only on a malformed unit, after all before it were answered |
| `Connection.Conn.AllServed` | src/lightcache.c:496-636 | when the server reads, nothing is left to read and no request was aborted, every request has been answered |
| `Connection.Conn.InterestMatchesState` | src/lightcache.c:190-239 | read interest holds exactly in READ_* and write interest exactly in SEND_*; in READ_HEADER fewer than 12 bytes are in a buffer of 12, in each other read phase fewer bytes than the total in a buffer of total + 1 bytes ending in NUL; also after any number of out-of-memory transitions, as the invariant covers them |
| `Connection.Conn.NothingLeaks` | src/lightcache.c:104-153 | back in READ_HEADER, after any response including OUT_OF_MEMORY, the live blocks are one empty request and exactly four per cached item |
| `Connection.Conn.NothingLeaksAfterClose` | src/lightcache.c:155-170 | a connection closed for any reason leaves exactly the cached blocks |
| `Connection.Serve` | src/lightcache.c:638-691 | any schedule of events keeps all that, up to where the source is undefined; with memory nothing is aborted; if the connection is still served, each delivery that could move a byte moved one until everything was served, with blocked ones anywhere in between |
| `Session.RunSession` | test/lcclient.py:28-79 | for any well-formed requests and any schedule, with blocked events, a peer that goes and memory refused at any point: what is answered was taken off the client's stream unit by unit, and is a prefix of the requests if and only if nothing was aborted; whenever the server reads, the client decodes exactly the answers of the map with expiry, in order, with their opcodes; enough deliveries that could move a byte, counted beforehand, get every complete unit answered, and all requests if nothing was aborted |
| `Strays.StrayRequests` | src/lightcache.c:209-216 | a SET whose data spell any well-formed requests, aborted before its data, leaves exactly these requests to be taken off the stream |
| `Strays.StrayFlush` | src/lightcache.c:209-216 | with a FLUSH_ALL in the data the cache is emptied, although the client asked for a SET only |
| `Strays.AbortAtData` | src/lightcache.c:209-216 | a run of the server from a new connection to exactly that abort |
| `Strays.StraySession` | src/lightcache.c:209-216 | that run carried on with memory: the server executes all the requests that the data spell, and the client decodes an answer to each |

## Left out

- The hash function: `HHASH` is any function of the key, masked to the table size.
- Allocation failure inside `hset` and `_hgrow`: the failure paths leave the table broken (`src/hashtab.c:44-50`, `:133-138`).
- Requests of the client that are not well-formed, and what happens after the rest of an aborted request was taken for one: the code then dereferences a NULL key or extra.
- Keys with NUL bytes: the hash uses the length, equality stops at the NUL.
- Several connections: a cached request can be freed while another connection still sends it (`src/lightcache.c:108-110`, `:303-304`, `:336`).
- `disconnect_idle_conns`: its loop stops at the first free or listening record (`src/lightcache.c:458`), so it does not close every idle connection.
- The contents of GET_STATS, logging, daemon mode, command line, listening socket, `accept` and the reuse of connection records.
- `src/epoll.c`, `src/kqueue.c`, `src/event.c`, `src/socket.c`: system calls; an event is a choice among the registered ones.
- `src/mem.c`: the choice between slab allocator and system malloc. The server's heap is the set of live blocks, not the slab region.
- The bytes inside chunks and the padding of C structures; structure sizes are symbolic in the limit arithmetic.
- The floating-point logarithm that gives the number of classes: taken as 47 at factor 1.25. Scaling by 1.25 is `5 * s / 4`.
- Wrap-around of C `int` in the hash table's counters and sizes, and of the 64-bit statistics counters.
- `deinit_cache_manager`, `htdestroy` and a second initialization.
- The blocks of hash nodes, keys and bucket arrays: the model counts requests and their buffers only.
- SlabAllocator.CacheManager.InitCacheManager: promises a working manager only below 4096 slabs, which the source does not check; from there on the region is too small, see `SlabOffsets.RegionFits32`.
- SlabAllocator.AllocatorSession: requires fewer than 4096 slabs for that reason; `SlabOffsets` shows that this is the exact limit.
- SlabAllocator.CacheManager.Scfree: requires a live pointer; for others the source asserts or corrupts its lists.
- Connection.Conn.EventHandler: covers a client connection, not the listening socket.
- Executor.Store.DoGetStats: the text is a parameter.
