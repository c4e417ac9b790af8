# A verified model of SuperCollider's real-time data structures

SuperCollider's audio server avoids the system allocator and avoids locks. This
project models the code that makes that possible, and a few printers and readers
around it, and proves what each of them promises.

* **The real-time pool allocator** (`common/SC_AllocPool.cpp`, `common/SC_AllocPool.h`).
  Boundary tags, 128 size bins as circular lists, a bitmap of non-empty bins, splitting,
  coalescing, growing areas and resizing in place. `AllocPool.dfy` is the class; its memory is a flat
  map of words, in which area headers, chunk headers, list links and payloads lie where the code puts
  them. The specification is the invariant of the code's own debug checks: the chunks tile every
  area (`Chunks`), the tags in memory say so (`Tags`), no two free chunks are neighbours, the bins and the
  bitmap index exactly the free chunks (`FreeIndex`, `Bins`, `Links`), and the area headers form one ring
  (`AreaRing`). `PoolState` and `ReallocState` prove the steps, `BestFit` and `Queries` the searches,
  `Conservation` what follows from the invariant. `PoolRuns` runs any client against a pool and proves what
  holds over whole runs. `AreaSplit` is the one path whose precondition is narrow, and `Witnesses` holds the
  concrete runs in which a promise fails.
* **Two lock-free protocols** as step systems, every load, store and exchange its own step
  under sequential consistency: the triple buffer `scope_buffer` (`ScopeBuffer`) and the message
  rings `MsgFifo` and `MsgFifoNoFree` (`MsgFifo`).
* **Printers against their readers**: Windows argument quoting against the CommandLineToArgvW rules
  (`WindowsArgs`), and the OSC packet writer against the bundle walk (`OscWriter`, `Osc`), bundles in
  bundles included (`OscTree`).
* **Smaller pieces**: the decimal reader `sc_strtod` over exact reals (`Strtod`), also against numbers written out
  character by character (`Spelling`), the help document
  normaliser on values and on nodes changed in place (`DocTree`, `DocFixup`), and the linked list
  `Link` (`LinkList`).

Sizes are those of a 64-bit target: 32 bytes for a chunk header and for an area header, alignment
64. `dafny verify dfyconfig.toml` checks everything.

## Findings

Some promises hold only under a condition. Each has a lemma that gives the condition exactly or
a concrete input.

* **Truncated remainder.** `Alloc` compares sizes through an `int32`. For every size, the search returns what a plain scan
  for the smallest fit returns if and only if no chunk of the last bin that is too small passes the truncated test
  (`BestFit.Search`, condition `TestsTruly`); below 2^31 that always holds (`TrulyBelow`). Otherwise a chunk that is too small is
  handed out: a request of 4 GB less 32 bytes gets a chunk of 1 MB (`Witnesses.FalseHit`). `FitTestExact` is the
  same for a single test.
* **Wrapped request.** `RequestToSize` returns the least fitting size exactly when the request is more than
  95 bytes away from 2^64 (`RequestToSizeExact`).
* **Backward resize.** When `Realloc` moves a block down into its predecessor and splits off a remainder, the remainder's
  header is written before the payload is moved. The payload is kept if and only if that header
  does not fall inside the old payload (condition `Clobbers`), unless the word that is lost happened to read as the remainder's size
  (`Pool.KeptExactly`); the words not under that header are kept in any case. `Witnesses.LostWord` is a run of two
  allocations, a free and a resize after which a word the client wrote reads as 192.
* **Split of a new area.** A remainder smaller than `kMinAllocSize`, even 0, is tagged and linked all the same. The invariant
  survives exactly when the remainder can be a chunk (`SplitNewAreaExact`). A pool that grows by 1024 bytes breaks on a
  request of 928 or of 992 (`Witnesses.SplitTooFine`).
* **Largest chunk of a full pool.** With no free chunk the bitmap is empty, and `LargestFreeChunk` computes bin -1 and starts its walk at
  `mBins[-1]`; with any free chunk it is right (`Queries.TopFullBin`, `Queries.LargestFreeChunk`).
* **Scope buffer size.** The three regions lie inside the allocation exactly when `channels * size * 3` fits 32 bits (`RegionsSeparate`).
  The comment at `common/scope_buffer.hpp:75-83` swaps `_in` and `_out`; the model follows the code.
  `scope_buffer_reader::pull` returns true for a packet that was taken before, as long as it has frames (`PullFrames`).
* **Quoting.** An argument that is already in quotes is passed through, and then never read back as itself; every
  other argument is (`RoundTrip`).
* **OSC printer.** The reader's `geti` does not know the tag of a character: it gives 0 and consumes nothing, so everything behind a
  character is read from the wrong place. The loop ends with the data, so arguments without data (`T`, `F`, `I`, `N` and the
  brackets) are not shown at the end. A message is shown as it was sent if and only if it has no character and does not end in an argument without
  data (`MsgShown`). Messages to `/status` and `status` are passed over as well, and a bundle is shown completely exactly when neither happens
  (`BundleShowsAll`). A message without type tags is shown as its integers unless the first one starts with the byte of a comma (`PlainShown`).
* **OSC writer.** `addd` writes two words but tests for one: with exactly one word free the second lands behind the buffer
  (`AddDouble`). `addb` clears the padding one word too early: a blob is padded as it should be exactly when the buffer already held zeros
  there, which any size that is a positive multiple of four makes sure of, and an empty blob clears the word in front of it (`BlobExact`).
* **Decimal reader.** Digits beyond the eighteenth are dropped and exponents are clamped at 511; the value is exact
  if and only if neither matters (`ExactIff`). The documentation of `sc_strtod` requires digits after an `E`; the code accepts none, and so does the model.
* **Document trees.** Only one final line break is removed, so normalising is idempotent exactly when no
  node ends in two line breaks with no text before them (`IdempotentIff`).
* **List check.** `SanityCheck` never compares the first element's back link with the head, and checks nothing in an empty list
  (`LinkList.Link.SanityCheck`).

## Model

| member | source | states |
|---|---|---|
| `Words.NumBitsBounds` | include/common/clz.h:95-96 | NUMBITS is the least number of bits that holds the word, for every word and width. |
| `Words.TopBit` | include/common/clz.h:42-47 | The count of leading zeroes locates the highest set bit of every non-zero word. |
| `Words.CtzIsLeastBit` | include/common/clz.h:86-87 | CTZ, computed from CLZ with a complement and a decrement, is the least set bit of every non-zero 32-bit pattern. |
| `Sizes.RequestToSizeExact` | common/SC_AllocPool.h:156-162 | With 64-bit wrap-around, the chunk size is the least legal one that holds the request and a header if and only if the request is below 2^64 - 95. |
| `Sizes.RequestSize` | common/SC_AllocPool.h:156-162 | Requests below 2^31 - 96 get an aligned size below 2^31 with room for the request. |
| `Sizes.BinIndexIsTable` | common/SC_AllocPool.h:166-186 | The bin found with CLZ is the tabulated one, for every size. |
| `Sizes.BinIndexMonotone` | common/SC_AllocPool.h:179-186 | Larger sizes never lie in lower bins, and every bin number is below 128. |
| `Sizes.SmallBinExact` | common/SC_AllocPool.h:164-186 | Two aligned sizes in one of the small bins are equal, which is why small bins are not searched. |
| `Sizes.FitTestExact` | common/SC_AllocPool.cpp:346-352 | The `int32` fit test agrees with the comparison of the sizes if and only if the missing bytes, less one, are below 2^31 modulo 2^32. |
| `Sizes.FitTestFailure` | common/SC_AllocPool.cpp:346-352 | A request of 4 GB less 32 bytes against a free chunk of 1 MB: the test reports a 1 MB remainder. |
| `Sizes.FitTestInRange` | common/SC_AllocPool.cpp:346-352 | For sizes below 2^31 nothing is truncated. |
| `Links.EmptyRing` | common/SC_List.h:76 | BeEmpty makes a well-formed list without elements. |
| `Links.InsertSplices` | common/SC_List.h:52-64 | InsertAfter and InsertBefore, write by write in flat memory, both leave the element between its two neighbours and change nothing else. |
| `Links.InsertRing` | common/SC_List.h:52-64 | A spliced-in element turns the ring of `l` into the ring of `l` with the element inserted at that position: next and prev stay inverse all the way round. |
| `Links.RemoveRing` | common/SC_List.h:42-45 | RemoveLeaveDangling turns the ring of `l` into the ring of `l` without that element. |
| `Bins.MarkBinBits` | common/SC_AllocPool.h:188-193 | MarkBinBlock sets the bit of one bin and no other, across the four words. |
| `Bins.ClearBinBits` | common/SC_AllocPool.h:195-200 | ClearBinBlock clears the bit of one bin and no other. |
| `Bins.NextFullBin` | common/SC_AllocPool.h:202-221 | The mask, word loop and CTZ find the least set bit at or above the start; -1 exactly when there is none. |
| `FreeIndex.LinkIndexOk` | common/SC_AllocPool.cpp:527-542 | After a chunk is linked in order, bins, rings, sortedness, bitmap and size tags again agree with the free chunks, the new one included. |
| `FreeIndex.UnlinkIndexOk` | common/SC_AllocPool.h:242-249 | After a chunk is removed and its bin's bit cleared if the bin ran empty, the index agrees with the remaining free chunks. |
| `FreeIndex.LinkFront` | common/SC_AllocPool.cpp:533-535 | Linking behind the bin header keeps the bin sorted, in small bins and in empty ones. |
| `FreeIndex.LinkBehind` | common/SC_AllocPool.cpp:536-541 | Linking before the first chunk that is not larger keeps a large bin sorted. |
| `Chunks.FuseTiled` | common/SC_AllocPool.cpp:164-179 | Replacing a run of neighbouring chunks by one keeps every area tiled up to its end marker. |
| `Chunks.SplitTiled` | common/SC_AllocPool.cpp:399-404 | Dividing a chunk in two keeps every area tiled. |
| `Tags.TaggedFuse` | common/SC_AllocPool.h:74-76 | One SetSize call makes the boundary tags say that a run is one chunk; all other tags still hold. |
| `Tags.TaggedSplit` | common/SC_AllocPool.h:74-76 | The tags of the two parts make the boundary tags those of the divided chunk. |
| `PoolState.ReadPrev` | common/SC_AllocPool.h:68-72 | The previous-size tag tells whether the preceding chunk is free, where it starts, and whether there is one. |
| `PoolState.ReadNext` | common/SC_AllocPool.h:66-70 | The size tag behind a run tells whether a free chunk follows, how large it is, and whether the area ends there. |
| `PoolState.AddAreaDetached` | common/SC_AllocPool.cpp:216-218 | A new area between its two markers is one free chunk; all blocks and payloads stay. |
| `PoolState.TakeStep` | common/SC_AllocPool.cpp:407-413 | Taking a whole free chunk keeps the invariant and all payloads. |
| `PoolState.CarveStep` | common/SC_AllocPool.cpp:399-413 | Taking the front of a free chunk and indexing the rest keeps the invariant and all payloads. |
| `PoolState.ReleaseStep` | common/SC_AllocPool.cpp:162-181 | A freed block with its free neighbours becomes one free chunk, no two free chunks touch, and the run is a whole area exactly when the block was the last in use there. |
| `PoolState.DropStep` | common/SC_AllocPool.cpp:223-235 | Without an area that is one free chunk, the chunks still tile, are tagged and are indexed in the others. |
| `PoolState.HeadersPayloads` | common/SC_AllocPool.h:82 | Whatever writes only chunk headers and markers changes no payload. |
| `AreaRing.LinkAreaStep` | common/SC_AllocPool.cpp:200-215 | The header writes of NewArea, in order, put the new area in front of the ring: next and previous links stay inverse all the way round, the size and the callback's pointer are in the header, and no other word changes. |
| `AreaRing.UnlinkAreaStep` | common/SC_AllocPool.cpp:223-235 | An area links to itself exactly when it is the only one; otherwise unlinking leaves the ring of all others, entered at the next one, and its pointer moves from the areas to those returned. |
| `AreaRing.AroundOrOn` | common/SC_AllocPool.cpp:111-115 | Following `mNext` from the first area visits each area once and comes back exactly after the last. |
| `AreaRing.AreaWordsKeep` | common/SC_AllocPool.cpp:200-215 | Writes to area headers touch no tag, no link of a free chunk and no payload. |
| `Conservation.BytesConserved` | common/SC_AllocPool.cpp:238-249 | Free bytes and bytes in use add up to the size of the areas, in every well-formed pool. |
| `Conservation.BlocksDetermineHeap` | common/SC_AllocPool.cpp:164-185 | The areas and the blocks in use determine all free chunks: the order of the calls leaves no trace. |
| `Conservation.EmptyPool` | common/SC_AllocPool.cpp:164-185 | With no block in use, each area is one free chunk. |
| `BestFit.FirstFitIsBest` | common/SC_AllocPool.cpp:342-355 | The first chunk that fits, bins upwards and each bin from its tail, is a smallest one among all free chunks that fit. |
| `BestFit.ScanBin` | common/SC_AllocPool.cpp:346-354 | For every size, the inner loop finds the last chunk of a bin that passes the test, and whether it is to be split. |
| `BestFit.HitIsFalse` | common/SC_AllocPool.cpp:346-352 | For sizes of 2^31 and more, a chunk that passes the test is too small, and so not what a plain scan returns. |
| `BestFit.Search` | common/SC_AllocPool.cpp:307-355 | For every size, the small-bin shortcut, the scan of the own bin and the bitmap search together return what a plain scan of all free chunks for the smallest fit returns, and nothing when nothing fits, if and only if no too small chunk of the last bin passes the truncated test; otherwise the chunk returned is too small. |
| `Queries.TotalFree` | common/SC_AllocPool.cpp:238-249 | The sum over all bins is the sum over all free chunks. |
| `Queries.TopFullBin` | common/SC_AllocPool.cpp:251-261 | The highest set bit of the bitmap is the topmost non-empty bin; the index is -1 exactly when no chunk is free. |
| `Queries.LargestFreeChunk` | common/SC_AllocPool.cpp:251-281 | Scanning that one bin gives the maximum over all free chunks, or starts before the bins exactly when there is no free chunk. |
| `ReallocState.SplitUsedStep` | common/SC_AllocPool.cpp:508-512 | A run cut into the resized block and a remainder in use is a well-formed pool again. |
| `ReallocState.PrevBlock` | common/SC_AllocPool.cpp:462-464 | Following the previous-size tag and looking at that chunk finds the free predecessor exactly when there is one. |
| `ReallocState.ContentMoved` | common/SC_AllocPool.cpp:506-520 | The move keeps the payload when nothing is split off or the remainder starts outside the old payload. |
| `ReallocState.ContentClobbered` | common/SC_AllocPool.cpp:508-519 | When the remainder starts inside the old payload, its size tag is what the move copies. |
| `ReallocState.ContentBeside` | common/SC_AllocPool.cpp:508-519 | Words not under the remainder's header are moved unchanged in every case. |
| `Pool.KeptExactly` | common/SC_AllocPool.cpp:508-520 | A resized block keeps the words both blocks have room for if and only if the remainder's header misses the old payload, for every old payload whose word there differs from the remainder's size. |
| `Pool.FindLink` | common/SC_AllocPool.cpp:537-539 | The loop stops at the first chunk of the bin that is not larger, or at the bin header. |
| `Pool.AllocPool.constructor` | common/SC_AllocPool.cpp:92-102 | A new pool is well formed, has no blocks, and owns the initial area, by the pointer the callback gave, if its size is not 0. |
| `Pool.AllocPool.InitBins` | common/SC_AllocPool.cpp:83-90 | All bins empty, all bits clear, nothing outside the pool object written. |
| `Pool.AllocPool.InitAlloc` | common/SC_AllocPool.cpp:69-81 | The initial area is added as one indexed free chunk, or nothing is done. |
| `Pool.AllocPool.ReturnAreas` | common/SC_AllocPool.cpp:108-116 | The walk round the ring hands the callback the pointer of every area once, in order, and ends. |
| `Pool.AllocPool.FreeAll` | common/SC_AllocPool.cpp:106-120 | Every area goes back by its own pointer; no areas and no chunks remain. |
| `Pool.AllocPool.Reinit` | common/SC_AllocPool.cpp:142-145 | The pool is as it was after construction. |
| `Pool.AllocPool.ResetAreas` | common/SC_AllocPool.cpp:126-138 | The walk round the ring turns each area into one free chunk of the size in its header, and ends. |
| `Pool.AllocPool.FreeAllInternal` | common/SC_AllocPool.cpp:122-140 | The areas stay and each is one free chunk. |
| `Pool.AllocPool.LinkFree` | common/SC_AllocPool.cpp:527-542 | The index gains exactly this chunk, under the size in its tag, and only links of free chunks are written. |
| `Pool.AllocPool.UnlinkFree` | common/SC_AllocPool.h:242-249 | The index loses exactly this chunk. |
| `Pool.AllocPool.LinkNewArea` | common/SC_AllocPool.cpp:200-215 | The header writes keep the pool and all payloads, and the new area heads the ring. |
| `Pool.AllocPool.NewArea` | common/SC_AllocPool.cpp:190-221 | The aligned area heads the ring in memory, remembers the callback's pointer, and is one free chunk, not indexed yet; payloads and blocks stay. |
| `Pool.AllocPool.FreeArea` | common/SC_AllocPool.cpp:223-235 | Exactly this area leaves the ring in memory, which is then entered at the next one; the callback gets the pointer the area came with; only area headers are written. |
| `Pool.AllocPool.Take` | common/SC_AllocPool.cpp:407-413 | The whole chunk goes in use, the index and all payloads stay. |
| `Pool.AllocPool.Carve` | common/SC_AllocPool.cpp:399-413 | The block has the requested size and the rest is a free chunk behind it. |
| `Pool.AllocPool.Alloc` | common/SC_AllocPool.cpp:283-418 | Null exactly when nothing fits and no area may be added; otherwise an aligned new block, larger than asked by less than `kMinAllocSize`, cut from a smallest free chunk that fits, exactly to size if the rest can be a chunk. When none fits, one area is added in front: of the initial size in a fixed pool, else of the size asked for or of the growth size, whichever is larger; the block starts it, has exactly its size, and the rest of the area is one free chunk. All other blocks and payloads stay. |
| `Pool.AllocPool.Free` | common/SC_AllocPool.cpp:147-187 | Exactly this block goes; only chunk and area headers change; an area leaves a growable pool, and goes back to the callback, exactly when the block was the last in it, and the others keep their order; freeing null does nothing. |
| `Pool.AllocPool.Expand` | common/SC_AllocPool.cpp:444-481 | Room is found in place when block and free successor suffice, else with the predecessor when that suffices, and not found exactly when neither does. |
| `Pool.AllocPool.Settle` | common/SC_AllocPool.cpp:506-516 | The run becomes one block, cut to size when the excess can be a chunk, the excess freed. |
| `Pool.AllocPool.Realloc` | common/SC_AllocPool.cpp:421-525 | For every request whose size does not wrap, and any that needs no new block: where the block ends up (in place, in its predecessor, in a best fit, in a new area), its exact size (the bytes found there, or the size asked for if the excess can be a chunk), that all other blocks stay, which areas are there afterwards, that the common prefix is kept unless the remainder's header falls into it, and exactly which words are lost then. Failing changes nothing. |
| `Pool.AllocPool.TotalFree` | common/SC_AllocPool.cpp:238-249 | The size of the areas less the bytes in use. |
| `Pool.AllocPool.LargestFreeChunk` | common/SC_AllocPool.cpp:251-281 | The size of a largest free chunk, or a walk from before the bins exactly when no chunk is free. |
| `PoolRuns.Execute` | common/SC_AllocPool.cpp:544-647 | Every call of Alloc, Free, Realloc and FreeAllInternal, and every write of a client into its own block, keeps what the debug checks demand of every chunk and of the ring, and is one of the steps the run theorems are about: blocks, payloads, areas, best fit, placement and the callbacks' pointers. |
| `PoolRuns.Drive` | common/SC_AllocPool.cpp:544-647 | Any client whose calls are legal when it makes them drives a pool through a run: all states are sound, in each of them free bytes and bytes in use add up to the areas, and every pointer obtained from the callback was returned to it or is that of an area. |
| `PoolRuns.BlockHolds` | common/SC_AllocPool.cpp:283-525 | Over any run in which it is not freed, resized or reset, a block stays where it is, keeps its size, and each payload word is what its owner wrote last. |
| `PoolRuns.BlocksApart` | common/SC_AllocPool.h:74-82 | In every sound state, blocks do not overlap and payloads are 64-byte aligned. |
| `PoolRuns.AllocatedRoom` | common/SC_AllocPool.cpp:283-418 | An allocated block was no block before, and until it is given up it has room for the request and holds what its owner last wrote. |
| `PoolRuns.RunsConverge` | common/SC_AllocPool.cpp:164-185 | Two runs that end with the same areas and the same blocks end with the same chunks, however they got there. |
| `PoolRuns.FreeingRun` | common/SC_AllocPool.cpp:147-187 | A run of frees removes exactly the blocks that were freed. |
| `PoolRuns.FixedAreas` | common/SC_AllocPool.cpp:358-365 | A fixed pool that has its area keeps exactly that area in every state of every run. |
| `PoolRuns.FreeingAllFixed` | common/SC_AllocPool.cpp:164-185 | In a fixed pool, freeing all blocks, in any order, leaves exactly the areas there were, each one free chunk. |
| `PoolRuns.FreeingAllGrowable` | common/SC_AllocPool.cpp:179-185 | In a growable pool, freeing all blocks, in any order, leaves exactly the areas that held none, each one free chunk; if every area held one, all pointers are back with the callback. |
| `AreaSplit.SplitNewAreaExact` | common/SC_AllocPool.cpp:390-404 | The tags written when a new area is split describe some tiling of it if and only if the remainder is at least `kMinAllocSize`. |
| `Witnesses.LostWord` | common/SC_AllocPool.cpp:508-519 | Two allocations, a free, a write and a resize: the word written reads as 192 afterwards, whatever it was. |
| `Witnesses.FalseHit` | common/SC_AllocPool.cpp:346-352 | In a pool of 1 MB, the search hands out that 1 MB for a request of nearly 4 GB. |
| `Witnesses.SplitTooFine` | common/SC_AllocPool.cpp:390-404 | A pool that grows by 1024 bytes and is asked for 928 or 992 is left with tags that no tiling has. |
| `ScopeBuffer.RegionsSeparate` | common/scope_buffer.hpp:103-118 | The three regions are disjoint slices of the allocation if and only if three times their size fits an unsigned 32-bit number. |
| `ScopeBuffer.StepInv` | common/scope_buffer.hpp:137-159 | Every step of either thread keeps the invariant: the three indexes are a permutation, the staged and the read region hold whole packets, and the staged one is marked changed exactly when the reader lacks it. |
| `ScopeBuffer.ReaderUndisturbed` | common/scope_buffer.hpp:135-147 | In every interleaving, no step but the reader's own exchange changes the region the reader reads, and it holds a whole packet. |
| `ScopeBuffer.PullTakesLatest` | common/scope_buffer.hpp:149-156 | In every interleaving, even with a push between the reader's two loads, the exchange takes the most recently pushed packet, one never taken before. |
| `ScopeBuffer.ClearMeansLatest` | common/scope_buffer.hpp:150-153 | A clear flag on a stage index that is still current means the reader has the latest packet. |
| `ScopeBuffer.TakesExactly` | common/scope_buffer.hpp:149-156 | In every interleaving, a pull goes on to its exchange exactly when the reader lacked the latest packet at its first load, or the writer has marked the region looked at since: a push between the two loads never makes it turn back. |
| `ScopeBuffer.PullCatchesUp` | common/scope_buffer.hpp:149-159 | In every interleaving, a pull ends with a whole packet at least as recent as the latest one pushed when it began. |
| `ScopeBuffer.VersionsIncrease` | common/scope_buffer.hpp:137-159 | The versions the reader takes over a run strictly increase, and each was pushed. |
| `ScopeBuffer.Buffer.Push` | common/scope_buffer.hpp:137-141 | The packet pushed is the frame count given and the contents of the write region; the reader's side is untouched. |
| `ScopeBuffer.Buffer.Pull` | common/scope_buffer.hpp:149-159 | Run without a push in between, it leaves the reader with the latest packet and returns its frame count, 0 before the first push. |
| `ScopeBuffer.Buffer.PullFrames` | common/scope_buffer.hpp:199-206 | True exactly when the latest packet has frames, whether or not it was taken before. |
| `MsgFifo.AndMask` | common/MsgFifo.h:76 | Masking with N - 1 is the remainder modulo N, for every power of two N. |
| `MsgFifo.StepInv` | common/MsgFifo.h:43-76 | Every step of the writer, the performer and the freer keeps the invariant, for every power of two N, with and without a freer. |
| `MsgFifo.SlotsInRange` | common/MsgFifo.h:47-73 | No thread ever indexes outside the ring. |
| `MsgFifo.HistoriesGrow` | common/MsgFifo.h:47-73 | No message is ever unwritten, unperformed or unfreed. |
| `MsgFifo.FirstInFirstOut` | common/MsgFifo.h:47-73 | In every interleaving, the messages performed are the first ones written, each once and in order; those freed are the first ones performed; at most N - 1 are outstanding. |
| `MsgFifo.SlotKept` | common/MsgFifo.h:47-56 | In every interleaving, the slot of a message is not overwritten before the message is given up. |
| `MsgFifo.FullExactly` | common/MsgFifo.h:47-50 | A write is turned away exactly when N - 1 messages are outstanding. |
| `MsgFifo.EmptyExactly` | common/MsgFifo.h:44-45 | The performer finds no data exactly when all messages written are performed, the freer exactly when all the performer has passed are freed. |
| `MsgFifo.Fifo.Write` | common/MsgFifo.h:47-56 | The message is appended, or the call fails exactly when N - 1 messages are not yet freed. |
| `MsgFifo.Fifo.Perform` | common/MsgFifo.h:58-65 | Every message written is performed. |
| `MsgFifo.Fifo.Free` | common/MsgFifo.h:66-73 | Every message performed is freed. |
| `WindowsArgs.QuoteWindowsArg` | common/sc_popen.cpp:167-203 | An argument is returned unchanged exactly when it is not empty and holds no space, tab or quote, or stands in quotes with no quote inside; otherwise it is put in quotes, and the loop with held-back backslashes builds the form that the round trip is about. |
| `WindowsArgs.ReaderRules` | common/sc_popen.cpp:164 | The rules the round trip reads by: pairs of backslashes before a quote are halved, an odd one escapes it, backslashes elsewhere are themselves, and outside quotes a space or a tab ends the argument. |
| `WindowsArgs.JoinArgs` | common/sc_popen.cpp:206-211 | The fold puts one space between any two quoted arguments. |
| `WindowsArgs.CommandLineGrows` | common/sc_popen.cpp:208-211 | One argument more adds a space, unless it is the first, and its quoted form. |
| `WindowsArgs.ParseQuoted` | common/sc_popen.cpp:167-203 | Read by the CommandLineToArgvW rules, a quoted argument is the original and ends where it should, whatever argument follows, unless it was passed through. |
| `WindowsArgs.PassedThroughChanges` | common/sc_popen.cpp:173-178 | An argument that was passed through is never read back as itself. |
| `WindowsArgs.RoundTrip` | common/sc_popen.cpp:164-214 | For every list of arguments, the command line is read back as that list if and only if no argument has the pass-through form. |
| `Osc.WireInt` | common/scsynthsend.h:44-48 | An integer is four bytes, the most significant first, negative ones as two's complement. |
| `Osc.WireTime` | common/scsynthsend.h:49-55 | A 64-bit value is eight bytes, the most significant first. |
| `Osc.WireStr` | common/scsynthsend.h:71-79 | A string is its bytes and one to four NULs up to a multiple of four ('Atomic Data Types' of the OSC 1.0 specification). |
| `Osc.WireBlob` | common/scsynthsend.h:100-109 | A blob is its size, its bytes and up to three zeros. |
| `Osc.WireTag` | common/SC_OscUtils.hpp:48-101 | The letter of each type tag. |
| `Osc.WireMsg` | common/scsynthsend.h:110-145 | A message is its padded address, a padded comma with one tag for each argument, and the data of the arguments in order. |
| `Osc.StrangeTag` | common/SC_OscUtils.hpp:103-105 | At any other tag the printer says so and stops. |
| `Osc.IntRoundTrip` | include/plugin_interface/sc_msg_iter.h:42-46 | A 32-bit integer in network byte order is read back, and four bytes are consumed. |
| `Osc.StrRoundTrip` | include/plugin_interface/sc_msg_iter.h:29-36 | A padded string is read back up to its NUL, and skipping it in groups of four ends exactly behind its padding. |
| `Osc.ItemsShown` | common/SC_OscUtils.hpp:48-109 | The items the printer shows are the arguments that were sent, for all fourteen tags it knows, if and only if none is a character and the last one has data. |
| `Osc.CharsMisread` | include/plugin_interface/sc_msg_iter.h:233-243 | With a character anywhere, whatever its value and whatever follows, the arguments are not shown as they were sent. |
| `Osc.MsgRoundTrip` | common/SC_OscUtils.hpp:26-113 | Without characters, the address and all arguments up to the last one with data are read back. |
| `Osc.MsgShown` | common/SC_OscUtils.hpp:26-113 | A message is shown as it was sent if and only if it has no character and does not end in an argument without data. |
| `Osc.PlainShown` | include/plugin_interface/sc_msg_iter.h:179-191 | A message without type tags, with an address or a number in front, is shown as its integers if and only if the first one does not start with a comma. |
| `Osc.DumpItems` | common/SC_OscUtils.hpp:48-109 | The loop over tags and data computes the recursive reading the round trips are about, and fails where it would leave the data. |
| `Osc.BundleRoundTrip` | common/SC_OscUtils.hpp:144-174 | A flat bundle is walked into exactly its time tag and its messages in order, exactly those to `/status` and `status` passed over, ending precisely at the end of the data. |
| `Osc.BundleShowsAll` | common/SC_OscUtils.hpp:26-36 | All messages of a bundle are shown as they were sent if and only if none has the address `/status` or `status`, none has a character and none ends in an argument without data. |
| `Osc.DumpBundle` | common/SC_OscUtils.hpp:144-174 | The loop that advances `data` computes the recursive reading of a bundle, nested bundles included, and fails where it would leave the data. |
| `OscTree.ElemByHead` | common/SC_OscUtils.hpp:26-46 | Whether a message is passed over depends on its address alone, and messages headed by a number never are. |
| `OscTree.TreeRoundTrip` | common/SC_OscUtils.hpp:144-182 | Bundles in bundles, to any depth, with typed and untyped messages headed by an address or a number, are walked into exactly that tree, ending where the data ends. |
| `OscTree.TreeShowsAll` | common/SC_OscUtils.hpp:144-182 | All of such a tree is shown as it was sent if and only if each message in it, at any depth, is one the printer gets right. |
| `OscWriter.ScPacket.AddInt` | common/scsynthsend.h:44-48 | Four bytes are appended, or overflow exactly when no word is free. |
| `OscWriter.ScPacket.AddFloat` | common/scsynthsend.h:56-62 | The pattern of a float is appended as one word, or overflow exactly when no word is free. |
| `OscWriter.ScPacket.AddLong` | common/scsynthsend.h:49-55 | A 64-bit value is appended high word first; overflow exactly when two words are not free, with the high word written if one is. |
| `OscWriter.ScPacket.AddDouble` | common/scsynthsend.h:63-70 | Two words are appended when two are free, overflow is reported when none is, and with exactly one free the second lands past the buffer. |
| `OscWriter.ScPacket.AddStr` | common/scsynthsend.h:71-79 | The string is appended with one to four NULs up to a multiple of four; overflow exactly when that does not fit. |
| `OscWriter.ScPacket.AddBlob` | common/scsynthsend.h:100-109 | What the three writes leave: the size, the blob, the old contents of the buffer behind it, and a cleared word in front of an empty blob; overflow exactly when it does not fit. |
| `OscWriter.BlobExact` | common/scsynthsend.h:100-109 | That is the padded blob if and only if the buffer held zeros where the padding goes and, for an empty blob, the word in front was 0. |
| `OscWriter.ScPacket.MakeTags` | common/scsynthsend.h:111-121 | Words for the tags and a NUL are reserved, the last one cleared, and earlier bytes stay. |
| `OscWriter.ScPacket.AddTag` | common/scsynthsend.h:110 | One reserved byte is set. |
| `OscWriter.ScPacket.BeginMsg` | common/scsynthsend.h:135-140 | In a bundle a size word is reserved, outside nothing happens. |
| `OscWriter.ScPacket.EndMsg` | common/scsynthsend.h:141-145 | In a bundle the size word gets the number of bytes written since, and nothing else changes. |
| `OscWriter.ScPacket.WriteMsg` | common/scsynthsend.h:110-145 | Begin, address, tags filled in beside the arguments, and end together append the message, in a bundle with its size, and complete exactly when it fits. |
| `OscWriter.ScPacket.OpenBundle` | common/scsynthsend.h:125-129 | The bundle header and time tag are appended. |
| `OscWriter.ScPacket.WriteBundle` | common/scsynthsend.h:125-145 | A bundle fits exactly when its length does, and then the walk reads it back from the buffer, and completely exactly under the condition of the printer. |
| `Strtod.ScaleFactor` | common/strtod.c:235-240 | The product over the set bits is ten to the exponent for every exponent up to 511, and the table index stays in bounds. |
| `Strtod.TakeDigits` | common/strtod.c:167-187 | One digit loop collects the next `n` digits, stepping over the point. |
| `Strtod.NineDigits` | common/strtod.c:166-187 | Up to nine digits make a number below 10^9, so neither accumulator overflows. |
| `Strtod.TakeMantissa` | common/strtod.c:166-188 | The two accumulators together are the number the first 18 digits spell. |
| `Strtod.CountDigits` | common/strtod.c:130-155 | Where the mantissa ends, how many digits it has and how many stand before the point. |
| `Strtod.TakeExponent` | common/strtod.c:195-211 | The signed exponent field and the position behind it, 0 if there is none. |
| `Strtod.Scale` | common/strtod.c:225-245 | The value times ten to the exponent, clamped at 511 either way. |
| `Strtod.Strtod` | common/strtod.c:72-256 | The statements refine the reading of the string as sign, digits, point and exponent, with the end position. |
| `Strtod.Truncates` | common/strtod.c:142-189 | Within the exponent range, the value is below the number written by less than one unit of the last place kept. |
| `Strtod.ExactIff` | common/strtod.c:142-245 | The value is the number written if and only if no dropped digit counts and the exponent is in range or all kept digits are 0. |
| `Strtod.ShortNumbersExact` | common/strtod.c:72-256 | At most 18 digits and an exponent in range give the exact decimal value. |
| `Spelling.ScanSpelled` | common/strtod.c:107-211 | Every number written out in characters (blanks, sign, digits, perhaps a point, perhaps an exponent), whatever stands behind it, is taken apart into just these parts, and ends where it ends. |
| `Spelling.ReadNumeral` | common/strtod.c:72-256 | Such a number is read up to its end: exactly its value if it has at most 18 digits, else less by under one unit of the eighteenth. |
| `Spelling.ReadNothing` | common/strtod.c:162-165 | Blanks, a sign and a point alone are read as 0, and nothing is consumed. |
| `Spelling.ReadScientific` | common/strtod.c:72-256 | For every whole number of at most 18 digits and every exponent up to 511 either way, the usual decimal text of both is read as their product. |
| `DocTree.FixMerges` | SCDoc/SCDoc.cpp:119-155 | In every normalised tree, no text is followed by a text or a line break, and texts of other nodes have no trailing blanks. |
| `DocTree.FixEnds` | SCDoc/SCDoc.cpp:124-128 | A normalised node ends in a line break if and only if its children ended in two that no text takes in. |
| `DocTree.FixCloses` | SCDoc/SCDoc.cpp:119-155 | No node of the normalised tree ends in a line break if and only if no node ended in two such. |
| `DocTree.IdempotentIff` | SCDoc/SCDoc.cpp:119-155 | Normalising again changes nothing if and only if no node ended in two such line breaks. |
| `DocTree.FixKeepsProse` | SCDoc/SCDoc.cpp:119-155 | Read from left to right, line breaks as spaces, with a mark where any other node begins and ends, a tree is kept but for stripped blanks and dropped final line breaks. |
| `DocTree.FixKeepsLetters` | SCDoc/SCDoc.cpp:119-155 | What is lost is blanks: every other character and every node other than text is still there, in order and in its place. |
| `DocTree.HeadingText` | SCDoc/SCDoc.cpp:120-122 | The text of a heading loses exactly the blanks at its end, but never its first character; the text of a text node is not stripped. |
| `DocTree.LinesJoin` | SCDoc/SCDoc.cpp:129-143 | A text, a line break and a text become one text with a space in between. |
| `DocFixup.StripTrailing` | SCDoc/SCDoc.cpp:53-60 | The result is a prefix, what is cut off is blanks, none is left at the end, and a first character stays. |
| `DocFixup.DocNode.AddChild` | SCDoc/SCDoc.cpp:72-79 | The child tree becomes the last child. |
| `DocFixup.DocNode.Append` | SCDoc/SCDoc.cpp:42-51 | strmerge, or a space for a line break, behind the node's text. |
| `DocFixup.DocNode.MergeChildren` | SCDoc/SCDoc.cpp:129-147 | The loop over the child array, merging into the last kept child and emptying slots or recursing, leaves the nodes of the normalised list. |
| `DocFixup.DocNode.Compact` | SCDoc/SCDoc.cpp:148-154 | The children that remain move to the front in order. |
| `DocFixup.DocNode.FixupTree` | SCDoc/SCDoc.cpp:119-155 | Changed in place, the tree of nodes stands for the normal form of the tree it stood for. |
| `LinkList.Link.constructor` | common/SC_List.h:37 | A new link is an empty list. |
| `LinkList.Link.InsertAfter` | common/SC_List.h:52-57 | The list gains this link at that position. |
| `LinkList.Link.InsertBefore` | common/SC_List.h:59-64 | The list gains this link at that position. |
| `LinkList.Link.RemoveLeaveDangling` | common/SC_List.h:42-45 | The list loses this link, whose own pointers stay. |
| `LinkList.Link.Remove` | common/SC_List.h:47-50 | The list loses this link, which becomes an empty list. |
| `LinkList.Link.PushHead` | common/SC_List.h:102-109 | The element is put in front. |
| `LinkList.Link.PopHead` | common/SC_List.h:111-122 | The first element is returned and removed, null from an empty list. |
| `LinkList.Link.PushTail` | common/SC_List.h:124-131 | The element is put at the end. |
| `LinkList.Link.PopTail` | common/SC_List.h:133-143 | The last element is returned and removed, null from an empty list. |
| `LinkList.Link.Cat` | common/SC_List.h:145-167 | The list becomes the concatenation and the argument becomes empty, in all four combinations of empty and non-empty lists. |
| `LinkList.Link.ContainsBuf` | common/SC_List.h:169-178 | Terminates on every ring and decides membership. |
| `LinkList.Link.SanityCheck` | common/SC_List.h:189-201 | Passes exactly when every back link behind the first element is right and the first one's leads to a link that leads on to it; the list is well formed exactly when it passes and that link is the head. |

## Left out

- `DISABLE_MEMORY_POOLS` and `DoGarbageFill`: the first replaces the allocator by `malloc`, the second fills payloads for debugging.
- The area callbacks: the address a callback returns is a parameter, `raw`, 0 for NULL, and must not overlap an area; the memory behind it is foreign. What the callbacks gave and got is a pair of logs.
- Pool.AllocPool.Alloc: asks that the size does not wrap to 0, that no free chunk which is too small passes the truncated test, that a new area is smaller than 2^31 bytes and, if it is split, leaves room for a remainder; what happens outside is the subject of `RequestToSizeExact`, `BestFit.Search`, `Witnesses.FalseHit` and `SplitNewAreaExact`.
- Pool.AllocPool.Realloc: asks the same where it has to allocate, and elsewhere only that the size does not wrap to 0.
- Pool.AllocPool.LargestFreeChunk: does not say what a walk that starts before the bins reads.
- Queries.LargestFreeChunk: the same.
- Memory is modelled word by word at the addresses the code computes: a write of a 64-bit field is one write at its address, payload bytes are cells, and bytes inside one word are not related to each other.
- The bin headers lie in the pool object; the model gives them addresses below all areas.
- The two protocols are proved under sequential consistency; the relaxed, acquire and release orders, `MakeEmpty` while other threads run, and releasing and reallocating a scope buffer are not part of this model.
- MsgFifo.Fifo.Write: one thread at a time; all interleavings are covered by the step system and its lemmas.
- `scpacket::adds_slpre`, and bundles written inside bundles.
- OscWriter.ScPacket.AddBlob: asks that an empty blob is not the first thing in the packet, where the code would write in front of the buffer.
- OscWriter.ScPacket.WriteMsg: leaves out MIDI arguments, for which the packet has no operation, and blobs that `addb` does not pad; a double that only half fits counts as not fitting.
- Osc.DumpItems: a blob with a negative size, for which the code moves backwards, fails like other reads outside the data; separators, indentation and the formatting of numbers are not part of this model.
- Osc.DumpBundle: elements with a negative size, for which the code moves backwards, fail like other reads outside the data.
- The rules of CommandLineToArgvW for the program name; the arguments after it are covered. Its undocumented handling of three quotes in a row is not part of this model, the quoting never produces one outside passed-through arguments.
- Strtod.Strtod: over exact reals; rounding, negative zero, `errno`, and an exponent field that overflows an `int` are not part of this model.
- DocFixup.DocNode.FixupTree: freed nodes are only unreachable, not returned to the heap; a text node without text followed by a line break, which the code cannot handle, gets the space as its text.
- `MakeListEmpty` and `DebugDump` of `Link`: foreign destructors and output.
- LinkList.Link.SanityCheck: asks for forward links that lead back to the head or to a back link that is wrong, without which the loop of the code does not end.
- The generated scanner and parser of SCDoc, `rtf2txt`, `html2txt`, the string parser and string buffer, wavetable conversion, condition variables, sound files, file system code, process spawning and the user interface: library calls, tables, or members easier than those above.
