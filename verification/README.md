# Verified models of pg_rest

pg_rest is a PostgreSQL extension that serves HTTP from background workers. This project models its five
self-contained algorithms in Dafny and proves what they are meant to do. `dafny verify dfyconfig.toml`
checks everything.

* **The shared-memory slab allocator** (`Slab*.dfy`, `Words.dfy`). A page allocator with boundary tags, a
  doubly linked free list, first fit and coalescing in both directions, and on top of it slab pages with three
  bitmap layouts and one list per size class. `SlabState` defines the global invariant, `SlabPool.Pool` performs
  the code's updates in place and keeps it, and `SlabTheorems` says what it means: exact partition of the pages,
  exact lists, boundary tags, disjoint and well-placed live chunks that clients may write to, exact failure, full
  recovery. `SlabMisuse` says what comes of freeing what is not live. Words are 64 bits
  wide, pages 4096 bytes, `min_shift` is 3. Pointers to page descriptors and list headers are indices into one
  table, and the two tag bits of `prev` are a field of their own.
* **The URL router** (`RouteTree`, `RouteFind`, `RouteClash`, `RouteAdd`, `Router`). A compressed radix tree with
  `:param` and `*catchall`. Lookup is proved equal to matching against the flat list of registered patterns; the
  registered patterns are pairwise disjoint; and which patterns `add` accepts is stated exactly, on the pattern texts
  alone.
* **HTTP/1 parsing** (`Bytes`, `Chunked`, `ChunkedDecoder`, `ChunkedGrammar`, `HttpRequest`, `HttpResume`, `HttpFeed`,
  `HttpGrammar`, `HttpExtend`, `HttpParser`). The resumable in-place chunked decoder (section 4.1 of RFC 7230) against a
  byte-at-a-time machine, and that against a grammar of chunked bodies: split invariance, round trip, no overflow, all
  three verdicts exact. The request parser (section 3 of RFC 7230): the cursor loops, the 8-byte unrolled scan included,
  compute `ParseRequest`; it accepts exactly the serialised requests, and its other two answers are exact too; the resume
  shortcut is sound for every run of calls on a growing buffer.
* **The JSON library** (`Rings`, `Buckets`, `OrderedMap`, `HashTable`; `Utf8`, `JsonString`, `JsonGrammar`, `JsonNumber`,
  `Json`, `JsonRoundTrip`, `JsonSyntax`, `JsonLayout`, `JsonStream`, `JsonReadable`, `JsonLoaded`, `JsonLexer`,
  `JsonParser`, `JsonPrinter`). The hash table with its two circular lists refines an insertion-ordered map, in-place
  rehash included. The UTF-8 codec, the printer, the stream, the lexer and the parser. Strings and documents are read
  exactly as grammars of RFC 8259 say, and printed in exactly one layout for each style; printing followed by loading gives
  the tree back exactly when the depth limit and the NUL rule allow it, and whatever loads is a tree for which they do.
* **The accept mutex** (`Listeners`, `Acceptor`, `AcceptWorker`). Interleaved steps of any number of workers over one
  try-lock. A run is safe in all its states if and only if no worker skips the lock while it still counts as holding it
  and none is thrown out of its loop while another one owns it. A worker that sits out rounds tries the lock again as
  soon as it has sat out as many as it was told to.

Where a property fails of the code, the code is modelled as it is and the exact condition is proved:

* Mutual exclusion of the acceptors fails when a worker that still holds the accept mutex from its last round skips
  the lock because `pgrest_acceptor_disabled` is positive (`Acceptor.TwoAccept` is such a run), and when an error throws
  a worker out of its loop while another one owns the lock, because the error handler releases it unasked
  (`Acceptor.TwoAcceptAfterThrow`). It holds exactly when neither happens (`Acceptor.SafeExactly`); the first cannot
  happen while an eighth of the connections stays free (`Acceptor.SpareSafe`).
* A valid chunked encoding may write a size with more than sixteen digits (leading zeros); the decoder refuses it.
  The round trip holds exactly when every size line has at most sixteen (`Chunked.RoundTripExactly`).
* `pgrest_slab_free` does not turn away every pointer that is not live. On the pages of the pool two kinds pass its
  checks. The head of a free run is harmless: the run moves to the front of the free list. A chunk that holds a part
  of a SMALL page's bitmap is not: afterwards no state whatever satisfies the invariant, and the next allocation from
  the page is handed a part of the bitmap (`SlabMisuse.ReservedHandedOut`). For every pointer on a page the invariant is
  kept exactly when it is not of the second kind (`SlabPool.Pool.Free`). A pointer between the last page and the end of
  the pool also passes, and makes the code read a descriptor behind the page table (`SlabPool.Pool.BehindLast`).
* A pattern that is not well made is refused, except behind a registered catch-all: `/src/*f/x` is accepted after
  `/src/*f` (`Router.BehindCatchAll`). Acceptance is exact for every pattern, and a pattern that is accepted without being
  well made matches no path (`Router.RouteTable.Add`).

## Model

| member | source | states |
|---|---|---|
| `SlabState.Geometry` | src/pg_rest_slab.c:326-344 | for every size class, chunks tile the page, and the chunks reserved in a SMALL page are enough for its bitmap |
| `SlabPool.Pool.Init` | src/pg_rest_slab.c:74-135 | the pages start at the first page boundary behind the table for as many descriptors as the segment could hold with their pages; as many pages fit before the end as possible, not one more; the state satisfies the invariant, nothing is live and all pages are one free run |
| `SlabInit.InitLargest` | src/pg_rest_slab.c:114-134 | the number of pages is the largest: with one more, the last page ends behind the segment, or pages and descriptors together exceed it |
| `SlabInit.FirstCore` | src/pg_rest_slab.c:94-134 | the tables that init writes satisfy the whole invariant |
| `SlabPool.Pool.AllocPages` | src/pg_rest_slab.c:640-688 | returns NULL exactly when no k consecutive pages are free; otherwise cuts the first k pages of the first run on the list that is long enough, and keeps the invariant |
| `SlabPool.Pool.Take` | src/pg_rest_slab.c:647-681 | cutting a run keeps partition, links and boundary tags; slot lists are untouched |
| `SlabPages.TakeCore` | src/pg_rest_slab.c:647-681 | the descriptor writes of a split or a whole take, as one state change, keep the invariant |
| `SlabPool.Passed` | src/pg_rest_slab.c:645-647 | every free run nearer to the list header than the cursor has been looked at |
| `SlabLists.UnlinkLinks` | src/pg_rest_slab.c:704-708 | unlinking a page keeps every list, this one without the page |
| `SlabLists.PushLinks` | src/pg_rest_slab.c:479-483 | putting a page first keeps every list |
| `SlabLists.ReplaceLinks` | src/pg_rest_slab.c:650-658 | the rest of a split run takes over its place on the free list |
| `SlabPool.Pool.FreePages` | src/pg_rest_slab.c:691-769 | the released run and the free runs on both sides become one free run with correct tags; nothing else changes |
| `SlabPool.Pool.Detach` | src/pg_rest_slab.c:698-708 | the released pages are cleared and off every list, for busy and free runs and slab pages |
| `SlabPool.Pool.JoinRight` | src/pg_rest_slab.c:710-730 | absorbs the free run that starts at the end of the released one, if there is one |
| `SlabPool.Pool.JoinLeft` | src/pg_rest_slab.c:732-757 | absorbs the free run that ends before the released one, if there is one |
| `SlabPool.Pool.LeftNeighbour` | src/pg_rest_slab.c:732-742 | finds that run through the boundary tag of its last page, or shows that there is none |
| `SlabCoalesce.LeftGuard` | src/pg_rest_slab.c:732-742 | the code's tests on the page before tell whether a free run ends there |
| `SlabCoalesce.RightGuard` | src/pg_rest_slab.c:712-717 | the code's tests on the page behind tell whether a free run starts there |
| `SlabCoalesce.AbsorbCore` | src/pg_rest_slab.c:717-728 | absorbing a neighbour keeps the invariant |
| `SlabCoalesce.DetachFree` | src/pg_rest_slab.c:698-708 | detaching a run that is free already keeps the invariant, also before the first allocation |
| `SlabCoalesce.FreeAgain` | src/pg_rest_slab.c:710-768 | a free run has no free neighbours, so returning it changes no page's use |
| `SlabPages.DepositCore` | src/pg_rest_slab.c:759-768 | putting the joint run on the free list and tagging its tail restores the invariant |
| `SlabPool.Pool.Alloc` | src/pg_rest_slab.c:153-392 | exactly one chunk becomes live; it was not live, holds the request and is of the smallest class that does (or whole pages with less than a page to spare); on failure nothing changes and there was no room |
| `SlabPool.Pool.AllocChunk` | src/pg_rest_slab.c:189-392 | a chunk of the class, from the first page of its slot or a new page; fails only if no page of the class has a free chunk and no page is free |
| `SlabPool.Pool.ChunkFromSlot` | src/pg_rest_slab.c:192-322 | the first page of a non-empty slot always supplies the chunk |
| `SlabPool.Pool.ChunkFromPage` | src/pg_rest_slab.c:324-385 | the first chunk of a fresh page becomes live; fails exactly without change when no page is free |
| `SlabPool.Pool.FindChunk` | src/pg_rest_slab.c:192-322 | the lowest free chunk of a page on a slot list; the search never runs out |
| `SlabPool.Pool.TakeChunk` | src/pg_rest_slab.c:207-237 | marks the chunk and takes a page that has become full off its slot list |
| `SlabPool.Pool.NewSlabPage` | src/pg_rest_slab.c:326-382 | lays out bitmap, tag and links of a fresh slab page |
| `SlabSearch.ClassOf` | src/pg_rest_slab.c:178-187 | the smallest size class that holds the request |
| `SlabSearch.FindSmall` | src/pg_rest_slab.c:200-212 | the lowest clear bit of the words of a SMALL bitmap |
| `SlabSearch.FirstFree` | src/pg_rest_slab.c:192-322 | the lowest free chunk in any of the three layouts |
| `SlabSearch.PageFull` | src/pg_rest_slab.c:217-226 | the code's test agrees with the bitmap being full |
| `SlabSearch.PageEmpty` | src/pg_rest_slab.c:488-504 | the code's test agrees with no live chunk being left |
| `SlabChunks.MarkOk` | src/pg_rest_slab.c:207-322 | setting a chunk's bit keeps the bitmap exact, in each layout |
| `SlabChunks.UnmarkOk` | src/pg_rest_slab.c:466-575 | clearing a chunk's bit keeps the bitmap exact, in each layout |
| `SlabChunks.MapFullOk` | src/pg_rest_slab.c:217-322 | a full bitmap word means exactly that all chunks are taken |
| `SlabChunks.MapEmptyOk` | src/pg_rest_slab.c:488-583 | an empty bitmap means exactly that only the bitmap's own chunks are taken |
| `SlabChunks.MarkedOk` | src/pg_rest_slab.c:466-561 | the bit test tells whether a chunk is taken |
| `SlabSlots.SlabFill` | src/pg_rest_slab.c:226-233 | a page that becomes full leaves its slot list |
| `SlabSlots.SlabUnfill` | src/pg_rest_slab.c:474-484 | a page that was full returns to the head of its slot list |
| `SlabSlots.SlabNew` | src/pg_rest_slab.c:346-382 | a new slab page becomes the only page of its empty slot list |
| `SlabLive.FirstLayout` | src/pg_rest_slab.c:331-376 | the first bitmap of a page records exactly the reserved chunks and the one handed out |
| `SlabLive.TakeGains` | src/pg_rest_slab.c:161-176 | cutting pages brings exactly one run to life |
| `SlabLive.NewGains` | src/pg_rest_slab.c:324-382 | a new slab page brings exactly its first chunk to life |
| `SlabLive.ReturnLoses` | src/pg_rest_slab.c:691-769 | returning a run ends the life of what was on it and of nothing else |
| `SlabLive.CellAddress` | src/pg_rest_slab.c:450-470 | page and chunk number are recovered from a chunk's address |
| `SlabPool.Pool.Free` | src/pg_rest_slab.c:435-637 | for every pointer outside the pool or on one of its pages: a live chunk stops being live and no other does; a pointer that is turned away changes nothing; one that is not live changes no live chunk; the invariant is kept iff the pointer is not to a chunk of a SMALL page's own bitmap |
| `SlabPool.Pool.FreeAt` | src/pg_rest_slab.c:450-612 | dispatch on the page tag with the code's checks, for every offset of every page |
| `SlabPool.Pool.FreeChunk` | src/pg_rest_slab.c:457-586 | one chunk of a slab page is released, and the page with it when that was the last live one; releasing a chunk of the bitmap's own leaves no state that satisfies the invariant |
| `SlabPool.Pool.Unchunk` | src/pg_rest_slab.c:472-486 | clears the bit and returns a page that was full to its slot, whichever chunk it is |
| `SlabPool.Pool.FreeRun` | src/pg_rest_slab.c:588-611 | a busy run is released; a free run stays as it is and only changes its place on the list |
| `SlabPool.Pool.Spoil` | src/pg_rest_slab.c:472-486 | the writes for a chunk of the bitmap's own: descriptor as before, bit gone |
| `SlabPool.Pool.BehindLast` | src/pg_rest_slab.c:445-453 | a pointer between the last page and the end of the pool passes the range test, is not live, and leads behind the page table |
| `SlabPool.TargetAt` | src/pg_rest_slab.c:450-607 | what passes the checks is a live chunk, a chunk of a bitmap or the head of a free run, and only one of them |
| `SlabMisuse.ReservedCleared` | src/pg_rest_slab.c:466-504 | with the bit of a bitmap chunk cleared, the bitmap describes no set of taken chunks, but the page does not look empty |
| `SlabMisuse.NoShape` | src/pg_rest_slab.c:466-504 | with such a bitmap no state satisfies the invariant |
| `SlabMisuse.ReservedHandedOut` | src/pg_rest_slab.c:200-237 | the next search on the page finds exactly that chunk, which overlaps the bitmap |
| `SlabPool.FirstInSlot` | src/pg_rest_slab.c:189-192 | `page->next != page` holds exactly when the slot has a page with a free chunk, and then the first page is one |
| `SlabPool.FullGuard` | src/pg_rest_slab.c:474-563 | both tests for "was full" agree with the bitmap |
| `SlabPool.TagGuard` | src/pg_rest_slab.c:450-607 | the tag bits and the slab word tell a page's use and size class |
| `SlabPool.OnlyTarget` | src/pg_rest_slab.c:450-470 | at most one live chunk has a given address, and it is the one the code computes |
| `SlabPool.ReleaseAll` | src/pg_rest_slab.c:435-637 | freeing all live chunks, in any order, leaves one free run over all pages and empty slots |
| `SlabTheorems.LiveDisjoint` | src/pg_rest_slab.c:153-392 | two different live chunks never overlap |
| `SlabTheorems.LivePlace` | src/pg_rest_slab.c:153-392 | every live chunk lies inside the pool |
| `SlabTheorems.CellPlace` | src/pg_rest_slab.c:192-382 | a chunk lies in its page, aligned to its size, and clear of the bitmap of a SMALL page |
| `SlabTheorems.ClientWrite` | src/pg_rest_slab.c:192-382 | any write inside a live chunk keeps the invariant |
| `SlabTheorems.SpanInRun` | src/pg_rest_slab.c:640-688 | consecutive free pages always lie in one free run |
| `SlabTheorems.ListExact` | src/pg_rest_slab.c:189-322 | following a list meets each of its pages once and nothing else: the heads of all free runs, or all non-full slab pages of a class |
| `SlabTheorems.BoundaryTags` | src/pg_rest_slab.c:650-768 | the last page of a free run has slab 0 and points to the head, once anything has been allocated |
| `SlabTheorems.FullRecovery` | src/pg_rest_slab.c:74-135 | with nothing live the pool is as after init |
| `RouteFind.FindComplete` | src/pg_rest_rtree.c:423-522 | a registered pattern that matches is what greedy lookup returns |
| `RouteFind.FindSound` | src/pg_rest_rtree.c:423-522 | what lookup returns is a registered pattern that matches with these bindings |
| `RouteFind.FindExact` | src/pg_rest_rtree.c:423-522 | lookup yields h with bindings ps exactly when the pattern registered with h matches under the flat meaning |
| `RouteFind.PatternsDisjoint` | src/pg_rest_rtree.c:423-522 | no path matches two registered patterns |
| `RouteFind.OrderIndependent` | src/pg_rest_rtree.c:122-154 | trees with the same routes answer every lookup alike |
| `RouteFind.Locate` | src/pg_rest_rtree.c:423-522 | the loop over node and path cursor computes the greedy descent |
| `RouteAdd.ChildPriority` | src/pg_rest_rtree.c:122-154 | the child and its index byte move together in front of all children of lower priority, and no further |
| `RouteAdd.MoveIndex` | src/pg_rest_rtree.c:143-150 | the index byte is moved as its child is |
| `RouteAdd.AddsMoved` | src/pg_rest_rtree.c:122-154 | reordering children changes no route |
| `RouteAdd.CountParams` | src/pg_rest_string.c:44-62 | the number of wildcards, capped at 255 |
| `RouteAdd.ChildInsert` | src/pg_rest_rtree.c:156-284 | succeeds exactly on a well-made rest with no children in the way, and then adds exactly this route |
| `RouteAdd.ScanName` | src/pg_rest_rtree.c:173-187 | the end of a wildcard's segment; fails on a second wildcard |
| `RouteAdd.InsertParam` | src/pg_rest_rtree.c:203-231 | a parameter child and what follows it, exactly for well-made rests |
| `RouteAdd.InsertCatchAll` | src/pg_rest_rtree.c:231-277 | a catch-all pair, exactly for a last, named star behind a slash |
| `RouteClash.GoodFirst` | src/pg_rest_rtree.c:167-256 | a pattern is well made iff its first wildcard is and the rest behind its segment is |
| `RouteClash.NoClash` | src/pg_rest_rtree.c:189-194 | no two patterns of an accepted tree clash |
| `RouteClash.OtherWild` | src/pg_rest_rtree.c:341-363 | being sent away by an existing wildcard means clashing with a registered pattern |
| `RouteClash.WildNextToChildren` | src/pg_rest_rtree.c:189-194 | being sent away by existing children means clashing with a registered pattern |
| `RouteClash.StarAtEnd` | src/pg_rest_rtree.c:240-256 | a star behind a registered segment root clashes, and behind anything but a slash is malformed |
| `RouteClash.RefusedUp` | src/pg_rest_rtree.c:287-421 | a reason to refuse below a node is one for the whole tree |
| `RouteClash.AcceptHere` | src/pg_rest_rtree.c:400-403 | a well-made rest below a node makes the whole pattern acceptable |
| `RouteClash.AcceptUp` | src/pg_rest_rtree.c:338-387 | acceptable below a child is acceptable for the tree |
| `RouteClash.AcceptDown` | src/pg_rest_rtree.c:338-387 | acceptable for the tree is acceptable below the child the path leads to |
| `RouteClash.AcceptBeside` | src/pg_rest_rtree.c:389-403 | where no child goes on like the path, only a well-made rest is acceptable |
| `RouteClash.PassedMatchesNothing` | src/pg_rest_rtree.c:423-522 | a pattern that goes on behind a catch-all matches no path |
| `Router.SplitOk` | src/pg_rest_rtree.c:319-336 | splitting a node keeps the tree well formed |
| `Router.SplitSame` | src/pg_rest_rtree.c:319-336 | splitting a node changes no route |
| `Router.AddAt` | src/pg_rest_rtree.c:303-420 | adds exactly this route, which is new and acceptable, or has a reason to refuse it |
| `Router.AddNew` | src/pg_rest_rtree.c:389-405 | a new child or wildcard below a node |
| `Router.AddBelow` | src/pg_rest_rtree.c:338-404 | the descent into the wildcard, slash or indexed child |
| `Router.AddWild` | src/pg_rest_rtree.c:341-363 | below a wildcard child the path must repeat that wildcard |
| `Router.AddIndexed` | src/pg_rest_rtree.c:375-387 | descent into the child of the next byte, which moves forward by priority |
| `Router.AddSlash` | src/pg_rest_rtree.c:365-373 | descent through a parameter's only child |
| `Router.AddRoute` | src/pg_rest_rtree.c:286-421 | on the whole tree: success iff the path is not refused, and then exactly one route more |
| `Router.BehindCatchAll` | src/pg_rest_rtree.c:341-405 | the pattern behind a registered catch-all is accepted |
| `Router.RouteTable.constructor` | src/pg_rest_rtree.c:535-539 | an empty table |
| `Router.RouteTable.Add` | src/pg_rest_rtree.c:286-421 | success adds exactly this route; a pattern is accepted iff it neither equals nor clashes with a registered one and is well made or goes on behind a registered catch-all with a well-made rest; accepted without being well made it matches nothing |
| `Router.RouteTable.Find` | src/pg_rest_rtree.c:423-522 | over any run of adds: a handler and bindings are returned exactly when a registered pattern with that handler matches |
| `Chunked.SplitInvariant` | picohttpparser/picohttpparser.c:491-604 | a body cut anywhere decodes to the same output, state, verdict and leftover as in one piece |
| `Chunked.RunReachable` | picohttpparser/picohttpparser.c:491-604 | the decoder's bounds hold after any input |
| `Chunked.DigitReachable` | picohttpparser/picohttpparser.c:510-515 | the size never wraps around |
| `Chunked.RoundTrip` | picohttpparser/picohttpparser.c:491-604 | a valid encoding followed by any bytes decodes to the concatenated data and leaves those bytes |
| `Chunked.RoundTripExactly` | picohttpparser/picohttpparser.c:510-513 | it does so exactly when no size line has more than sixteen digits |
| `Chunked.ReadChunk` | picohttpparser/picohttpparser.c:498-570 | one chunk is consumed and its data put out |
| `Chunked.ReadTrailers` | picohttpparser/picohttpparser.c:571-591 | trailer lines are skipped up to the empty line |
| `Chunked.TooManyDigits` | picohttpparser/picohttpparser.c:510-513 | a seventeenth digit is malformed input |
| `ChunkedGrammar.HexTable` | picohttpparser/picohttpparser.c:478-489 | the digits of both cases have the values of a literal table, and every other byte is no digit |
| `ChunkedGrammar.SizeIsNumber` | picohttpparser/picohttpparser.c:498-516 | the size that is accumulated is the number that the digits write in base 16 |
| `ChunkedGrammar.WireReads` | picohttpparser/picohttpparser.c:491-604 | a body of the grammar, followed by any bytes, decodes to its data and leaves those bytes |
| `ChunkedGrammar.WireNeeded` | picohttpparser/picohttpparser.c:491-604 | input on which the decoder completes starts with a body of the grammar |
| `ChunkedGrammar.CompleteExactly` | picohttpparser/picohttpparser.c:491-604 | the decoder completes with these data and this rest exactly when the input is such a body followed by the rest |
| `ChunkedGrammar.VerdictExactly` | picohttpparser/picohttpparser.c:491-604 | input is malformed exactly when no continuation completes it, so the decoder waits only for what can still be completed |
| `ChunkedGrammar.PrintedRoundTrip` | picohttpparser/picohttpparser.c:491-604 | chunks whose size lines are the printed base-16 lengths decode to their data |
| `ChunkedDecoder.Machine.Decode` | picohttpparser/picohttpparser.c:491-604 | output, leftover, return value and state are those of the byte-at-a-time machine, in place |
| `ChunkedDecoder.Machine.DecodeLoop` | picohttpparser/picohttpparser.c:496-595 | the write position never passes the read position, and the loop ends |
| `ChunkedDecoder.MoveDown` | picohttpparser/picohttpparser.c:542-552 | an overlapping move to a lower position |
| `HttpResume.ParseStable` | picohttpparser/picohttpparser.c:331-363 | a request that parses does so in every buffer with the same bytes up to its end |
| `HttpResume.ParseEnd` | picohttpparser/picohttpparser.c:331-363 | a parsed request ends with two line ends |
| `HttpResume.CompleteFinds` | picohttpparser/picohttpparser.c:200-226 | the resume check finds such an end from anywhere before it |
| `HttpResume.CompleteBad` | picohttpparser/picohttpparser.c:209-214 | the resume check only fails on a CR that no LF follows |
| `HttpResume.ResumeSound` | picohttpparser/picohttpparser.c:365-391 | the resumed call succeeds with the same answer exactly when a one-shot call does, fails only if that fails, and waits whenever that waits |
| `HttpFeed.ParseDecided` | picohttpparser/picohttpparser.c:331-363 | an answer other than "more input" holds for every longer buffer |
| `HttpFeed.FeedSound` | picohttpparser/picohttpparser.c:365-391 | the same for every run of calls on a growing buffer |
| `HttpGrammar.RoundTrip` | picohttpparser/picohttpparser.c:264-363 | a serialised request followed by any bytes gives back method, path, version and headers and its length |
| `HttpGrammar.ParseExact` | picohttpparser/picohttpparser.c:264-363 | the parser succeeds exactly on buffers that start with a serialised request |
| `HttpGrammar.RequestWritten` | picohttpparser/picohttpparser.c:264-363 | whatever parses was written so |
| `HttpGrammar.TokenTable` | picohttpparser/picohttpparser.c:95-102 | the token characters are those of section 3.2.6 of RFC 7230, one by one |
| `HttpExtend.PartExtends` | picohttpparser/picohttpparser.c:331-363 | a buffer that needs more input has a continuation that parses |
| `HttpExtend.VerdictExactly` | picohttpparser/picohttpparser.c:331-363 | a buffer is malformed exactly when no continuation parses, and in need of more exactly when it does not parse and some continuation does |
| `HttpParser.AdvanceToken` | picohttpparser/picohttpparser.c:70-93 | the space that ends a token, or why there is none |
| `HttpParser.EightBytes` | picohttpparser/picohttpparser.c:151-167 | eight unrolled steps agree with byte-by-byte steps |
| `HttpParser.FindControl` | picohttpparser/picohttpparser.c:150-182 | the unrolled scan and its tail find the byte that ends a header value |
| `HttpParser.TokenToEol` | picohttpparser/picohttpparser.c:133-198 | the value and the position behind its line end |
| `HttpParser.IsComplete` | picohttpparser/picohttpparser.c:200-226 | two line ends in a row from three bytes before the old end |
| `HttpParser.ParseInt` | picohttpparser/picohttpparser.c:229-249 | the decimal value of the digits |
| `HttpParser.ParseVersion` | picohttpparser/picohttpparser.c:252-262 | the literal and the minor version |
| `HttpParser.ParseHeaders` | picohttpparser/picohttpparser.c:264-329 | the slots hold exactly the header lines read, at most as many as there are slots, on success and on failure; slots above are not written |
| `HttpParser.HeadersReadAll` | picohttpparser/picohttpparser.c:264-329 | on success the lines read are all headers |
| `HttpParser.ParseRequestLine` | picohttpparser/picohttpparser.c:344-360 | two tokens, version and line end |
| `HttpParser.Parse` | picohttpparser/picohttpparser.c:365-391 | the answer of the resume specification, headers in place |
| `Rings.InsertRing` | jansson/src/hashtable.c:46-52 | inserting before the k-th node makes the new node the k-th of the circular list |
| `Rings.RemoveRing` | jansson/src/hashtable.c:54-58 | removing the k-th node leaves the others in order |
| `Buckets.AddSegmented` | jansson/src/hashtable.c:65-78 | with a new first node in its bucket, every bucket is a contiguous segment |
| `Buckets.DropSegmented` | jansson/src/hashtable.c:120-128 | with a node gone, every bucket is a contiguous segment |
| `HashTable.Table.constructor` | jansson/src/hashtable.c:191-211 | an empty table with eight buckets |
| `HashTable.Table.InsertToBucket` | jansson/src/hashtable.c:65-78 | the list stays a ring, buckets stay segments, nodes outside keep their links |
| `HashTable.Table.FindPair` | jansson/src/hashtable.c:80-103 | the pair with this key, or none has it |
| `HashTable.Table.Relink` | jansson/src/hashtable.c:177-185 | moves every node of the old list once, reading only links not yet overwritten, and ends |
| `HashTable.Table.Rehash` | jansson/src/hashtable.c:153-188 | twice the buckets, same entries in the same order |
| `HashTable.Table.InsertPair` | jansson/src/hashtable.c:240-266 | a new key goes to the end |
| `HashTable.Table.Set` | jansson/src/hashtable.c:219-268 | a known key keeps its position with the new value, a new one comes last, and every other entry keeps position and value |
| `HashTable.Table.Get` | jansson/src/hashtable.c:270-284 | the value in the ordered map |
| `HashTable.Table.RemovePair` | jansson/src/hashtable.c:120-137 | one pair leaves its bucket and both lists |
| `HashTable.Table.Del` | jansson/src/hashtable.c:105-137 | the entries with other keys in their old order; -1 exactly when the key was not there |
| `HashTable.Table.FreeAll` | jansson/src/hashtable.c:139-151 | frees every pair once and reads no freed one |
| `HashTable.Table.Clear` | jansson/src/hashtable.c:292-307 | an empty table with the same number of buckets |
| `HashTable.Table.Iter` | jansson/src/hashtable.c:309-312 | the first entry |
| `HashTable.Table.IterAt` | jansson/src/hashtable.c:314-328 | the entry of a key |
| `HashTable.Table.IterNext` | jansson/src/hashtable.c:330-336 | the next entry in order of insertion, or the end |
| `HashTable.Table.IterSet` | jansson/src/hashtable.c:350-356 | a new value in the same place |
| `HashTable.Table.Walk` | jansson/src/hashtable.c:309-348 | an iteration meets every entry once, in order of insertion |
| `OrderedMap.LookPut` | jansson/src/hashtable.c:219-284 | what was set is got, everything else as before |
| `OrderedMap.PutUpdates` | jansson/src/hashtable.c:235-266 | position by position: where the pair stands after a put, and that no other entry moves |
| `OrderedMap.LookCut` | jansson/src/hashtable.c:270-290 | what was deleted is gone, everything else as before |
| `OrderedMap.CutOthers` | jansson/src/hashtable.c:105-137 | removing a key leaves exactly the other entries, in their order |
| `Utf8.DecodeEncoded` | jansson/src/utf.c:11-45 | decoding an encoded scalar value gives it back |
| `Utf8.EncodeDecoded` | jansson/src/utf.c:47-163 | whatever decodes is the one encoding of its scalar value |
| `Utf8.EncodeTable` | jansson/src/utf.c:11-45 | the encoder writes exactly the bytes of the table in section 3 of RFC 3629 |
| `Utf8.CheckExactly` | jansson/src/utf.c:165-187 | the string check accepts exactly the concatenated encodings of scalar values |
| `Utf8.CheckFullLoop` | jansson/src/utf.c:83-137 | the loop over continuation bytes, range, surrogate and overlong checks |
| `Utf8.CheckString` | jansson/src/utf.c:165-187 | the loop over the whole string |
| `JsonString.BodyValid` | jansson/src/dump.c:70-161 | printing a string succeeds exactly on UTF-8 |
| `JsonString.ReadPair` | jansson/src/load.c:405-436 | a surrogate pair is read back as one character |
| `JsonString.ReadEscape` | jansson/src/load.c:391-462 | every escape is read back as the encoding of its character |
| `JsonString.BodyReads` | jansson/src/dump.c:70-161 | what was printed for any part of a string is read back as that part |
| `JsonString.StringRoundTrip` | jansson/src/load.c:319-471 | for every UTF-8 string and all flags, lexing the printed form gives the string back |
| `JsonGrammar.DigitTable` | jansson/src/load.c:295-317 | the escape digits of both cases have the values of a literal table, and no other byte is one |
| `JsonGrammar.HexNumberIs` | jansson/src/load.c:295-317 | four digits are read as the number they write |
| `JsonGrammar.LiteralReads` | jansson/src/load.c:319-471 | every string literal of section 7 of RFC 8259 is read as what it denotes |
| `JsonGrammar.LexExactly` | jansson/src/load.c:319-471 | a string is read as y exactly when a literal that denotes y stands there; lone surrogates, bare controls and other escapes are refused |
| `JsonGrammar.CharTextIs` | jansson/src/dump.c:112-157 | which text is written for which character under which flags |
| `JsonGrammar.DumpExactly` | jansson/src/dump.c:70-161 | a printed string is the texts of its characters between quotes |
| `JsonGrammar.AsciiOnly` | jansson/src/dump.c:101-103 | with JSON_ENSURE_ASCII every byte is below 0x80 |
| `JsonGrammar.SlashOnly` | jansson/src/dump.c:96-99 | with JSON_ESCAPE_SLASH every slash stands behind a backslash |
| `JsonGrammar.OthersCopied` | jansson/src/dump.c:90-110 | without the flags, characters other than quote, backslash and controls are copied |
| `JsonNumber.NumberReads` | jansson/src/load.c:485-537 | a printed integer is read back |
| `JsonRoundTrip.DumpSucceeds` | jansson/src/dump.c:168-400 | printing a well-formed tree succeeds |
| `JsonRoundTrip.ValueReads` | jansson/src/load.c:804-878 | parsing the printed form of a value, in any surroundings, gives the value if it fits and fails otherwise |
| `JsonRoundTrip.ItemsRead` | jansson/src/load.c:764-802 | the same for the elements of an array from any one on |
| `JsonRoundTrip.MembersRead` | jansson/src/load.c:685-762 | the same for the members of an object, key order kept |
| `JsonRoundTrip.DocumentRoundTrip` | jansson/src/load.c:880-913 | parsing a printed array or object gives it back if it fits and fails otherwise, in every style |
| `JsonRoundTrip.FitsExactly` | jansson/src/load.c:804-823 | fitting means at most 2048 levels and no NUL unless allowed |
| `JsonSyntax.ValueParsed` | jansson/src/load.c:804-878 | every value of the grammar within the limits is parsed as what it means, up to its end |
| `JsonSyntax.MembersParsed` | jansson/src/load.c:685-762 | the same for members: of equal keys the last value counts, or they are refused when asked |
| `JsonSyntax.ValueFound` | jansson/src/load.c:804-878 | whatever is parsed is white space and a value of the grammar that means the result |
| `JsonSyntax.NumberFound` | jansson/src/load.c:485-537 | an integer token is an optional minus and decimal digits without leading zeros, in the 64-bit range |
| `JsonSyntax.ParseExactly` | jansson/src/load.c:880-913 | a document is accepted as j up to n exactly when the grammar of RFC 8259, without fractions and exponents, gives it that meaning within the depth limit and the options |
| `JsonLayout.LayoutExactly` | jansson/src/dump.c:168-400 | every printed value is a text of the grammar that means it, with a line feed and indent times level spaces, or one space, or nothing, at each place |
| `JsonReadable.DumpClean` | jansson/src/dump.c:168-400 | printed documents are UTF-8 without NUL |
| `JsonReadable.LoadDumped` | jansson/src/load.c:880-913 | from bytes to bytes: loading a printed tree gives it back exactly when it is at most 2048 deep and has no forbidden NUL |
| `JsonLoaded.TextLoaded` | jansson/src/load.c:319-471 | the string read from UTF-8 text is UTF-8, surrogate pairs included |
| `JsonLoaded.LexLoaded` | jansson/src/load.c:582-648 | tokens of UTF-8 text end at character boundaries, their strings are UTF-8 and their integers in range |
| `JsonLoaded.ValueLoaded` | jansson/src/load.c:804-878 | a parsed value is well formed and fits |
| `JsonLoaded.LoadedWellFormed` | jansson/src/load.c:880-913 | every document that loads gives a well-formed tree within the limits |
| `JsonLoaded.LoadDumpLoad` | jansson/src/load.c:880-913 | load, print in any style, load again: the same tree |
| `JsonStream.AllReadable` | jansson/src/load.c:154-215 | all of a UTF-8 text without NUL is delivered |
| `JsonStream.Stream.Get` | jansson/src/load.c:154-215 | the next byte of the readable input, or its end, or the decoding error; line and column follow |
| `JsonStream.Stream.Refill` | jansson/src/load.c:161-189 | one whole character is buffered and checked |
| `JsonStream.Stream.Unget` | jansson/src/load.c:217-233 | position, line and column are those before the last byte |
| `JsonLexer.UnescapeText` | jansson/src/load.c:388-464 | the second pass over the saved text |
| `JsonLexer.UnicodeAt` | jansson/src/load.c:394-440 | a Unicode escape or surrogate pair |
| `JsonLexer.DecodeUnicodeEscape` | jansson/src/load.c:295-317 | the value of four hexadecimal digits |
| `JsonLexer.Lexer.ScanToQuote` | jansson/src/load.c:329-372 | the first pass finds the closing quote or refuses |
| `JsonLexer.Lexer.ScanString` | jansson/src/load.c:319-471 | the string token of the specification |
| `JsonLexer.Lexer.ScanNumber` | jansson/src/load.c:485-537 | the integer token of the specification, 64-bit range checked |
| `JsonLexer.Lexer.Scan` | jansson/src/load.c:582-648 | the next token of the specification and its end |
| `JsonParser.Parser.ParseValueText` | jansson/src/load.c:804-878 | the value of the specification, depth counted in the lexer |
| `JsonParser.Parser.ParseArrayText` | jansson/src/load.c:764-802 | the array of the specification |
| `JsonParser.Parser.ParseObjectText` | jansson/src/load.c:685-762 | the object of the specification, collected in a hash table |
| `JsonParser.Parser.ParseMember` | jansson/src/load.c:695-746 | one member, duplicates refused when asked |
| `JsonParser.Parser.ParseText` | jansson/src/load.c:880-913 | the whole document of the specification |
| `JsonPrinter.DumpIndent` | jansson/src/dump.c:44-68 | newline and spaces in pieces of at most 32, or one space, or nothing |
| `JsonPrinter.ScanRun` | jansson/src/dump.c:86-105 | the run of characters that need no escape |
| `JsonPrinter.WriteString` | jansson/src/dump.c:70-161 | the text of the specification, and what is written before a failure |
| `JsonPrinter.WriteArray` | jansson/src/dump.c:215-263 | everything written, also before a failure, and whether it succeeds |
| `JsonPrinter.WriteObject` | jansson/src/dump.c:265-394 | everything written, also before a failure, and whether it succeeds |
| `JsonPrinter.DoDump` | jansson/src/dump.c:168-400 | everything written, also before a failure, and whether it succeeds |
| `JsonPrinter.WroteDump` | jansson/src/dump.c:168-400 | success is success of the specification, and then exactly its text is written |
| `Listeners.Resume` | src/pg_rest_listener.c:387-410 | arms in list order up to the first failure |
| `Listeners.Pause` | src/pg_rest_listener.c:412-440 | disarms in list order up to the first failure, sparing SO_REUSEPORT listeners unless all are meant |
| `Listeners.ResumedArmsAll` | src/pg_rest_listener.c:387-410 | success leaves every listener armed |
| `Listeners.PausedDisarms` | src/pg_rest_listener.c:412-440 | success leaves no shared listener armed |
| `Listeners.ResumedExactly` | src/pg_rest_listener.c:387-410 | which listeners are armed afterwards, on success and on failure, and that it succeeds exactly when each is armed or can be |
| `Listeners.PausedExactly` | src/pg_rest_listener.c:412-440 | which listeners are armed afterwards, on success and on failure, and that it succeeds exactly when none is stuck |
| `Acceptor.LocalGood` | src/pg_rest_acceptor.c:286-333 | every step of a worker keeps its part of the invariant, unless it skips the lock while holding or gives back another worker's |
| `Acceptor.LocalOwner` | src/pg_rest_acceptor.c:286-333 | a worker takes only a free lock and gives back only its own |
| `Acceptor.StepGood` | src/pg_rest_worker.c:303-341 | every step of the system keeps the invariant |
| `Acceptor.OneAccepts` | src/pg_rest_worker.c:303-341 | in a safe state at most one worker accepts |
| `Acceptor.SafeExactly` | src/pg_rest_worker.c:303-341 | a run is safe throughout iff no worker skips the lock while it counts as holding it and none is thrown out while another one owns it |
| `Acceptor.SkipUnsafe` | src/pg_rest_worker.c:312-316 | skipping while holding breaks the promise at once |
| `Acceptor.StealUnsafe` | src/pg_rest_worker.c:477-480 | being thrown out while another worker owns the lock breaks the promise at once |
| `Acceptor.SpareSafe` | src/pg_rest_acceptor.c:222-223 | while accepts leave an eighth of the connections free, every run without such a throw is safe |
| `Acceptor.TwoAccept` | src/pg_rest_worker.c:312-316 | a run after which two workers accept on the same listener |
| `Acceptor.TwoAcceptAfterThrow` | src/pg_rest_worker.c:477-480 | a run after which two workers accept because a third was thrown out |
| `AcceptWorker.Process.TryLockMutex` | src/pg_rest_acceptor.c:286-323 | makes the protocol's moves for taking or missing the lock |
| `AcceptWorker.Process.OutOfFiles` | src/pg_rest_acceptor.c:194-208 | makes the protocol's move for running out of descriptors |
| `AcceptWorker.Process.CatchError` | src/pg_rest_worker.c:477-480 | makes the protocol's move for the error handler |
| `AcceptWorker.Process.Serve` | src/pg_rest_acceptor.c:126-284 | the event loop as the protocol's moves |
| `AcceptWorker.Process.DispatchRound` | src/pg_rest_worker.c:303-341 | one round of a worker as the protocol's moves |
| `AcceptWorker.TriesAgain` | src/pg_rest_worker.c:312-320 | a worker that is to sit out d rounds leaves the lock alone for exactly d rounds in which it accepts nothing, and then takes it if it is free |
| `AcceptWorker.BacksOff` | src/pg_rest_acceptor.c:194-208 | out of descriptors, no listener stays armed, the lock is given back if it was held, and one round is sat out |

## Left out

- SlabPool.Pool.Free: requires that the pointer is not between the last page and the end of the pool; the memory that the code reads there as a descriptor is not part of the model.
- HttpParser.ParseHeaders: does not say what a failed call leaves in the one slot it was filling.
- JsonLexer.Lexer.ScanNumber: a number with a fraction or an exponent gives a token without a value, because reals are not modelled.
- JsonLexer.Lexer.Scan: the same for such a number, which is not read to its end.
- JsonParser.Parser.ParseValueText: refuses reals, which the code accepts.
- JsonParser.Parser.ParseText: refuses documents with reals, which the code accepts.
- JsonSyntax.ParseExactly: the grammar has no fractions and exponents, because reals are not modelled.
- The route tree is a value that `Add` rebuilds along one path; sharing and in-place update of tree nodes, `max_params` and the tree that a failed add leaves behind are not modelled (a failed add aborts configuration).
- A pattern that starts with `*` on an empty tree makes the code read the byte before the pattern; the model refuses the pattern.
- Contents of allocated memory, `calloc`, 32-bit words and other page sizes, and the lock around the slab pool.
- The SSE4.2 branch of the character search, `phr_parse_response` and `phr_parse_headers`; the minor version is unbounded.
- JSON real numbers and their conversions, and `JSON_DECODE_INT_AS_REAL` with them.
- JSON reference counts, allocation failure, the circularity flag (trees have no cycles), `JSON_SORT_KEYS`, error messages, file input and failing output callbacks.
- The mixing inside the hash function: the hash is any function of the key, and taking its low bits is the remainder.
- The HTTP request, keepalive and body handlers, configuration, shared-memory registration, sockets, IPC, DNS and the libevent wrappers; libevent's outcomes are inputs of the accept-mutex model.
- Memory pools, dynamic arrays, queues and string helpers, which would only add easy members.
- Worker crashes: a worker leaves the protocol at the end of a round or through its error handler.
