# Address translation and cache hierarchy: a verified model

A Dafny model of a memory-hierarchy simulator: 48-bit virtual addresses, a four-level
page walk, two translation lookaside buffers (TLBs), a two-level data cache and the
command files that drive them.

* **Fully-associative LRU TLB** (`LruTlb`, `LruTlbRuns`, `Competitive`), over the doubly
  linked list of line numbers (`NodeList`) and the page walk (`PageTables`). The number of
  lines is a parameter; the program uses 128. Runs interleave requests with stores to memory.
* **Two-level direct-mapped TLB** (`TlbHierarchy`, `TlbHierarchyRuns`, `TlbLookupMask`,
  `TlbAnswers`). The second level is searched with a 4-bit index but filled with a 6-bit one. The lookup
  width is a parameter (16 or 64 lines); `Tlbs.TlbSearch` is the code, with 16. `TlbAnswers`
  gives every answer for every page number and either width. The results on correctness hold
  for page numbers *indexed* alike by both widths, after any requests whatsoever: that is
  every page number for the 6-bit lookup, and those below 16 modulo 64 for the code.
* **Exclusive data caches** (`CacheSets`, `LruAges`, `FlatMemory`, `ExclusiveCache`,
  `TransparentMemory`, `LruHistory`, `DataCaches`): the policy stated at cache.h:40-63 and
  cache_mng.h:97-168, composed from the primitives as written.
* **The cache code as written** (`CacheAsWritten`, `CacheWritesAsWritten`,
  `CacheBytesAsWritten`, `CacheContents`): reads, writes and byte writes, with the exact
  conditions under which their results are right, and what the first level holds, told from
  the addresses accessed. A condition that must not depend on the contents of memory
  is stated for all memories at once: off a line boundary a wrong access can still give the
  right value on some.
* **Command files** (`Commands`, `CommandText`, `CommandRoundTrip`): the listing, printer and
  reader, with the texts the reader takes.

`Recency` is the theory of last use the TLB and the caches share. Specifications are
functions on values (`Ask`, `Next`, `Bring`, `Step`, `ReadFrom`, ...); the methods, with the
loops, arrays and nodes of the source, are proved to compute them, and the theorems are
about those functions over whole runs. Fields of packed structures are bounded integers;
shifts, masks and or are arithmetic by powers of two.

## Where code and documentation disagree

The model follows the code in each of these, unless it says otherwise.

* tlb_hrchy_mng.c:57: second-level lookups use a 4-bit index. `TlbLookupMask.CodeRightIff`
  says for which pages translation is still right; `LookalikeBreaksCode` gives the input
  that breaks each of the others.
* tlb_hrchy_mng.c:104-108: flush loops to the number of index *bits*.
  `TlbHierarchy.Tlbs.FlushL1` and `FlushL2` say when that empties the table. Runs start
  from the all-invalid state the flush is meant to produce.
* cache_mng.c:214, 637, 743, 745: lines are copied at the address itself, not at the start
  of its line. A run of reads is right iff every first-level miss is at the start of a line
  (`CacheAsWritten.ReadsRightIff`, `CacheContents.ReadsRightByAddress`); with writes, iff all of them are as well
  (`CacheWritesAsWritten.RunsRightIff`, and `StepRightIff` for one operation by hit or miss).
* cache_mng.c:303-304, 340-342, 713-714, 730-731, 778-779, 795-796: the new entry's age is
  written before the update, and a read fills an invalid way (335-342) with the update for hits where the writes use the
  one for fills. `CacheAsWritten.FillKeepsOrderIff` and `LastWayIsVictim`; so reads keep the
  first three lines of a set for good (`CacheContents.ReadHitsIff`).
* cache_mng.c:257-261: the scan stops at an invalid way. `CacheSets.ScanFindsIff`; harmless
  in the first level (`LruHistory.FirstLevelIsLru`), which `DataCaches` relies on. In the
  second level lines leave holes, so `DataCaches` searches it in full.
* cache_mng.c:818-833: writing a byte refuses 0, ors, and reads and writes at the byte's own
  address. `CacheBytesAsWritten.ByteWriteRightIff` and `ByteGoesAstray`; `DataCaches`
  replaces the byte.
* cache_mng.c:335-340: a read miss drops the line it evicts; `ReadsRightIff` is about the code
  that does so, `DataCaches` moves it to the second level as documented.
* cache_mng.c:705-706, 775, 782: an evicted line is moved down under a wrong name.
  `CacheWritesAsWritten.MissNamesVictimIff`, `MissMisnames` and `HitNamesNewLine`, against
  `ExclusiveCache.Renaming`.
* cache_mng.c:100, 109, 286, 300 (a number of lines where a number of ways is meant),
  290-293 (no word returned), 300-320, 703-717, 770-784 (data or valid bit of the line moved
  down) and 664-696 (a written line left in both levels, memory written at the address
  itself): only the documented behaviour is modelled. Runs of the code as written are followed
  up to the first write that has to evict, before which nothing is found in the second level
  (`CacheWritesAsWritten.SecondLevelStaysEmpty`) and none of these lines is reached. From
  there on the valid bit of the entry moved down is indeterminate.
* lru.h:3-6: filling the hole that a line leaves in a full second-level set wraps the oldest
  line's age to 0 (`LruAges.HoleForgetsOldest`); which line leaves the pair is the oldest by
  age all the same (`DataCaches.OldestIsLost`).
* cache_mng.c:227: flushing clears the line of the first entry only, again and again; the
  others are invalid all the same (`CacheSets.Cache.Flush`).
* commands.c:239-242: write data is limited to 0xff for words too, and program_read ignores
  the refusal, so such a line is lost on reading (`CommandRoundTrip.PrintThenRead`).
* commands.c:32-36: a blank after the line that ends the file is skipped for ever
  (`CommandRoundTrip.TrailingBlanksLoop`).
* commands.c:214-215: a size may be any multiple of a word's, not only 1 or a word's; reading
  makes it a word (`CommandText.DataAcceptedIff`, `CommandRoundTrip.RoundTripIff`).
* commands.c:145: the initial capacity counted is the size of an address, eight, not ten.

## Model

| member | source | states |
|---|---|---|
| `Address.InitVirtAddr` | addr_mng.c:9-37 | succeeds iff every field fits its width, and then packs to the weighted sum of the fields |
| `Address.InitVirtAddr64` | addr_mng.c:39-57 | unpacking keeps exactly the low 48 bits: packing the result gives the argument modulo 2^48 |
| `Address.UnpackPacked` | addr_mng.c:39-101 | packing then unpacking loses the reserved bits and nothing else; identity iff they are 0 |
| `Address.FieldsOfPageNumber` | addr_mng.c:90-101 | the page number determines the four table indices |
| `Address.PageNumberOfFields` | addr_mng.c:90-101 | every 36-bit number is the page number of the fields cut out of it |
| `Address.InitPhyAddr` | addr_mng.c:59-77 | succeeds iff the offset fits and the page is aligned; the result denotes page plus offset |
| `PageTables.PageWalk` | page_walk.c:13-43 | the chain of four lookups, failing at the first unaligned word |
| `PageTables.WalkIffMapped` | page_walk.c:13-43 | a walk succeeds iff four aligned table words lead to a page, and gives that page |
| `PageTables.WalkByPageNumber` | page_walk.c:13-35 | a translation depends on the page number alone and carries the offset over |
| `PageTables.WalkFrame` | page_walk.c:13-43 | memory that agrees on the (at most four) table words of a walk gives the same walk |
| `NodeList.List.IsEmpty` | list.c:13-27 | nonzero iff empty on a well-formed list; 3 iff the ends disagree |
| `NodeList.List.Clear` | list.c:41-75 | empties the list, resets every node, and ends |
| `NodeList.List.PushBack` | list.c:78-116 | a fresh node is appended; links stay well formed; values gain the value at the end |
| `NodeList.List.PushFront` | list.c:119-156 | the same at the front |
| `NodeList.List.PopFront` | list.c:159-200 | drops the first node and value, if any |
| `NodeList.List.PopBack` | list.c:203-239 | drops the last node and value, if any |
| `NodeList.List.MoveBack` | list.c:242-281 | the value moves to the end; the front node is replaced by a fresh one, any other is relinked |
| `NodeList.List.Traverse` | list.c:284-310 | front to back iteration visits the values in order and counts the nodes |
| `NodeList.List.TraverseReverse` | list.c:313-341 | back to front iteration visits them reversed |
| `LruTlb.TlbFlush` | tlb_mng.c:14-26 | every line becomes invalid and zero |
| `LruTlb.TlbEntryInit` | tlb_mng.c:29-45 | a valid entry whose tag gives back the address's table indices |
| `LruTlb.TlbInsert` | tlb_mng.c:49-62 | overwrites the line, or fails iff the index is out of range |
| `LruTlb.TlbHit` | tlb_mng.c:68-95 | hits iff a listed line holds the page number; then that line's entry moves to the back, else nothing changes |
| `LruTlb.TlbSearch` | tlb_mng.c:98-137 | answers and changes lines and list as Ask and Next say: hit, refill of the front line, or no change on a failed walk |
| `LruTlbRuns.History` | tlb_mng.c:98-137 | after any run the list is the untouched lines in initial order, then the lines of the min(n, d) last translated distinct pages in order of last use |
| `LruTlbRuns.CachedIffRecent` | tlb_mng.c:98-137 | a page is cached iff it was translated and fewer than n distinct others were since; never in two lines |
| `LruTlbRuns.HitIffRecent` | tlb_mng.c:68-95 | a request hits iff its page is among the n last translated distinct pages |
| `LruTlbRuns.AnswerIsWalk` | tlb_mng.c:98-137 | a coherent TLB answers hit or miss as the walk would and stays coherent; a failed walk changes nothing |
| `LruTlbRuns.StoreKeepsCoherence` | tlb_mng.c:98-137 | a store off the table words of the cached pages keeps every entry correct |
| `LruTlbRuns.Transparent` | tlb_mng.c:98-137 | over any run whose stores stay off those words, every address is answered as by the walk |
| `LruTlbRuns.HitIsLastRefill` | tlb_mng.c:68-137 | over any run, with any stores, a hit answers the page its last refill got from the tables as they then were |
| `LruTlbRuns.StackProperty` | tlb_mng.c:68-137 | on the same run a larger TLB holds whatever a smaller one does and hits whenever it hits |
| `Recency.OrderIsHistory` | tlb_mng.h:56-59 | what lies above a value in the LRU order is what was used since; its depth is its stack distance |
| `Recency.NewestIsHistory` | tlb_mng.h:56-59 | a value is among the n newest iff fewer than n distinct others were used since |
| `Recency.NewestStep` | tlb_mng.c:113-130 | one LRU step of an n-line store is one use in the full history, cut to n |
| `Competitive.LruMissesPerPhase` | tlb_mng.c:113-130 | LRU misses each value of a phase of at most n distinct values at most once |
| `Competitive.DemandMissesPerPhase` | tlb_mng.c:113-130 | any k-line demand store misses at least n - k + 1 times from one phase's opening to the next's |
| `Competitive.LruIsCompetitive` | tlb_mng.c:113-130 | (n-k+1) LRU misses are at most n rival misses plus (n-k)(k-1), for any k-line rival, offline included; for k = n at most n times as many |
| `Competitive.TlbMissesAreLru` | tlb_mng.c:113-130 | the TLB's misses on translated requests are those of an n-place LRU store |
| `Competitive.TlbIsCompetitive` | tlb_mng.c:113-130 | the bound for the TLB itself, over any run |
| `TlbHierarchy.TagAndIndex` | tlb_hrchy.h:35-51 | a page number is 16 tags and an index in the first level, 64 tags and an index in the second, so either pair determines it |
| `TlbHierarchy.IndicesNest` | tlb_hrchy_mng.c:341-367 | the low 32 bits of a page number determine all its indices |
| `TlbHierarchy.Tlbs.FlushL1` | tlb_hrchy_mng.c:97-114 | clears four lines only: empties the table iff the others were invalid |
| `TlbHierarchy.Tlbs.FlushL2` | tlb_hrchy_mng.c:97-114 | clears six lines only: empties the table iff the others were invalid |
| `TlbHierarchy.Tlbs.HitL1` | tlb_hrchy_mng.c:147-170 | finds a page iff its line holds it, with the line's physical page |
| `TlbHierarchy.Tlbs.HitL2` | tlb_hrchy_mng.c:54-67 | the same test, on the line given by the low 4 bits |
| `TlbHierarchy.Tlbs.PutL1` | tlb_hrchy_mng.c:265-312 | overwrites the page's line in the first level of its kind only |
| `TlbHierarchy.Tlbs.Invalidation` | tlb_hrchy_mng.c:328-382 | clears the other first level's valid bit iff its page and the replaced one agree in 32 bits |
| `TlbHierarchy.Tlbs.TlbSearch` | tlb_hrchy_mng.c:172-251 | first level, second level, walk: answers and updates all three tables as Ask and Next say |
| `TlbHierarchyRuns.InvalidationIsExact` | tlb_hrchy_mng.c:328-382 | in an inclusive state the test fires exactly when the other first level holds the full page being evicted |
| `TlbLookupMask.EvictionExactIff` | tlb_hrchy_mng.c:328-382 | with the code's lookup, evictions for a page number are exact after every run iff it is below 16 modulo 64; two or three requests break each other one |
| `TlbHierarchyRuns.InclusionStep` | tlb_hrchy_mng.c:172-251 | a request keeps every first-level entry in the second level with the same physical page |
| `TlbHierarchyRuns.Inclusion` | tlb_hrchy_mng.c:172-251 | so does every run |
| `TlbHierarchyRuns.RefinesDirectMapped` | tlb_hrchy_mng.c:172-251 | same hit or miss and same translation as one 64-line direct-mapped TLB, after any run over changing memory |
| `TlbHierarchyRuns.SecondLevelHistory` | tlb_hrchy_mng.c:213-235 | a second-level line holds a page iff it was the last served with that index |
| `TlbHierarchyRuns.HitIffLast` | tlb_hrchy_mng.c:172-251 | a request hits iff its page was the last served with its index |
| `TlbHierarchyRuns.FirstLevelHistory` | tlb_hrchy_mng.c:265-382 | a first level holds a page iff no later access of its kind took the line and no later access of either kind took its second-level line |
| `TlbAnswers.AnswerIsHistory` | tlb_hrchy_mng.c:172-251 | after any run the answer for any page number is the page last answered through the same first level while nothing displaced it, else the last walk in the line looked at if the tag agrees, else a walk |
| `TlbAnswers.LevelsAreHistory` | tlb_hrchy_mng.c:213-382 | for every page number and either lookup, a first level holds it with a page iff it was answered so and no later access took its line or evicted a page number with its low 32 bits; a second-level line holds its last walk |
| `TlbLookupMask.SecondLevelIsTrue` | tlb_hrchy_mng.c:213-235 | even with the code's lookup the second level holds only true translations |
| `TlbLookupMask.LookalikeBreaksCode` | tlb_hrchy_mng.c:54-67 | for every other page, page tables and one earlier request after which the code answers a wrong page as a hit |
| `TlbLookupMask.CodeRightIff` | tlb_hrchy_mng.c:54-67 | the code always translates a page correctly iff its number is below 16 modulo 64 |
| `TlbLookupMask.DesignAlwaysRight` | tlb_hrchy_mng.c:172-251 | with the 6-bit lookup every page is always translated correctly |
| `CacheSets.Cache.Flush` | cache_mng.c:220-229 | every entry becomes invalid with age and tag 0, so no tag is found; only the first entry's line is cleared |
| `CacheSets.AgesStayInField` | lru.h:3-13 | both age updates keep ages in their bit fields; the one for fills counts modulo the number of ways |
| `CacheSets.Cache.Insert` | cache_mng.c:404-426 | overwrites one way, or fails iff index or way is out of range |
| `CacheSets.Cache.LruAgeUpdate` | lru.h:9-13 | younger ways age by one, the way touched becomes 0 |
| `CacheSets.Cache.LruAgeIncrease` | lru.h:3-6 | every way ages by one in its bit field, the way filled becomes 0 |
| `CacheSets.Cache.LruWay` | cache_mng.c:124-158 | a way of greatest age, the last one on ties |
| `CacheSets.Cache.InvalidWay` | cache_mng.c:161-193 | the first invalid way, or none |
| `CacheSets.Cache.Hit` | cache_mng.c:250-272 | the scan as written, and the age update on a hit |
| `CacheSets.Cache.Lookup` | cache_mng.h:41-45 | the documented hit: the way that holds the tag, wherever it is |
| `CacheSets.ScanFindsIff` | cache_mng.c:255-272 | the scan finds what is there iff no way before it is invalid |
| `LruAges.AgeIsStackDistance` | lru.h:3-13 | from flush, under hits, fills and replacements, valid ways are a prefix and each age is the number of distinct ways touched since |
| `LruAges.JoinExact` | lru.h:3-6 | filling keeps that and no valid age wraps |
| `LruAges.HoleForgetsOldest` | lru.h:3-13 | once a line leaves a full set, filling its way turns the oldest line's age to 0, so the second level is not LRU |
| `LruAges.AgePolicy` | cache_mng.c:124-193 | valid ages are distinct and in range, the scan misses nothing, and every other way of a full set was touched since the one LRU picks |
| `FlatMemory.LineAfterStore` | cache_mng.h:150-161 | storing a word changes that word of its line and no other line |
| `FlatMemory.ByteInWord` | cache_mng.c:553-580 | selecting a byte of the word is reading that byte of memory |
| `FlatMemory.StoreByte` | cache_mng.h:170-187 | replacing a byte of the word is writing that byte of memory |
| `ExclusiveCache.AddressParts` | cache_mng.c:250-253 | an address is 4 bits of byte, 6 or 9 of index, and the tag |
| `ExclusiveCache.Renaming` | cache_mng.c:705-717 | a first-level line's second-level name is tag/8 and (tag mod 8)*64 + index |
| `ExclusiveCache.AccessConserves` | cache.h:53-63 | for any victim choice: no line in two places, the accessed line enters the first level, only the line it evicts enters the second, at most one line leaves |
| `ExclusiveCache.LostIsElsewhere` | cache.h:53-63 | the line that leaves is neither the accessed one nor one the first level holds |
| `TransparentMemory.StepIsFlat` | cache_mng.h:97-187 | one word or byte read or write returns and stores what flat little-endian memory would |
| `TransparentMemory.CachesAreTransparent` | cache_mng.h:97-187 | over any run and any victims, all values read and the final memory are flat memory's; every held line equals memory and is in one place |
| `LruHistory.SetsTrackUses` | cache_mng.c:124-158 | under LRU each first-level set follows the history of its lines on every run |
| `LruHistory.FirstLevelIsLru` | cache_mng.c:124-193 | a line is in the first level iff fewer than four other lines of its set were accessed since it was; its age is their number; the scan finds what is there |
| `DataCaches.MethodsFollowLru` | cache_mng.c:124-193 | the ways the data cache methods choose are least recently used ones on every run |
| `DataCaches.OldestIsLost` | cache.h:53-63 | no line leaves the pair while the second-level set its victim moves to has an invalid way; otherwise the oldest way's line leaves, the last on ties |
| `DataCaches.Enter` | cache_mng.h:101-110 | a line enters the first invalid way or replaces the oldest, which is handed back |
| `DataCaches.Caches.Fetch` | cache_mng.h:101-106 | the line moves out of the second level, or comes from memory |
| `DataCaches.Caches.Install` | cache_mng.h:106-110 | the line enters the first level, what it replaces enters the second under its own name |
| `DataCaches.Caches.CacheRead` | cache_mng.h:97-127 | returns the word and moves lines as Step says, with LRU victims |
| `DataCaches.Caches.CacheReadByte` | cache_mng.h:129-147 | the byte of that word |
| `DataCaches.Caches.CacheWrite` | cache_mng.h:149-168 | write-allocate and write-through of one word, as Step says |
| `DataCaches.Caches.CacheWriteByte` | cache_mng.h:170-187 | a read and a write of the word with the byte replaced |
| `CacheAsWritten.CacheRead` | cache_mng.c:466-547 | cache_read as written: the word and the first level it leaves, unless it hits in the second level |
| `CacheAsWritten.CacheReadByte` | cache_mng.c:553-580 | the byte of that word |
| `CacheAsWritten.ReadsRightIff` | cache_mng.c:466-547 | a run of reads of code and data from flushed caches is right on every memory iff each read that misses its first level starts a line; which do is the same for all memories |
| `CacheContents.ReadHitsIff` | cache_mng.c:328-344 | after any run of reads a read hits iff its line is one of the first three lines read of its set, or the last one read besides those |
| `CacheContents.ReadValue` | cache_mng.c:466-547 | every read of such a run, right or wrong, returns the word at its slot from the address its line was last fetched at |
| `CacheContents.ReadsRightByAddress` | cache_mng.c:466-547 | so a run of reads is right on every memory iff each read of a line its set does not hold, by that rule, starts a line |
| `CacheAsWritten.MissRightIff` | cache_mng.c:328-344 | whatever the levels hold, a read that misses both is right for every memory iff its address starts a line |
| `CacheAsWritten.LastWayIsVictim` | cache_mng.c:328-344 | on any run of reads a full set always gives up its last way |
| `CacheAsWritten.PolicyIsRanked` | lru.h:3-13 | the documented use of the age macros keeps valid ways in front with distinct ages, the newest at 0 |
| `CacheAsWritten.FillKeepsOrderIff` | cache_mng.c:335-342 | a read fill as written, into an invalid way or over the oldest, keeps such a set so iff it was empty or has one way |
| `CacheWritesAsWritten.CacheWrite` | cache_mng.c:584-806 | cache_write as written: memory and first level after a hit or a miss, unless it hits in the second level or evicts |
| `CacheContents.HitIffTouched` | cache_mng.c:466-765 | until a write evicts, while at most four lines of a set were accessed, by reads or writes, an access hits iff its line was |
| `CacheContents.WritesTrackUses` | cache_mng.c:749-761 | in a set whose lines were all first written, each age is the number of distinct lines accessed since |
| `CacheContents.ReadReplacesLru` | cache_mng.c:328-344 | and the next line read into such a set, when full, replaces the least recently used one |
| `CacheWritesAsWritten.LineWritten` | cache_mng.c:613-745 | by hit or miss, the line copied back is the one held or the 16 bytes at the address, with the word replaced |
| `CacheWritesAsWritten.WriteIsRight` | cache_mng.c:613-765 | an aligned write stores its word in memory by hit and by miss, and evicts iff the line is absent and its set is full |
| `CacheWritesAsWritten.StepRightIff` | cache_mng.c:466-765 | over any first level equal to memory, a read, byte read or write is right for all memories and words iff it starts a line or is a read that hits |
| `CacheWritesAsWritten.RunsRightIff` | cache_mng.c:466-806 | a run from flushed caches, up to and with its first evicting write, is right for all memories and words iff every write and every read that misses starts a line |
| `CacheWritesAsWritten.ReadsLastWritten` | cache_mng.c:466-806 | on such runs a read returns the last word written to its word of memory |
| `CacheWritesAsWritten.SecondLevelStaysEmpty` | cache_mng.c:466-765 | until a write evicts no access, aligned or not, is found in the second level |
| `CacheWritesAsWritten.MissNamesVictimIff` | cache_mng.c:775-782 | after a miss the tag and index given to the evicted line are its own iff its tag is below 8 and agrees with the new line's modulo 8 |
| `CacheWritesAsWritten.MissMisnames` | cache_mng.c:775-782 | line 512 evicted for line 0 would be entered as line 0 |
| `CacheWritesAsWritten.HitNamesNewLine` | cache_mng.c:697-717 | after a second-level hit they are those of the line that has just moved up |
| `CacheBytesAsWritten.CacheWriteByte` | cache_mng.c:808-836 | cache_write_byte as written: the refusal of 0, the read, the or and the write |
| `CacheBytesAsWritten.OrShifted` | cache_mng.c:830-831 | or-ing in the shifted byte ors that byte of the word and keeps the others |
| `CacheBytesAsWritten.AlignedByteIff` | cache_mng.c:808-836 | at the start of a line memory gets the byte iff it is not 0 and the old byte has no bit outside it; the first level stays equal to memory either way |
| `CacheBytesAsWritten.ByteWriteRightIff` | cache_mng.c:808-836 | over any first level equal to memory, a byte write is right on all memories with a given old byte iff it starts a line, is not 0 and the old byte has no bit outside it |
| `CacheBytesAsWritten.ByteAfterRunIff` | cache_mng.c:466-836 | the same after any run from flushed caches whose operations are well placed |
| `CacheBytesAsWritten.ByteGoesAstray` | cache_mng.c:808-836 | on zeroed memory and flushed caches, writing 1 at address 1 leaves byte 1 at 0 and sets byte 2 |
| `Commands.Program.AddCommand` | commands.c:198-258 | appends iff the command is acceptable, doubling the capacity when the listing is full |
| `Commands.Program.Shrink` | commands.c:260-278 | keeps the commands and exactly the room they need, or ten when empty |
| `Commands.ProgramPrint` | commands.c:153-195 | the concatenation of the printed lines |
| `Commands.ReadOneCommand` | commands.c:34-118 | one turn of the reader loop: a command, a rejection, or the blank-skipping loop that never ends |
| `Commands.ProgramRead` | commands.c:10-135 | the commands read, those refused being skipped, and how reading ends, on any text |
| `CommandText.HexBack` | commands.c:173-187 | zero-padded hexadecimal reads back as the number |
| `CommandText.ScanNumeral` | commands.c:87-117 | a number with any blanks, sign, 0x, padding and case is taken whole, with its value, up to what follows it |
| `CommandText.ReadLine` | commands.c:34-118 | fields with any blanks, or none, between them are read as their command |
| `CommandText.OnlyLinesRead` | commands.c:34-118 | conversely a command is read only from its letters and numbers in order, with nothing but blanks between |
| `CommandText.ReadLines` | commands.c:29-130 | a text of such lines gives their commands in order, less writes of instructions or of more than a byte, and then what the rest of the text gives |
| `CommandText.TailDecides` | commands.c:29-38 | after the lines reading ends at the end of the text, never ends on blanks, and fails on anything but R or W |
| `CommandText.InstructionAcceptedIff` | commands.c:216-232 | an instruction is accepted iff it is a read with no size and no data |
| `CommandText.DataAcceptedIff` | commands.c:216-245 | data is accepted iff its size is a byte or a positive number of words and it writes at most 0xff, or reads with no data |
| `CommandRoundTrip.HexWidth` | commands.c:180-187 | a number that fits is padded to the field width exactly |
| `CommandRoundTrip.LineLength` | commands.c:178-187 | accepted commands print as lines of 24, 25, 30 or 36 characters by form |
| `CommandRoundTrip.PrintedIsText` | commands.c:153-195 | what is printed is such a text, one line to a command |
| `CommandRoundTrip.PrintThenRead` | commands.c:10-195 | reading printed text ends, takes it all, and gives the normal forms of all commands but the writes of more than 0xff |
| `CommandRoundTrip.TrailingBlanksLoop` | commands.c:34-118 | blanks after the last printed line, and reading never ends |
| `CommandRoundTrip.RoundTripIff` | commands.c:10-258 | a program of accepted commands reads back as it was iff no size exceeds a word and no reserved bit is set |

## Left out

- File loading and dumping, and printing of addresses, lists and caches: input and output only.
- Null arguments, failed allocation, freeing and error messages: arguments are non-null and allocation succeeds.
- tlb_entry_init of the two-level TLB: tlb_search builds its entries itself and never calls it.
- DataCaches.Caches.CacheRead: data accesses only. Instruction lines are not updated by writes, so transparency does not extend to code that is written.
- CacheAsWritten.CacheRead: after a second-level hit the code mixes line and way counts in address arithmetic; the outcome only records that this point was reached. Addresses whose 16 bytes run past the end of memory are excluded, as the copy would.
- CacheWritesAsWritten.CacheWrite: likewise, and an evicting write puts an entry whose valid bit is indeterminate into the second level, so only the memory it leaves is given.
- CacheBytesAsWritten.CacheWriteByte: likewise.
- LruHistory.FirstLevelIsLru: ages in the second level have no such meaning once lines have moved out of it; which of its lines is lost is left to any choice.
- LruAges.AgeIsStackDistance: bit-field widths are the numbers of ways, 4 and 8 in the program.
- Commands.ProgramRead: numbers read beyond 64 bits are taken to saturate and a lone 0x prefix to be consumed, choices the C standard leaves to the library.
- Layout of structures in memory: a cache is an array of sets, a set a sequence of ways.
