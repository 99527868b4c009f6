# Minirel storage engine

This project models the storage engine of the Minirel database system and proves what its
layers promise. Each layer is modelled down to the bytes and pins it works with, and each has a simple
meaning that the code reaches indirectly:

| layer | files | meaning |
|---|---|---|
| slotted page | `PageView.dfy`, `Page.dfy` | a map from slot number to bytes |
| page allocator | `Disk.dfy` | a set of live pages and a free list threaded through the dead ones |
| buffer manager | `BufHash.dfy`, `BufferPool.dfy`, `Transparency.dfy`, `SecondChance.dfy`, `Pins.dfy`, `Bystanders.dfy`, `PoolFailures.dfy`, `BufMgr.dfy` | a map from live pages to their contents |
| heap file and scans | `HeapSpec.dfy`, `Purge.dfy`, `HeapLayout.dfy`, `HeapSession.dfy`, `Sharing.dfy`, `HeapFile.dfy`, `InsertFile.dfy`, `HeapCreate.dfy`, `HeapClients.dfy`, `HeapLoad.dfy` | a list of pages of records with a cursor |
| external sort | `Compare.dfy`, `Merge.dfy`, `Sort.dfy`, `ExternalSort.dfy` | a sorted permutation with a mark |
| joins | `JoinSpec.dfy`, `Join.dfy`, `HeapJoin.dfy`, `JoinHash.dfy` | the theta join, and an index from keys to records |

`Status.dfy` holds the status codes, `Bytes.dfy` the little-endian integers laid over raw bytes, `Records.dfy` records
and their addresses, `Seqs.dfy` permutations.

The imperative parts of the program are imperative here too. A page is an `array<Byte>` changed in
place; the hash table is a table of linked buckets; the buffer manager, the scans, the sorted file and
the join index are classes. Every such method is proved equal to a function on values (for instance
`BufMgrs.BufMgr.ReadPage` to `BufferPool.ReadPage`), and the theorems are proved about those functions and
about every run of them. The heap file classes run over the buffer manager class, so that the scan and
insert theorems hold of the bytes in its frames, with evictions, dirty bits and pins going on underneath.

The state `Sys` of the buffer pool carries two components that exist for the proofs only: the free list of
each file, and the set of pages that a client has changed (or just been given) and still owes an unpin as
dirty. The client rules of `Transparency.Allowed` are those the code relies on: read and dispose live pages,
write while pinned, unpin changed and new pages as dirty.

When the pool refuses a page is stated exactly throughout. `Pins.dfy` counts the pinned pages against the frames: a
page is refused if and only if as many pages are pinned as there are frames and it is not one of them
(`Pins.ReadRefused`, `Pins.AllocRefused`). What an open heap file pins is known, so the conditions of its methods speak
only of the pins that others held when it was opened: `Refused(base, held, k)` says that beside those pins and the
pages `held`, page `k` finds no frame, `NoRoom(base, held)` that nothing new does, `Spare(base, n)` that n frames are
unpinned. A scan that alone holds its page can always turn it (`HeapFile.HeapFileScan.NeverBlocked`), and with three
spare frames a file can be created, filled, closed and read back without fail (`HeapLoad.StoreAll`).

Whatever a client does to one file leaves the others alone. `Bystanders.Elsewhere(s, t, f)` says of every page of every
file but f that it is live in t as in s, with the same content, the same pins, the same debts of its clients and, while
pinned, the same frame; each method of the heap file layer, from `openScan` to the whole of `HeapClients.PurgeFile` and
`HeapLoad.StoreAll`, promises it of its own file, evictions and flushes included.

This is what lets several files be open at once. A scan and an inserter on one pool each see the pins of the other as
those of somebody else (`Sharing.Both`); while one works the other waits, valid but for its view of those pins, and
resumes (`HeapFile.HeapFileScan.Waits`, `Resume`). On it rests `HeapJoin.JoinFiles`: the nested-loops join with its three
files open on one buffer manager, the outer scan waiting through every inner scan, the result file growing while both
wait, and a relation joined with itself included.

Where a property fails in the code, the model keeps the code and the exact condition is proved:

- the hash of a page is in the range that `buf.h:24` promises if and only if the sum is non-negative or a
  multiple of the table size (`BufHash.HashInRange`);
- a failed read after an eviction breaks the agreement of index and frames; `PoolFailures.ReadAgreement` says
  exactly when, `PoolFailures.FailedReadExample` shows it;
- a page that is disposed twice destroys the free list (`Disk.DisposeSound`, `PoolFailures.DisposeTwiceExample`), and a
  refused disposal loses the buffered content of the first page unless it matched the disk
  (`PoolFailures.RefusedDispose`, `PoolFailures.RefusedDisposeExample`);
- a zero-length record cannot be read back (`PageView.ReadBack`), and every scan ends there (`HeapSpec.DrainExact`);
- a scan restarted after `endScan` gives up on an empty first page (`HeapSpec.RestartExact`, `HeapSpec.RestartExample`);
- `deleteRecord` counts a record out even when the page did not have it (`HeapSession.DeleteCountExact`,
  `HeapCreate.DeleteCountExample`);
- the constructor of a heap file reports OK whatever happened (heapfile.cpp:111): after a failed read of the header or
  the first data page it goes on with an undefined pointer. The exact condition is `HeapFile.Unopenable`; the model
  reports the failure there and gives its pins back, so that no client runs on the undefined pointer;
- the constructor of an inserter (heapfile.cpp:484) does report a failed read of the last page, but the header page
  stays pinned until the object goes. The exact condition is `InsertFile.Uninsertable` without `HeapFile.Unopenable`,
  and `InsertFile.OpenInsert` then returns the object with that pin;
- a join whose scan is refused a page takes that for the end of the scan and reports OK without the remaining rows
  (join.cpp:114, 130); `HeapJoin.JoinFiles` proves that this cannot happen with seven spare frames, and that what is
  in the result is never wrong or doubled;
- the 32-bit subtraction in comparisons orders integers if and only if the difference is an int
  (`Compare.IntDiffExact`, `JoinSpec.PairExact`), and is otherwise not even transitive (`Compare.IntDiffCycle`);
- a mark set before the first `next` replays the future only if there is none (`Sort.FreshMark`);
- records of 1001 to 1004 bytes pass the length check of `insertRecord` and only append an empty page
  (`InsertFile.InsertFileScan.InsertRecord`);
- every int whose product with 31 times the table size is an int lands on chain 0 of the join index
  (`JoinHash.IntsCollide`), and the first character of a string is not hashed (`JoinHash.StringHash`).

Where code and comments disagree the model follows the code, with one exception. As written, no sort of a non-empty
file succeeds: `generateRun` creates its run file, destroys it again and then opens it (sort.cpp:237-244), and
`File::open` has no create flag (db.cpp:199), so the open fails. The model takes the step that the comment there
describes, an empty run file.

## Model
| member | source | states |
|---|---|---|
| PageView.InsertTidy | page.cpp:55-105 | an insert keeps the records tiling [0, freePtr) without gap or overlap, the directory and the records apart, and the last slot in use |
| PageView.InsertRefines | page.cpp:55-105 | an insert adds exactly one entry, at the lowest unused slot, to the map from slots to records |
| PageView.ReadBack | page.cpp:241-254 | the record just inserted is read back exactly when it is not empty |
| PageView.DeleteTidy | page.cpp:111-189 | closing the gap, fixing the offsets and dropping trailing slots keeps the page tiled and its last slot in use |
| PageView.DeleteRefines | page.cpp:111-189 | a delete removes exactly one entry; every other record keeps slot and bytes through the byte shift |
| PageView.StepRefines | page.cpp:55-189 | every insert or delete, accepted or refused, is the corresponding step on the map |
| PageView.RunRefines | page.cpp:55-189 | over every run of inserts and deletes the page stays tidy and means the map the caller expects |
| PageView.RunKeeps | page.cpp:55-189 | a record that no operation of the run deletes keeps its slot and its bytes |
| PageView.FitsMeans | page.cpp:55-63 | the insertion is accepted exactly when the bytes of all records, four for each slot, the record and four more for a new slot come to at most 1004 |
| PageView.PageHolds | page.cpp:55-105 | an empty page filled with n records of L bytes takes another one exactly when (n + 1) * (L + 4) <= 1004 |
| Page.Layout | page.h:22-46 | where in the 1024 bytes the slots, their counts, the free space and the two page numbers lie |
| Page.NoCollision | page.h:25-46 | in a well-formed page freeSpace accounts for every byte and the records never reach the directory that grows towards them |
| Page.Init | page.cpp:10-18 | the bytes of the page become a well-formed empty page with no successor, 1004 bytes free |
| Page.SetNextPage | page.cpp:34-38 | only the link of the page changes |
| Page.FindSlot | page.cpp:66-75 | the slot loop finds the lowest slot not in use |
| Page.InsertRecord | page.cpp:55-105 | in place: the bytes stay well formed and show the page with the record inserted; OK if and only if the record and four bytes more are at most the freeSpace of the page, else NOSPACE, and then nothing changes |
| Page.ShiftSlots | page.cpp:154-159 | the fix-up loop moves exactly the slots behind the deleted record |
| Page.DropTrailing | page.cpp:165-184 | the directory shrinks over every unused slot at its end, and each gives back its bytes |
| Page.DeleteRecord | page.cpp:111-189 | in place: the bytes stay well formed and show the page without the record; INVALIDSLOTNO exactly when the slot is not live, and then nothing changes |
| Page.SkipUnused | page.cpp:198-203 | the slot loop stops at the first used slot or the end of the directory |
| Page.FirstRecord | page.cpp:192-211 | the first used slot, NORECORDS exactly when there is none |
| Page.NextRecord | page.cpp:216-238 | the first used slot after the given one, ENDOFPAGE exactly when there is none |
| Page.GetRecord | page.cpp:241-254 | the bytes that the map holds at the slot, INVALIDSLOTNO exactly when it holds none |
| Disk.CreateKeeps | db.cpp:155-180 | a new file has an empty free list and no user page, and its header says so |
| Disk.AllocateKeeps | db.cpp:238-285 | allocation keeps a free list and returns a page that was not live: a new page of zeros, or the page disposed last with the bytes it has; every other page, and the header beyond its three fields, keeps its bytes |
| Disk.DisposeKeeps | db.cpp:292-330 | disposal of a live page that is not the first puts it in front of the free list, acyclic and inside the file, the page holding the link and zeros and every other page its bytes |
| Disk.WriteKeeps | db.cpp:400-408 | writing a live page touches neither header nor free list |
| Disk.WriteAtReads | db.cpp:362-382 | a write changes exactly its page; a gap before a page beyond the end reads as zeros |
| Disk.DisposeThenAllocate | db.cpp:238-330 | reuse is last in, first out |
| Disk.Conservation | db.cpp:238-330 | live pages + free pages + 1 = numPages |
| Disk.FreeListUnique | db.cpp:238-330 | the chain from the header determines the free list |
| Disk.RunKeeps | db.cpp:238-330 | over every run of allocations and disposals of live pages the chain from the header is the stack of disposed pages, inside [2, numPages), acyclic, and live + free + 1 = numPages |
| Disk.DisposeSound | db.cpp:292-330 | an accepted disposal leaves some free list if and only if the page was live |
| Disk.FileSystem.AllocatePage | db.cpp:238-285 | the reads and writes of allocatePage compute the allocation step, UNIXERR included; with an empty free list the file gains a page of zeros at its end |
| Disk.FileSystem.DisposePage | db.cpp:292-330 | the reads and writes of disposePage compute the disposal step, BADPAGENO exactly for page numbers outside the file and for the first page |
| Disk.FileSystem.ReadPage | db.cpp:387-395 | BADPAGENO below page 1, UNIXERR past the end, the page otherwise |
| Disk.FileSystem.WritePage | db.cpp:362-408 | BADPAGENO below page 1; otherwise the page is written, beyond the end of the file too |
| BufHash.HashInRange | bufHash.cpp:13-20 | the C++ remainder is in 0..HTSIZE-1 if and only if the sum is non-negative or a multiple of the size |
| BufHash.HoldsInsert | bufHash.cpp:51-77 | a bucket put in front of its chain adds exactly one entry to what the chains hold |
| BufHash.HoldsRemove | bufHash.cpp:102-123 | a bucket taken out of its chain takes exactly its entry |
| BufHash.BufHashTbl.Lookup | bufHash.cpp:81-96 | for every page whose hash is in range: the frame the map holds for it, HASHNOTFOUND exactly when it holds none |
| BufHash.BufHashTbl.Insert | bufHash.cpp:51-77 | the map gains the entry, HASHTBLERROR exactly when the page was there already |
| BufHash.BufHashTbl.Unlink | bufHash.cpp:102-123 | the walk down the chain removes the bucket of the page and keeps every other one |
| BufHash.BufHashTbl.Remove | bufHash.cpp:102-123 | the map loses the entry, HASHTBLERROR exactly when there was none |
| BufferPool.ClockFails | buf.cpp:67-115 | two laps of the clock find no frame exactly when every frame is valid and pinned |
| BufferPool.ClockPicks | buf.cpp:67-115 | otherwise the victim is the first invalid frame or unpinned frame with a clear reference bit, or the first unpinned one on the second lap |
| BufferPool.ClockOrder | buf.h:111-114 | the hand goes round the frames upwards and comes to each exactly once in a lap |
| BufferPool.UnPinExact | buf.cpp:172-195 | HASHNOTFOUND exactly for a page that is not buffered, PAGENOTPINNED exactly for a buffered one without pins, which is marked dirty all the same; a dirty mark is never taken back, and no other frame, page or entry changes |
| SecondChance.AllocBufExact | buf.cpp:67-130 | allocBuf to the last bit: the hand stops at the victim, exactly the bits of the frames it passed are clear, only the victim leaves the index and only its page is written, if dirty |
| SecondChance.ReadSetsBit | buf.cpp:134-169 | after readPage the bit of the page is set; every other bit is as before but for those the hand passed |
| SecondChance.AllocSetsBit | buf.cpp:254-275 | the same of allocPage |
| SecondChance.NotVictim | buf.cpp:67-130 | a page whose bit is set is not evicted while another frame is invalid, or unpinned with a clear bit |
| SecondChance.SecondChance | buf.cpp:67-275 | over runs: from the moment a page is read until a frame is needed next, whatever the clients do in between, its last unpin included, the page is not the victim while another frame is invalid, or unpinned with a clear bit |
| Transparency.EvictKeeps | buf.cpp:88-130 | evicting an unpinned frame changes no page and no pin count |
| Transparency.AllocBufKeeps | buf.cpp:67-130 | allocBuf frees a frame without changing any page, BUFFEREXCEEDED exactly when none can be had |
| Transparency.InstallKeeps | buf.cpp:157-166 | the index entry and frame descriptor of a page just brought in restore the invariant |
| Transparency.ReadKeeps | buf.cpp:134-169 | a live page is pinned once more and its content returned, and nothing else changes; the duplicate-key exit is unreachable |
| Transparency.UnPinKeeps | buf.cpp:172-195 | the pin count drops by one, OK exactly when the page was pinned, and no page changes |
| Transparency.WriteKeepsInv | buf.cpp:134-195 | a store through the pointer of a pinned page changes that page only |
| Transparency.FlushKeeps | buf.cpp:197-233 | flushing changes no page; only OK and PAGEPINNED can come out, so the BADBUFFER exit is unreachable |
| Transparency.FlushedToDisk | buf.cpp:197-233 | flushing succeeds if and only if no page of the file is pinned, and then the disk holds every page of it |
| Transparency.Flushing | buf.cpp:197-233 | flushing keeps every page and pin; it succeeds exactly when no page of the file is pinned, and then the pool holds none of it and the disk all of it |
| Transparency.DisposeKeepsInv | buf.cpp:236-251 | disposal takes exactly one page out of the map and keeps pool, index and free list in order |
| Transparency.AllocKeepsInv | buf.cpp:254-275 | allocation adds one page that was not live, the pool never held it, and its frame is pinned; on disk it is a page of zeros or the reused page, in the frame whatever was there; BUFFEREXCEEDED exactly when every frame is valid and pinned |
| Transparency.ShutDownSaves | buf.cpp:44-64 | after the flushing destructor the disk holds the content of every live page, and the free lists are intact |
| Transparency.InitialInv | buf.cpp:22-42 | the pool starts in order and transparent |
| Transparency.StepRefines | buf.cpp:67-275 | each operation is a step of the map from live pages to contents; no free-list page is ever buffered |
| Transparency.RunRefines | buf.cpp:67-275 | over every run of well-behaved clients the pool is transparent, index and frames agree, and the free lists are safe |
| Pins.CountBelow | buf.h:59-74 | as many pages are pinned as frames exactly when no frame is invalid or unpinned |
| Pins.FullPins | buf.cpp:67-115 | the pool is full exactly when the pinned pages are as many as the frames |
| Pins.ReadRefused | buf.cpp:134-169 | readPage is refused exactly when every frame is pinned, none of them for that page |
| Pins.AllocRefused | buf.cpp:254-275 | allocPage is refused exactly when every frame is pinned |
| Pins.SpareRoom | buf.cpp:67-115 | fewer pages than there are spare frames always find room |
| Bystanders.ReadElsewhere | buf.cpp:134-169 | readPage keeps every page of every other file: live or not, content, pins, debts and, while pinned, the frame |
| Bystanders.UnPinElsewhere | buf.cpp:172-195 | unPinPage keeps the pages of other files |
| Bystanders.WriteElsewhere | buf.cpp:134-195 | a store through the pointer of a pinned page keeps the pages of other files |
| Bystanders.AllocElsewhere | buf.cpp:254-275 | allocPage, with the eviction it may need, keeps the pages of other files |
| Bystanders.FlushElsewhere | buf.cpp:197-233 | flushing one file keeps the pages of the others |
| Bystanders.ElsewhereTrans | buf.cpp:67-275 | what two steps leave alone their sequence leaves alone |
| PoolFailures.InvAgrees | buf.cpp:67-275 | in every state the invariant allows, the index is the inverse of the valid frames |
| PoolFailures.ReadAgreement | buf.cpp:134-169 | readPage keeps index and frames in agreement if and only if the page is buffered or in the file, every frame is valid and pinned, or the frame that the clock picks is invalid |
| PoolFailures.FailedReadExample | buf.cpp:155-156 | a one-frame pool in order, over a file made by create and two allocations, whose index loses a valid frame to a failed read |
| PoolFailures.DisposeTwiceExample | db.cpp:292-330 | a file of two pages whose second page is disposed twice: both disposals are accepted and no free list is left |
| PoolFailures.RefusedDispose | buf.cpp:236-251 | a disposal refused by the file keeps the page's content if and only if frame and disk agreed |
| PoolFailures.RefusedDisposeExample | buf.cpp:236-251 | a pool in order whose first page loses its unwritten change to a refused disposal |
| PoolFailures.EvictKeepsPage | buf.cpp:88-130 | an eviction keeps its page's content if and only if the frame was dirty or agreed with the disk |
| BufMgrs.RunClock | buf.cpp:74-115 | the loop over the frame table stops at the victim that the second-chance rule names, with exactly the reference bits it passed cleared |
| BufMgrs.BufMgr.constructor | buf.cpp:22-42 | a pool of invalid, unpinned, clean frames with an empty index and the hand on the last frame |
| BufMgrs.BufMgr.AllocBuf | buf.cpp:67-130 | the object goes through the modelled step, victim write-back included |
| BufMgrs.BufMgr.ReadPage | buf.cpp:134-169 | object state, status and page pointer are those of the modelled step, failures included, and the frame pointed to has its reference bit set |
| BufMgrs.BufMgr.UnPinPage | buf.cpp:172-195 | the same for unPinPage: HASHNOTFOUND, PAGENOTPINNED and the dirty bit, whose exact conditions are `BufferPool.UnPinExact` |
| BufMgrs.BufMgr.FlushFile | buf.cpp:197-233 | the same for the loop of flushFile |
| BufMgrs.BufMgr.DisposePage | buf.cpp:236-251 | the same for disposePage, refusal by the file included |
| BufMgrs.BufMgr.AllocPage | buf.cpp:254-275 | the same for allocPage, which leaves the old bytes in a clean frame |
| BufMgrs.BufMgr.ShutDown | buf.cpp:44-64 | the files end up as the modelled shutdown leaves them |
| Compare.IntDiffExact | heapfile.cpp:431-440 | the sign of the wrapped subtraction is that of the difference if and only if the difference is an int |
| Compare.IntDiffCycle | sort.cpp:26-31 | three ints on which the comparison is cyclic |
| Compare.MemcmpAntisymmetric | sort.cpp:41-43 | memcmp is antisymmetric and zero exactly on equal bytes |
| Compare.MemcmpTransitive | sort.cpp:41-43 | memcmp is transitive |
| Compare.MemcmpMeans | sort.cpp:41-43 | memcmp is negative exactly when some byte after an equal prefix is smaller |
| Compare.StrncmpAntisymmetric | heapfile.cpp:453-457 | strncmp is antisymmetric |
| Compare.StrncmpEqual | heapfile.cpp:453-457 | strncmp finds fields equal exactly when they hold the same C string |
| Compare.StrncmpMeans | heapfile.cpp:453-457 | strncmp is negative exactly when some byte is smaller after an equal prefix without NUL, positive exactly when it is so the other way round |
| Compare.MemcmpRefinesStrncmp | sort.cpp:41-43 | a file sorted by memcmp is sorted by the strncmp order of scan filters |
| Compare.MirrorSatisfies | join.cpp:104-112 | the mirrored operator holds of a difference exactly when the operator holds of its negation |
| Compare.MatchInt | heapfile.cpp:418-470 | operator by operator: a filter on an int selects the records in which the attribute lies and is <, <=, ==, >=, > or != the value, always for == and !=, for the others if and only if the difference is an int |
| Compare.MatchString | heapfile.cpp:418-470 | operator by operator: a filter on a string selects by the first byte in which the two C strings differ |
| HeapSpec.NextIsHead | heapfile.cpp:341-368 | the cursor moves to the head of what lies ahead, skipping empty pages anywhere in the chain, and leaves the tail ahead |
| HeapSpec.PositionsExact | heapfile.cpp:341-368 | the reference order lists every used slot exactly once, by page of the chain and then slot |
| HeapSpec.ScanNextSelects | heapfile.cpp:341-384 | one scanNext stops at the first matching record ahead and skips only records that do not match; it ends at a zero-length record, or with the file when nothing is left |
| HeapSpec.DrainExact | heapfile.cpp:291-384 | a scan returns exactly the matching records ahead of it, in order, each once, up to the first zero-length record |
| HeapSpec.ScanReturns | heapfile.cpp:291-384 | what a whole scan returns, by membership: exactly the used slots whose records match and that no zero-length record precedes, ordered by page of the chain and then slot |
| HeapSpec.EndExact | heapfile.cpp:341-384 | a scan ends with the file exactly when no record ahead has length zero, and then reads everything |
| HeapSpec.EndingAhead | heapfile.cpp:341-384 | one call comes no further than the whole scan and does not change how that will end |
| HeapSpec.NoneMatches | heapfile.cpp:291-384 | the first call reports the end of the file exactly when no record matches and none has length zero |
| HeapSpec.RestartExact | heapfile.cpp:301-337 | a scan restarted without a page finds what a fresh one finds if and only if the first page has a record or no record matches and none has length zero |
| HeapSpec.RestartExample | heapfile.cpp:301-337 | two pages, the first one empty: the restarted scan reports the end of the file, a fresh one finds the record |
| Purge.PurgeExact | heapfile.cpp:291-408 | deleting under the cursor visits exactly what a scan reads, treats every slot visited as the predicate says and no other one, even when trailing slots are dropped |
| Purge.PurgeLeaves | destroy.cpp:190-226 | a scan that deletes what a predicate names leaves exactly the records not visited or not named, bytes and slots unchanged |
| Purge.PurgeLeavesRest | destroy.cpp:190-226 | without zero-length records it visits every original record exactly once and leaves exactly the others |
| HeapLayout.AppendPage | heapfile.cpp:545-557 | linking a blank page behind the last one makes a chain one longer with the same pages before it |
| HeapLayout.UsedAfterDelete | heapfile.cpp:401-405 | a delete of a live record lowers the number of used slots by one |
| HeapLayout.UsedAfterInsert | heapfile.cpp:529-532 | an insert raises it by one, slot reuse included |
| HeapSession.OpenKeeps | heapfile.cpp:82-101 | opening pins the header page and nothing else, and is refused exactly when there is no frame for it |
| HeapSession.PinKeeps | heapfile.cpp:102-109 | reading a page of the chain adds one pin and changes no page; refused exactly when there is no frame beside the pins of others and of the session |
| HeapSession.SessionPins | heapfile.cpp:74-154 | the pages pinned are those of others and those of the open file |
| HeapSession.NoRoomMeans | buf.cpp:67-115 | the pins of others and of the session leave no room exactly when every frame is valid and pinned |
| HeapSession.NeverRefused | heapfile.cpp:350-365 | a session that alone holds its data page can always read another in its place |
| HeapSession.AllocSession | heapfile.cpp:540-542 | a page allocated for the file is pinned beside the others; refused exactly when the pins leave no room |
| HeapSession.LeaveKeeps | heapfile.cpp:240-253 | leaving the current page gives that pin back, a changed page being declared dirty |
| HeapSession.CloseKeeps | heapfile.cpp:123-143 | after the destructor every pin count is what it was before the file was opened, and no page is left changed but undeclared |
| HeapSession.DeleteKeepsSession | heapfile.cpp:396-408 | deleting a live record keeps recCnt equal to the used slots of the chain, and chain, pageCnt and lastPage as they were |
| HeapSession.DeleteCountExact | heapfile.cpp:396-408 | the file is in order after deleteRecord if and only if the record was there |
| HeapCreate.DeleteCountExample | heapfile.cpp:396-408 | in a new file a delete of a record that is not there stores the count -1 and leaves the file out of order |
| HeapSession.InsertKeepsSession | heapfile.cpp:527-537 | an insert on the current page keeps recCnt equal to the used slots of the chain |
| HeapSession.AppendKeeps | heapfile.cpp:540-573 | appending a page keeps pageCnt equal to the chain length and lastPage its unique end |
| HeapSession.ChainShort | heapfile.cpp:552-552 | pageCnt never overflows: the chain is no longer than the file |
| Sharing.ReaderAlone | heapfile.cpp:74-120 | to a scan the pins of an inserter on another file are those of somebody else: its own pins come on top of them |
| Sharing.ReaderMoved | heapfile.cpp:291-384 | after a step of the scan the pins are again those of outsiders, scan and inserter together, and nobody owes more |
| Sharing.WriterMoved | heapfile.cpp:505-587 | the same after a step of the inserter, which alone answers for the pages it has changed |
| Sharing.ReaderCloses | heapfile.cpp:123-154 | when the scan is gone the inserter is left with the outsiders it started from |
| Sharing.HeapUntouched | heapfile.cpp:74-154 | a heap file whose pages nobody touched is in order and shows the same records |
| Sharing.SpareBeside | buf.cpp:67-115 | beside an open file with two pinned pages two frames less are spare |
| HeapFile.HeapFileScan.StillWaits | heapfile.cpp:341-384 | a waiting scan keeps its place, its pointers and its pages through work on other files |
| HeapFile.HeapFileScan.Resume | heapfile.cpp:341-384 | a waiting scan goes on as a valid one, on the same pages |
| HeapFile.OpenScan | heapfile.cpp:74-120 | header and first data page are pinned and the cursor stands before the first record; when one of the two finds no frame, exactly `Unopenable`, the model reports BUFFEREXCEEDED and restores the pins where the source reports OK and goes on with an undefined pointer; no page changes |
| HeapFile.HeapFileScan.StartScan | heapfile.cpp:210-238 | BADSCANPARM exactly for a negative offset, a length below 1 or an INTEGER whose length is not 4, and then the old filter stays |
| HeapFile.HeapFileScan.Advance | heapfile.cpp:341-368 | over the buffer manager: the cursor reaches the next record of the file, of whichever page, unless a page on the way is blocked; page contents do not change |
| HeapFile.HeapFileScan.TurnPage | heapfile.cpp:345-367 | the step to the following page: end of file exactly on the last one, BUFFEREXCEEDED exactly when that page is blocked |
| HeapFile.HeapFileScan.NeverBlocked | heapfile.cpp:350-365 | no page is blocked for a scan that alone holds its page |
| HeapFile.HeapFileScan.NextMatch | heapfile.cpp:341-384 | over the buffer manager: the loop stops where the reference scan stops; BUFFEREXCEEDED exactly when a page it has to read for that is blocked |
| HeapFile.HeapFileScan.StartOver | heapfile.cpp:301-337 | the special case of an unpinned scan: refused exactly when the first page is blocked, its early end on an empty first page, otherwise as a fresh scan |
| HeapFile.HeapFileScan.ScanNext | heapfile.cpp:291-384 | the call returns what the reference scan returns from the cursor (which records match is `Compare.MatchInt` and `MatchString`), BUFFEREXCEEDED exactly when a page needed for that is blocked; at the end of the file it gives FILEEOF and the cursor does not move |
| HeapFile.HeapFileScan.GetRecord | heapfile.cpp:390-393 | the bytes of the record under the cursor |
| HeapFile.HeapFileScan.ReadRecord | heapfile.cpp:168-202 | any record of the file by its RID, INVALIDSLOTNO exactly when the page has none there, BUFFEREXCEEDED exactly when another page is needed and blocked; then pool and file are in order and the old pointer stays behind |
| HeapFile.HeapFileScan.MarkScan | heapfile.cpp:260-266 | the position of the scan is remembered |
| HeapFile.HeapFileScan.ResetScan | heapfile.cpp:268-288 | the scan stands at the marked position on a pinned page, with no page of the file changed; BUFFEREXCEEDED exactly when the marked page is another one and blocked |
| HeapFile.HeapFileScan.DeleteRecord | heapfile.cpp:396-408 | OK exactly when the current record is there: the pages are those without it, the count follows and the cursor does not move; otherwise no page but the count changes; pages and pins of other files stay as they are |
| HeapFile.HeapFileScan.EndScan | heapfile.cpp:240-253 | the data page is unpinned, no page changes, and curPageNo becomes 0 if a page was held |
| HeapFile.HeapFileScan.Close | heapfile.cpp:123-154 | pin balance: every pin count is back to its value before the open, no content changes, and the pages of other files stay in their frames while pinned |
| HeapClients.ScanAll | heapfile.cpp:291-384 | a freshly opened scan drained over the buffer manager returns exactly the RIDs of the matching records in chain and slot order (`HeapSpec.ScanReturns`); it ends with FILEEOF, at a zero-length record or, exactly when a page it has to read is blocked, with BUFFEREXCEEDED; after FILEEOF every later call gives it again |
| HeapClients.DeleteWhere | destroy.cpp:190-226 | the client loop over the buffer manager leaves the pages that PurgeLeaves describes; BUFFEREXCEEDED exactly when a page it has to read is blocked; pages and pins of other files stay as they are |
| HeapClients.FlushOnClose | db.cpp:212-231 | the close by the last opener: it succeeds exactly when no page of the file is pinned, and then every page of the file is on disk and nothing else has changed |
| HeapClients.PurgeFile | destroy.cpp:190-226 | open, delete what the predicate names, close: the pages left, the pins restored, the file in order and on disk, no page of another file changed; BUFFEREXCEEDED exactly when a page it has to read finds no frame, the refusal to open included, which the source does not report |
| InsertFile.OpenInsert | heapfile.cpp:472-488 | header and last data page are pinned; when the last page finds no frame BUFFEREXCEEDED is returned with an object that keeps the header page pinned; when header or first data page find none (`Unopenable`) the model reports it and restores the pins where the source goes on with an undefined pointer |
| InsertFile.InsertFileScan.InsertRecord | heapfile.cpp:505-587 | the exact outcome: refused above 1004 bytes; BUFFEREXCEEDED exactly when the last page has to be read and cannot be, or the record does not fit there and no frame is left; otherwise on the last page if its records, four bytes for each slot, the record and four more come to at most 1004, else on one new page up to 1000 bytes, and only an empty page appended for 1001 to 1004; pages and pins of other files stay as they are |
| InsertFile.InsertFileScan.AddHere | heapfile.cpp:526-538 | the record is on the last page and counted, or nothing changed; pages and pins of other files stay as they are |
| InsertFile.InsertFileScan.Append | heapfile.cpp:540-573 | a blank page becomes the last page of the chain and the current one; BUFFEREXCEEDED exactly when no frame is left; pages and pins of other files stay as they are |
| InsertFile.InsertFileScan.Close | heapfile.cpp:490-502 | the file stays in order with its records, every pin count is back to its value before the open, and the pages of other files stay as they are |
| HeapCreate.CreateHeapFile | heapfile.cpp:5-65 | OK exactly with two spare frames: a file just created becomes a heap file with one empty page, on disk, with no other page changed and no pin left; otherwise the header page stays pinned if it got a frame; other files stay as they are either way |
| HeapLoad.InsertedLast | heapfile.cpp:505-587 | a record accepted by a file without deletions becomes the last record of the file, on the old last page or a new one |
| HeapLoad.PositionsListed | heapfile.cpp:291-384 | what a scan visits, in its order, is the records page by page and slot by slot |
| HeapLoad.Load | sort.cpp:252-262 | the write loop puts the records behind those of the file, in order, and all of them with three spare frames and room in the file; pages and pins of other files stay as they are |
| HeapLoad.ReadAll | sort.cpp:149-167 | scanNext and getRecord until FILEEOF deliver the records of the file in order; refused exactly when a page is blocked |
| HeapLoad.WriteAndRead | sort.cpp:243-287 | round trip over the buffer manager: records inserted, the file closed, flushed, opened and scanned come out behind the older ones in the order written. Whatever the status, the file ends up in order and holding the older records and those written so far, and no others; on success it holds all of them and is on disk unless others pin it. No pin is left, no other file changes, and it cannot fail with three spare frames and room in the file |
| HeapLoad.CloseFile | heapfile.cpp:123-154 | after the destructors and the close the file is in order with its records, the pins are those of before the open, the file is on disk unless others pin it, and the pages of other files stay as they are |
| HeapLoad.StoreAll | heapfile.cpp:5-587 | the same from a new file: create, insert, close, open and scan return exactly the records stored, and then the file is in order, holds exactly them and is on disk, every pin is as before and no other file has changed; with three spare frames and room in the file it cannot fail |
| Merge.LeqTotal | sort.cpp:21-51 | reccmp is total and antisymmetric in sign on comparable records |
| Merge.LeqTransitive | sort.cpp:21-51 | reccmp is transitive on comparable records |
| Merge.LeqMeans | sort.cpp:21-51 | reccmp puts a record first exactly when its int is not the larger one, or its bytes are equal or below at the first difference; it is negative exactly when the key is smaller |
| Merge.HeadIsLeast | sort.cpp:318-345 | the head that next picks is least among all records left in all runs |
| Merge.MergeCorrect | sort.cpp:301-356 | whatever the runs, the records delivered until FILEEOF are those of the runs, none lost or repeated, with ascending keys (`Merge.Ascending`: ints by value, strings by the first byte in which they differ) |
| Merge.MergeStable | sort.cpp:301-356 | the merge is stable: the records of one key come out in the order of their runs, and within a run in its order |
| Merge.DeliversUnique | sort.cpp:301-356 | with ties going to the earlier run, what next delivers is determined by what is left of the runs |
| Sort.FreshMark | sort.cpp:362-413 | a mark set before the first next stands for the whole output exactly when there is none |
| Sort.SelectStep | sort.cpp:333-344 | one turn of the selection loop extends the choice of the smallest head by one run, the earlier run winning ties |
| Sort.SortedFile.constructor | sort.cpp:276-294 | every run is opened and nothing fetched from it: all of it remains to be delivered |
| Sort.SortedFile.Select | sort.cpp:318-345 | the lazy fetch changes nothing that remains, and the loop finds the smallest head |
| Sort.SortedFile.Next | sort.cpp:301-356 | the head of the smallest run is delivered and taken off it; FILEEOF exactly when every run is exhausted, on this and every later call |
| Sort.SortedFile.SetMark | sort.cpp:362-376 | the mark stands for the state one record back, exhausted runs included; what remains does not change |
| Sort.SortedFile.GotoMark | sort.cpp:384-413 | what the mark stands for is what remains |
| ExternalSort.DerefPermuted | sort.cpp:255-262 | a permutation of sort records refers to a permutation of records |
| ExternalSort.QSortExists | sort.cpp:62-83 | what the model asks of qsort can be had: insertion meets it for every sortable source |
| ExternalSort.FillBuffer | sort.cpp:149-167 | the buffer holds place and attribute of the next maxItems records, or of all that are left |
| ExternalSort.GenerateRun | sort.cpp:195-267 | the run file holds the records that the sorted buffer refers to, in its order |
| ExternalSort.SplitPool | sort.cpp:130-188 | the runs together hold exactly the records of the source and each is in order |
| ExternalSort.SortFile | sort.cpp:92-188 | BADSORTPARM exactly for a negative offset, a length below 1 or an INTEGER whose length is not 4, INSUFMEM exactly below 2 items; otherwise the source is cut into runs of maxItems records with ascending keys, all but the last full, and the splitting ends |
| ExternalSort.Drain | sort.cpp:301-356 | next called until FILEEOF delivers what the merge determines |
| ExternalSort.Replay | sort.cpp:301-413 | a mark set after a record r: after any number of further calls of next, gotoMark makes next deliver r again and then all that followed it |
| ExternalSort.SortAll | sort.cpp:92-356 | for every source and every maxItems of at least 2 the output is a permutation of the source with ascending keys: the merge of its runs of maxItems records, stable across the runs |
| JoinSpec.PairExact | join.cpp:104-127 | the mirrored filter on the inner scan is the join condition outer.attr1 op inner.attr2 if and only if the comparison does not overflow or is for (in)equality |
| JoinSpec.ThetaInt | join.cpp:104-127 | operator by operator: the join condition on ints is <, <=, ==, >=, > or != of the two values |
| JoinSpec.ThetaString | join.cpp:104-127 | the same on strings, by the first byte in which the two C strings differ |
| JoinSpec.RowsExact | join.cpp:114-162 | the listing of pairs is outer-major and holds exactly the pairs of the relation, each once |
| JoinSpec.VisitedIsJoined | join.cpp:114-162 | the nested loops visit the pairs of the theta join in outer-major order if and only if no comparison overflows |
| JoinSpec.ProjectionTiles | join.cpp:74-80 | the projected fields lie at their offsets, follow each other without gap or overlap and end at the record length |
| JoinSpec.ProjectedField | join.cpp:136-155 | field k of an output record holds the bytes of its attribute in the outer record if it is of the outer relation, else in the inner record |
| JoinSpec.SelfJoinProjectsOuter | join.cpp:137-155 | joining a relation with itself projects from the outer record only |
| Join.CopyFields | join.cpp:136-155 | the output buffer holds the projected fields, each from the record of its relation |
| Join.NestedLoops | join.cpp:114-162 | the result grows by the projections of exactly the pairs visited, in order |
| Join.LoopsAreJoin | join.cpp:104-162 | those records are the theta join when no integer comparison overflows |
| Join.FirstFailure | join.cpp:43-54 | the status passed on is that of the first name that fails |
| Join.LookUpAll | join.cpp:43-54 | the descriptors of all names, or the status of the first look-up that fails |
| Join.NLJoin | join.cpp:24-165 | ATTRTYPEMISMATCH for different types or lengths, the first failed look-up otherwise (`Join.FirstFailure`), else the theta join, as `JoinSpec.ThetaInt` and `ThetaString` say it, appended to the result relation |
| HeapJoin.RowMade | join.cpp:114-162 | what the inner scan lets through, projected with the outer record, is exactly the next row of the nested loops |
| HeapJoin.ReadBeside | join.cpp:114-131 | scanNext and getRecord while an inserter waits: the next record, no page changed, both objects waiting again; no page is refused with four spare frames |
| HeapJoin.AddBeside | join.cpp:157-160 | insertRecord while a scan waits: the record is the last of the result and the scan keeps its place and its pages |
| HeapJoin.OpenBeside | join.cpp:88-128 | a scan opened beside an inserter stands before the first record of its file; refused, it leaves the inserter alone as it was |
| HeapJoin.CloseBeside | heapfile.cpp:123-154 | the scan is closed and its file flushed, and the inserter goes on over the pins it had before the scan |
| HeapJoin.JoinRow | join.cpp:117-161 | the inner file is opened, scanned and closed once: the result gains the row of the outer record, or a beginning of it when frames or pages run out; no other file changes |
| HeapJoin.JoinFiles | join.cpp:82-164 | the join over the buffer manager: the result file is in order and holds its older records and rows of the join, none twice; with seven spare frames and room in the file exactly those of the nested loops, in their order, which are the theta join when no comparison overflows; no other file changes, every pin is given back and the result is on disk unless others pin it |
| JoinHash.SameKeySameHash | joinHT.cpp:34-52 | keys that lookup finds equal hash alike, whatever follows the NUL of a string |
| JoinHash.SameKeyIsEquality | joinHT.cpp:99-128 | lookup's equality is the equality of the join and of the inner scan filter |
| JoinHash.IntsCollide | joinHT.cpp:39-50 | integer keys without overflow all hash to 0 |
| JoinHash.StringHash | joinHT.cpp:34-52 | the hash of a string is the number that its characters after the first one and the closing NUL make to base 31, wrapped once, absolute value of the remainder |
| JoinHash.ChainExact | joinHT.cpp:87-131 | the chain of a key's hash value holds every record inserted with an equal key, newest first |
| JoinHash.MatchesExact | joinHT.cpp:99-128 | which records match: an equal int or an equal C string decides of each entry, and the order is that of the insertions, newest first |
| JoinHash.JoinHashTbl.constructor | joinHT.cpp:7-17 | the index starts empty |
| JoinHash.JoinHashTbl.HashOf | joinHT.cpp:34-52 | the character loop computes the hash value, which is in 0..HTSIZE-1 |
| JoinHash.JoinHashTbl.Insert | joinHT.cpp:54-85 | the index holds one more record, ahead of the others, and bucketCnt stays the chain length |
| JoinHash.JoinHashTbl.Lookup | joinHT.cpp:87-131 | exactly the records inserted with an equal key, newest first; the result array never overflows |

## Left out
- FLOAT attributes (rounding, NaN and infinities) in comparisons, filters, sort keys and join keys.
- Unix I/O errors other than reading past the end of the file; opening, closing and the table of open files; the file name in a heap file's header.
- Merge.MergeCorrect: integer attributes whose pairwise differences are ints, and all strings; beyond that range reccmp is no order (`Compare.IntDiffCycle`).
- Merge.LeqMeans: the same.
- Merge.MergeStable: the same.
- ExternalSort.SortFile: the same, since ISO C11 promises nothing of qsort with an inconsistent comparison.
- ExternalSort.SortAll: the same.
- ExternalSort.GenerateRun: qsort is a parameter that meets section 7.22.5.2 of ISO C11; the run files and the source are the sequences of records that their scans deliver, and writing a run file cannot fail (when it can is what `HeapLoad.Load` states).
- Sort.SortedFile.Next: a run is a cursor over the records of its file; that heap files and their scans behave so is what `HeapLoad.WriteAndRead` and `HeapFile.HeapFileScan.ResetScan` state. The merge is not run over several open heap files at once.
- Join.NLJoin: the look-ups, over relations given as the sequences of records that their scans deliver (`HeapJoin.JoinFiles` runs the loops over the files); the catalog look-up is a parameter that describes the stored relations, and the query gives attribute types and lengths as the catalog has them; projected records are at most 1000 bytes, since a longer one ends the process; the result relation is not one of the joined ones.
- HeapJoin.JoinFiles: records are joined up to a zero-length one, where every scan ends; seven spare frames are sufficient for the whole result, not necessary; a failed insertion, which ends the process in the source, ends the loops and closes the files; an inner relation other than the outer one is open nowhere else; projections have at least one byte.
- JoinHash.JoinHashTbl.Insert: strings must end within their field, as the code demands; characters are signed and int arithmetic wraps.
- BufMgrs.BufMgr.UnPinPage: a page unpinned as dirty lies in its file, which holds of every buffered page (`HeapSession.InFrame`).
- BufHash.BufHashTbl.Insert: asks for a page whose hash is in range, the others being out of bounds of the table (`BufHash.HashInRange`); Lookup and Remove ask the same.
- HeapFile.HeapFileScan.DeleteRecord: slot numbers are not negative.
- HeapFile.HeapFileScan.Close: the flush of the last close is `HeapClients.FlushOnClose`; the count of openers is left out.
- HeapFile.OpenScan: when the header or first page cannot be read the source prints to cerr, reports OK and carries on with an undefined pointer; the model stops, reports the failure and gives its pins back.
- InsertFile.OpenInsert: the same for header and first page; after a failed read of the last page the source keeps a stale pointer to the first page, where the model has none.
- HeapClients.PurgeFile: the same for a file that cannot be opened.
- HeapFile.HeapFileScan.ResetScan: a mark taken without a current page, with curPageNo 0 after endScan or -1 after the end of a restarted scan, is left out: the source then reads page 0 or -1, which evicts a page and fails with BADPAGENO, so that index and frames disagree (`PoolFailures.ReadAgreement`).
- HeapFile.HeapFileScan.ReadRecord: the page of the RID is one of the file's chain; the source would read any page.
- HeapCreate.CreateHeapFile: the FILEEXISTS exit and the calls that open and close the file, of which the flush is kept.
- InsertFile.InsertFileScan.InsertRecord: one inserter per file and no random reads on it, so that its page is the last one; the file stays below 2^31 - 1 pages and records.
- HeapLoad.Load: a file of the largest size, 2^31 - 1 pages, is left alone; that frames are short is given as a necessary condition of a refusal, the exact one of each insertion being that of `InsertFile.InsertFileScan.InsertRecord`.
- Interleaved changes to one file through several objects.
- Integers are little-endian on disk.
- The redundant `setNextPage(-1)` on a page that init has just set up.
- The catalog, select, insert, delete and load commands, partitioning, printing, statistics, the parser, QU_SM_Join and QU_Hash_Join (both empty), and the freeing of memory.
