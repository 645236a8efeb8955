# congfs client: a model of its caching and bookkeeping logic

This project models, in Dafny, the parts of the congfs kernel client in which caches, counters and
queues have to agree with the servers while threads and other clients interleave, and proves what those
parts promise. `dafny verify dfyconfig.toml` checks everything.

Remote calls are parameters: a call's result is an arbitrary value within a stated contract, so that
every theorem holds for every pattern of successes, failures and short answers its contract names.
Concurrent code is modelled as a state machine whose steps are the source's atomic actions; theorems
about it quantify over every run. Code that changes objects in place is modelled by classes.

| file | what it covers |
|---|---|
| `Basics` | what several files share |
| `FileBytes`, `BufferedCache`, `BufferedCacheRun`, `ZeroAnswer` | the per-inode file buffer against an uncached file |
| `InodeRefStore`, `FlusherProtocol` | the asynchronous flusher and the inode references it hands around |
| `Coherence` | close-to-open coherence of the native page cache between clients |
| `SizeProtocol` | when a size sampled at the server may replace the local one |
| `DirtyRange`, `PageBatching`, `VectoredWrite`, `WriteCompletion` | packed dirty ranges, batches of pages, vectored writes, and cleaning pages afterwards |
| `AppendReservation`, `AppendTranslation` | reserving file space for appended data and writing it there |
| `WritebackBarrier` | the barrier between the write-back thread and its workers |
| `FileHandles`, `DelayedQueue`, `AckQueue` | server file handles, delayed operations, acknowledgements |
| `Postorder` | freeing a red-black tree without a stack |
| `DirListing` | incremental directory listing |
| `NodeSync` | merging the reported node list into a node store |
| `EntryId` | entry IDs in NFS file handles |

## Main results

- `BufferedCacheRun.RunCached`: the file buffer cannot be told from an uncached file.
- `FlusherProtocol.NoLeakNoUnderflow` and `NoOrphanIff`: references balance in every interleaving of the
  flusher, and exactly when no buffer is ever orphaned.
- `Coherence.OpenIsCoherent`: close-to-open coherence for any number of clients and overlapping opens.
- `SizeProtocol.SizeIsSafe`: a refresh never takes the file size below a local write.
- `DirtyRange.RunPage`, `PageBatching.WritePages`, `VectoredWrite.AllBatchesWrite`: what is dirty is what
  was written, and write-back puts exactly that into the file.
- `AppendReservation.ReservationsAreDisjoint`, `AppendTranslation.AppendIsTranslated`: appended data goes
  once to space that nobody else has.
- `WritebackBarrier.ReturnIsSafe`, `NoLostWakeup`: the wait returns, and only after every batch.
- `FileHandles.InodeHandles.Run`, `DelayedQueue.Queue.Process`, `AckQueue.AckManager.ProcessAckQueue`: no
  handle, delayed operation or acknowledgement is lost or freed twice.
- `Postorder.FreeTree`, `DirListing.ListDirectory`, `NodeSync.NodeStore.SyncNodes`, `EntryId.RoundTripIff`.

## Where the code does less than one would expect

Each of these is stated in the model as the exact condition under which the property holds, most with a
concrete input.

- A flush whose write is answered with 0 reports success and keeps the buffer. The flusher then drops its
  reference and nobody will flush that buffer again (`FlushUnlocked`, `NoOrphanIff`). A user's write
  replaces the buffer and reports success while the pending bytes are gone, a read does not see them
  (`WriteAfterZeroIff`, `ReadAfterZeroIff`, `PendingByteIsLost`), and if no new buffer can be had the file
  keeps a write buffer that does not exist (`WriteCacheFlushed`).
- An open stores the new version before it drops the cached pages. A second open of the same client in
  between, or after a drop that failed, returns with the stale pages (`SecondOpen`, `StaleUntilBump`,
  `OverlappingOpensAreIncoherent`, `FailedDropIsIncoherent`).
- Writing a page out reports success even if the write failed. A write that needed it then merges ranges
  that do not meet, an append forgets the page's dirty bytes or stops the system
  (`PerformStep`, `FailedWriteOutMarksUnwritten`).
- A write past the page cache sets the mark that forbids shrinking, and only the end of a write-back clears
  it: until then a truncation by another client goes unseen (`MarkOutlivesWriteThrough`).
- The native write path stores i_size before the fields that protect it (`NativeOrderRaces`, `NativeWriteIsUndone`).
- A write that copies nothing to the start of a clean page marks the whole page dirty
  (`FreshRangeIsExactIff`).
- After a short vectored write, a last page that is shorter than what remained is cleaned although it
  was not written (`CompletePages`). After a failed preparation, a page is cleaned if a length of 0 was
  left in its segment (`CompleteUnprepared`).
- A page whose dirty range starts behind i_size gets a wrapped segment length (`RangeLengthIff`), and so
  does an append page behind the append end (`IovLengthIff`).
- A reservation whose write is answered with 0 or fails computes another offset than the old end of the
  file (`Allocate`).
- A retried flush of an append buffer appends again what had arrived
  (`AppendRetryIsExactIffNothingArrived`).
- A close that was interrupted is queued for a retry, but a retry that is interrupted gives the handle
  up (`RetryClose`). A handle opened by a lookup is never stored if another handle serves the open
  (`ReferenceHandle`).
- The entry ID 0-0-0 turns into the root directory (`ZerosParseAsRoot`).
- The comment on handle release speaks of communication errors only; the code also queues interrupted
  closes, and the model follows the code.

## Model

| member | source | states |
|---|---|---|
| `FileBytes.WriteConcat` | client_module/source/filesystem/FhgfsOpsHelper.c:385-418 | Two writes at adjacent offsets are one write of the concatenated data, which is why data may be collected in a buffer |
| `FileBytes.TornIsHidden` | client_module/source/filesystem/FhgfsOpsHelper.c:257-281 | Repeating a positional write in full hides whatever part a failed attempt stored |
| `FileBytes.ReadSplit` | client_module/source/filesystem/FhgfsOpsHelper.c:555-620 | A full read up to a point and a read from there on are one read |
| `FileBytes.AppendIsWrite` | client_module/source/filesystem/FhgfsOpsHelper.c:840-847 | Appending is writing at the current end |
| `BufferedCache.CachedFile.WritefileEx` | client_module/source/filesystem/FhgfsOpsHelper.c:840-847 | A complete answer means the file is as after the write or append; any other answer may leave any part of the data |
| `BufferedCache.CachedFile.DiscardCache` | client_module/source/filesystem/FhgfsOpsHelper.c:810-832 | Without a buffer the logical file is the file at the servers |
| `BufferedCache.CachedFile.FlushUnlocked` | client_module/source/filesystem/FhgfsOpsHelper.c:241-281 | SUCCESS means the buffer is gone and the servers hold the logical file, except that a write answered with 0 is reported as SUCCESS and keeps the buffer; a failed flush of a positional buffer leaves the logical file unchanged; the file and the pending data after every outcome, kept or discarded, positional or append |
| `BufferedCache.CachedFile.WriteCacheFlushed` | client_module/source/filesystem/FhgfsOpsHelper.c:640-713 | The file and the pending data after each way the write can take, also if data is still pending; the file is left unusable exactly if no buffer can be had while one is attached |
| `BufferedCache.CachedFile.ReadCacheFlushed` | client_module/source/filesystem/FhgfsOpsHelper.c:724-803 | Delivers exactly the bytes of the file at the servers whatever is read ahead, the read buffer is a true copy of the file and is there if it may be, an error is handed on, and data still pending is lost exactly if the read does not go directly to the servers |
| `BufferedCache.CachedFile.ExtendBuffer` | client_module/source/filesystem/FhgfsOpsHelper.c:385-418 | Adding behind the buffered bytes, with or without the flush of a full buffer, gives the logical file of the longer buffer |
| `BufferedCache.CachedFile.FlushAndWrite` | client_module/source/filesystem/FhgfsOpsHelper.c:366-383 | Flushing an unsuitable write buffer and starting over is a write to the logical file if it reports the full count and the flush was not answered with 0; the exact answer, file and pending data for every outcome of the flush and of the write |
| `BufferedCache.CachedFile.DiscardAndWrite` | client_module/source/filesystem/FhgfsOpsHelper.c:328-358 | Without pending write data, a buffered write is a write to the logical file if it reports the full count; any other outcome of a write-through is answered as the servers answered it; a write that may be cached does not reach the servers |
| `BufferedCache.CachedFile.Continue` | client_module/source/filesystem/FhgfsOpsHelper.c:385-418 | A write that continues the buffered data is a write to the logical file if it reports the full count, and reaches the servers only if it fills the buffer |
| `BufferedCache.CachedFile.WriteCached` | client_module/source/filesystem/FhgfsOpsHelper.c:293-425 | For every buffer state, hit counter, chunk end and buffer shortage: with successful calls the full count and a write to the logical file; whatever fails, a full count means a write to the logical file unless a flush was answered with 0; a write that may be cached or fits behind the buffered data does not reach the servers; the hit counter moves up exactly for writes that continue or would have continued a buffer; with failing flushes of a positional buffer a full success, or a failure report with the logical file as before or as after the write; the exact answer, file and pending data in every other case |
| `BufferedCache.CachedFile.ReadCached` | client_module/source/filesystem/FhgfsOpsHelper.c:434-627 | For every buffer state and environment the bytes and count of the logical file, which the read leaves as it is; a range that the read buffer holds is answered even if the servers fail, a failing read in front of it drops it; the exact outcome if the flush of pending data fails or is answered with 0 |
| `BufferedCache.CachedFile.ReadOverlapping` | client_module/source/filesystem/FhgfsOpsHelper.c:555-620 | Remote front, cached middle and re-buffered rest together are one read of the file |
| `BufferedCache.CachedFile.CopyFromCache` | client_module/source/filesystem/FhgfsOpsHelper.c:578-592 | The bytes taken from the read buffer are those of the file in the shared range |
| `BufferedCache.CachedFile.ReadBehind` | client_module/source/filesystem/FhgfsOpsHelper.c:595-616 | Reading on behind the buffer completes the read and loses no file data |
| `BufferedCacheRun.Perform` | client_module/source/filesystem/FhgfsOpsHelper.c:241-832 | One cached read, write, append or flush answers and acts as on a plain file |
| `BufferedCacheRun.RunCached` | client_module/source/filesystem/FhgfsOpsHelper.c:241-832 | Every sequence of cached calls from any open files, with successful remote calls, answers exactly as an uncached file would and leaves the same file |
| `BufferedCacheRun.FlushAfterFailures` | client_module/source/filesystem/FhgfsOpsHelper.c:241-281 | Any number of failed or short flushes of a positional write buffer and then a successful one leave the same file as one successful flush |
| `BufferedCacheRun.AppendRetryIsExactIffNothingArrived` | client_module/source/filesystem/FhgfsOpsHelper.c:257-281 | For an append buffer, the logical file survives a failed flush exactly if nothing of it reached the servers |
| `ZeroAnswer.LosingIsHarmlessIff` | client_module/source/filesystem/FhgfsOpsHelper.c:680-712 | Replacing a buffer that still has pending data keeps the logical file exactly if every pending byte is overwritten by the new data or is at the servers already |
| `ZeroAnswer.WrongOrderIsHarmlessIff` | client_module/source/filesystem/FhgfsOpsHelper.c:653-673 | Writing through while data is pending keeps the logical file exactly if both agree where they overlap |
| `ZeroAnswer.WriteAfterZeroIff` | client_module/source/filesystem/FhgfsOpsHelper.c:366-383 | After a flush answered with 0, for every way the next write can take, the condition under which it acts on the logical file as it should |
| `ZeroAnswer.ReadAfterZeroIff` | client_module/source/filesystem/FhgfsOpsHelper.c:514-530 | After a flush answered with 0, a read delivers the logical file exactly if its range meets nothing that is only pending |
| `ZeroAnswer.PendingByteIsLost` | client_module/source/filesystem/FhgfsOpsHelper.c:265-273 | A write that reports success and loses a pending byte |
| `InodeRefStore.RefStore.GetAndRemoveFirstInode` | client_module/source/toolkit/InodeRefStore.h:137-155 | Removes the least member and keeps its reference for the caller |
| `InodeRefStore.RefStore.GetAndRemoveNextInode` | client_module/source/toolkit/InodeRefStore.h:166-209 | Removes the least member behind an inode even if that inode has left the store, and nothing else changes |
| `InodeRefStore.RefStore.Successor` | client_module/source/toolkit/InodeRefStore.h:166-207 | The least member behind the cursor, or the fact that there is none |
| `InodeRefStore.StoreHoldsOneEach` | client_module/source/toolkit/InodeRefStore.h:91-127 | Adding and removing keep one reference per member and touch no caller's reference; giving an inode back takes over exactly the caller's one |
| `FlusherProtocol.StepKeepsInodeInv` | client_module/source/components/Flusher.c:65-131 | Every step of the flusher or a user thread, except a flush answered with 0 while the store lacks the inode, keeps every unlocked buffer known to the store or to the flusher |
| `FlusherProtocol.StepKeepsRefs` | client_module/source/components/Flusher.c:65-131 | Every step whatsoever keeps the references equal to the store's plus the one in hand |
| `FlusherProtocol.NoLeakNoUnderflow` | client_module/source/components/Flusher.c:65-131 | In every interleaving, whatever flushes answer, the references taken are exactly the store's plus the one in the flusher's hand, between 0 and 2: none leaks, none is dropped twice |
| `FlusherProtocol.NoOrphanIff` | client_module/source/components/Flusher.c:65-131 | The same for every interleaving from the start |
| `FlusherProtocol.PassAscends` | client_module/source/components/Flusher.c:65-131 | Within a pass the flusher takes inodes in ascending order whatever is added, removed or given back meanwhile, so that it takes none twice |
| `FlusherProtocol.BufferLeavesBy` | client_module/source/components/Flusher.c:65-131 | A buffer is detached only by its user, by a flush that succeeded, or by the final flush |
| `FlusherProtocol.FinalFlushOnlyIfHopeless` | client_module/source/components/Flusher.c:89-108 | In every interleaving the final flush, which may discard, comes only after an unrecoverable error or for a closed file |
| `FlusherProtocol.FailedFlushIsRetried` | client_module/source/components/Flusher.c:109-119 | After a communication error the inode is back in the store with its buffer and one reference |
| `FlusherProtocol.HopelessIsDiscarded` | client_module/source/components/Flusher.c:89-108 | After an unrecoverable error the flusher brings the inode to an end without buffer, membership or reference |
| `FlusherProtocol.EmptyIsReleased` | client_module/source/components/Flusher.c:80-83 | An inode without buffer is let go: the flusher's reference is dropped and nothing else changes |
| `FlusherProtocol.ZeroAnswerOrphans` | client_module/source/filesystem/FhgfsOpsHelper.c:265-273 | A flush answered with 0 orphans the buffer at once, exactly if the store does not hold the inode |
| `FlusherProtocol.ZeroAnswerIsReachable` | client_module/source/filesystem/FhgfsOpsHelper.c:265-273 | A run that ends with an orphaned buffer after a flush answered with 0 |
| `Coherence.StepKeepsClientInv` | client_module/source/filesystem/FhgfsOpsFileNative.c:366-464 | For every client with any number of opens and flushes in flight, a step of any client keeps the lag of its cached pages behind other clients' flushes within the difference of the version numbers, unless a drop of its pages is outstanding |
| `Coherence.RunKeepsInv` | client_module/source/filesystem/FhgfsOpsFileNative.c:366-464 | The same over every run of any number of clients |
| `Coherence.OpenIsCoherent` | client_module/source/filesystem/FhgfsOpsFileNative.c:366-410 | After any run, with any opens and flushes in flight and any failed drops, an open that returns without dropping pages finds no cached page that predates another client's completed flush, provided that every drop begun by an open of this client was followed by a completed one |
| `Coherence.AcquireIsCoherent` | client_module/source/filesystem/FhgfsOpsFileNative.c:406-409 | An open that drops the pages is coherent when that is done, whatever others did meanwhile, and makes up for earlier drops that failed |
| `Coherence.StaleMeansBehind` | client_module/source/filesystem/FhgfsOpsFileNative.c:366-464 | Unless a drop is outstanding, a stale page implies that the server's version is ahead of the client's |
| `Coherence.OpenDropsIff` | client_module/source/filesystem/FhgfsOpsFileNative.c:391-407 | After any run, an open drops the pages exactly if another client bumped the version since this client's last open; its own flushes and the age of its pages do not count |
| `Coherence.StepMisses` | client_module/source/filesystem/FhgfsOpsFileNative.c:447-456 | A client's own flush moves its version along with the server's, another's leaves it one further behind, an open brings it level, and nothing else changes the distance |
| `Coherence.MissesOthersBumps` | client_module/source/filesystem/FhgfsOpsFileNative.c:447-456 | Over every run between opens, the client misses exactly the bumps of others |
| `Coherence.ModifiedIsRemembered` | client_module/source/filesystem/FhgfsOpsFileNative.c:428-442 | A modification is remembered until a flush takes it over, also if that fails; a client that modified nothing since has nothing to flush |
| `Coherence.SecondOpen` | client_module/source/filesystem/FhgfsOpsFileNative.c:391-409 | A second open made before the first has dropped the pages never drops them and is coherent exactly if the pages were so before the first |
| `Coherence.StaleUntilBump` | client_module/source/filesystem/FhgfsOpsFileNative.c:391-410 | A page left behind by an unfinished or failed drop stays through any number of opens while no other client bumps the version |
| `Coherence.BumpRepairs` | client_module/source/filesystem/FhgfsOpsFileNative.c:391-407 | The next bump by another client makes the following open drop the pages again |
| `Coherence.OverlappingOpensAreIncoherent` | client_module/source/filesystem/FhgfsOpsFileNative.c:391-409 | A run without any failing call in which an open succeeds with a stale page |
| `Coherence.FailedDropIsIncoherent` | client_module/source/filesystem/FhgfsOpsFileNative.c:391-410 | A run in which an open succeeds with a stale page after a drop that failed |
| `SizeProtocol.Inode.ApplyStatSize` | client_module/source/filesystem/FhgfsOpsInode.h:218-285 | The nested guards act exactly as the single condition under which a sampled size is refused; LargerIsTaken and QuietRefreshIff say when it is taken |
| `SizeProtocol.Inode.UnsetNoIsizeDecrease` | client_module/source/filesystem/FhgfsInode.h:623-643 | The mark is removed only if no write-back runs and nothing is dirty or under write-back |
| `SizeProtocol.ApplyKeepsInv` | client_module/source/filesystem/FhgfsOpsInode.h:218-285 | Applying any sampled size keeps i_size at or above every local extension |
| `SizeProtocol.ExtendingKeepsInv` | client_module/source/filesystem/FhgfsOpsFile.c:2078-2089 | Extending the file keeps every extension accounted for by the server or by an unwritten page |
| `SizeProtocol.StepKeepsInv` | client_module/source/filesystem/FhgfsOpsInode.c:2513-2588 | Every step of the protocol keeps the invariant |
| `SizeProtocol.RunKeepsInv` | client_module/source/filesystem/FhgfsOpsInode.c:2513-2588 | Every interleaving keeps the invariant |
| `SizeProtocol.SizeIsSafe` | client_module/source/filesystem/FhgfsOpsInode.h:218-285 | Over all interleavings of writes, write-back and refreshes, i_size never falls below the end of a local write that extended the file |
| `SizeProtocol.LargerIsTaken` | client_module/source/filesystem/FhgfsOpsInode.h:283-284 | A size that does not shrink the file is always taken together with its block count, and so is any size for a file never written through the page cache |
| `SizeProtocol.SizeIsBounded` | client_module/source/filesystem/FhgfsOpsInode.h:218-285 | Over all interleavings i_size never exceeds the server's size and the local extensions |
| `SizeProtocol.QuietRefreshIff` | client_module/source/filesystem/FhgfsOpsInode.c:2513-2588 | After any run that leaves nothing dirty and nobody writing, a refresh begun at a later clock takes the server's size, whatever that is, exactly if it does not shrink the file or the no-decrease mark is clear |
| `SizeProtocol.LastWriteBackClears` | client_module/source/filesystem/FhgfsInode.h:623-643 | The mark is clear once the last write-back has ended with nothing left to write |
| `SizeProtocol.MarkOutlivesWriteThrough` | client_module/source/filesystem/FhgfsOpsFile.c:2046-2089 | A run in which a write past the page cache sets the mark and no write-back clears it, so that a later truncation by another client goes unseen |
| `SizeProtocol.WriteThroughArrives` | client_module/source/filesystem/FhgfsOpsFile.c:2046-2089 | A write past the page cache leaves its end at the server and in i_size and the counter as it was |
| `SizeProtocol.PageIsWritten` | client_module/source/filesystem/FhgfsOpsFile.c:2067-2089 | A page write leaves its end in i_size, the mark and the time set, and the server as it was |
| `SizeProtocol.PageArrives` | client_module/source/net/filesystem/FhgfsOpsCommKitVec.c:1029-1054 | Writing back the last dirty page leaves its end at the server, nothing to write, the mark clear and i_size as it was |
| `SizeProtocol.QuietMeansWritten` | client_module/source/filesystem/FhgfsInode.h:615-643 | Once no page is unwritten, the server's size covers every local extension |
| `SizeProtocol.CounterNeverUnderflows` | client_module/source/filesystem/FhgfsInode.h:594-602 | In every run the write-back counter counts exactly those threads, so that no decrement meets zero |
| `SizeProtocol.NativeOrderRaces` | client_module/source/filesystem/FhgfsOpsFileNative.c:1908-1915 | Between any two of the four unlocked stores of the native path, a refresh takes the file below the write exactly under the stated condition; after the third store, and in the locked order, it never does |
| `SizeProtocol.NativeWriteIsUndone` | client_module/source/filesystem/FhgfsOpsFileNative.c:1908-1915 | A file whose size falls back to 100 after it was extended to 200 |
| `DirtyRange.CanMergeIff` | client_module/source/filesystem/FhgfsOpsFileNative.c:131-146 | Ranges are merged exactly if their union is one range and the new one does not reach beyond the old one on both sides |
| `DirtyRange.MergeIsUnion` | client_module/source/filesystem/FhgfsOpsFileNative.c:148-155 | The merged range denotes exactly the union of both ranges |
| `DirtyRange.MergeIsUnionIff` | client_module/source/filesystem/FhgfsOpsFileNative.c:148-155 | Merging without asking first is exact exactly if the new bytes join the old range or cover it |
| `DirtyRange.FreshRangeIsExactIff` | client_module/source/filesystem/FhgfsOpsFileNative.c:1917-1924 | A new range denotes exactly the copied bytes unless nothing was copied at the page start, which marks the whole page |
| `DirtyRange.WritesOutIff` | client_module/source/filesystem/FhgfsOpsFileNative.c:1833-1856 | A plain write needs a write-out exactly if the page belongs to an append or the bytes do not make one range with the dirty ones or reach beyond them on both sides; an append exactly if the page has plain dirty bytes or belongs to another append |
| `DirtyRange.Page.FlushPage` | client_module/source/filesystem/FhgfsOpsFileNative.c:1404-1484 | An error is reported exactly if nothing was tried; a write that failed is reported like one that succeeded and leaves the page as it was |
| `DirtyRange.Page.WriteBegin` | client_module/source/filesystem/FhgfsOpsFileNative.c:1828-1874 | The page is written out exactly if the new bytes cannot join what it holds; after a write-out that failed unnoticed, a plain write finds the page as it was, an append forgets its dirty bytes or, on a page of another append, runs into a check |
| `DirtyRange.Page.WriteEnd` | client_module/source/filesystem/FhgfsOpsFileNative.c:1876-1934 | The written bytes join the range; a short copy onto a page with a range counts as nothing; the page still denotes what has to be written exactly if the bytes join or cover its range, or it has neither range nor append descriptor and the copy is not the one empty case |
| `DirtyRange.PerformStep` | client_module/source/filesystem/FhgfsOpsFileNative.c:1828-1934 | One write, append or write-out, whatever becomes of its write-out, moves the packed page as the unpacked reference moves; the page then denotes what has to be written exactly if no write-out failed unnoticed or the operation tolerates it |
| `DirtyRange.RunPage` | client_module/source/filesystem/FhgfsOpsFileNative.c:1828-1934 | Over any sequence of full writes, appends and write-outs whose unnoticed failures are tolerable, the packed state follows the reference, write-outs happen only where needed, and the dirty bytes are exactly those of the non-append writes since the last write-out that succeeded |
| `DirtyRange.FailedWriteOutMarksUnwritten` | client_module/source/filesystem/FhgfsOpsFileNative.c:1858-1868 | After a write-out that failed unnoticed, a write of bytes 100 to 109 on a page with the range 0 to 9 makes byte 50 dirty |
| `PageBatching.WritepagesContext.Submit` | client_module/source/filesystem/FhgfsOpsFileNative.c:1327-1346 | Submitting adds the current batch behind the others and loses no page |
| `PageBatching.MustFlushIff` | client_module/source/filesystem/FhgfsOpsFileNative.c:1348-1381 | A batch is sent before a page exactly if with that page it would no longer be one contiguous run of one kind within the block size |
| `PageBatching.WritepagesContext.Callback` | client_module/source/filesystem/FhgfsOpsFileNative.c:1383-1402 | The page joins the current batch, or starts a new one exactly if it would spoil the batch |
| `PageBatching.WritePages` | client_module/source/filesystem/FhgfsOpsFileNative.c:1466-1471 | The batches concatenate to the pages in order, each is contiguous, of one kind and within the block size, and none could have been longer |
| `VectoredWrite.RangeLengthIff` | client_module/source/filesystem/FhgfsOpsFileNative.c:1185-1188 | The 32-bit segment length is the number of dirty bytes in front of i_size exactly if the range does not start behind i_size (or does so by a multiple of 2^32) |
| `VectoredWrite.GatherByte` | client_module/source/filesystem/FhgfsOpsFileNative.c:1174-1197 | Every gathered byte is the cached byte of its own file offset |
| `VectoredWrite.RunIsDirty` | client_module/source/filesystem/FhgfsOpsFileNative.c:1174-1197 | The run is exactly the dirty bytes in front of i_size |
| `VectoredWrite.RangeBatchWrites` | client_module/source/filesystem/FhgfsOpsFileNative.c:1165-1197 | The single vectored write puts every dirty byte in front of i_size at its own offset and changes no other byte |
| `VectoredWrite.AllBatchesWrite` | client_module/source/filesystem/FhgfsOpsFileNative.c:1165-1197 | All batches of a write-back, sent in any order, put every dirty byte in front of i_size at its own offset and change no other byte |
| `VectoredWrite.BatchesAreSent` | client_module/source/filesystem/FhgfsOpsFileNative.c:1466-1471 | The batches made of range pages are such batches, in any order |
| `VectoredWrite.PrepareRanges` | client_module/source/filesystem/FhgfsOpsFileNative.c:1174-1197 | The loop yields the start of the run, the segments, and their total length |
| `WriteCompletion.CompletePages` | client_module/source/filesystem/FhgfsOpsFileNative.c:1279-1304 | After a short vectored write every page that arrived is clean; a page that did not arrive is clean too exactly if its segment fits in what remained in front of a longer page; all pages are clean and no error is noted exactly if everything was written |
| `WriteCompletion.CompleteUnprepared` | client_module/source/filesystem/FhgfsOpsFileNative.c:1251-1304 | After a failed preparation nothing was written, and a page is cleaned exactly if the segment length left from an earlier use is 0 |
| `WriteCompletion.OnlyLastOvertakes` | client_module/source/filesystem/FhgfsOpsFileNative.c:1283-1304 | In a batch of consecutive pages only the last page can be cleaned wrongly |
| `WriteCompletion.UnwrittenPageCleaned` | client_module/source/filesystem/FhgfsOpsFileNative.c:1283-1304 | A short write that cleans a page of which nothing was written |
| `AppendTranslation.IovLengthIff` | client_module/source/filesystem/FhgfsOpsFileNative.c:1210-1227 | The segment length is the number of appended bytes on the page exactly if the page starts no later than the append ends |
| `AppendTranslation.GatherIsRun` | client_module/source/filesystem/FhgfsOpsFileNative.c:1199-1229 | A batch of append pages gathers one gap-free run of the appended bytes |
| `AppendTranslation.BatchOffsetIsDistance` | client_module/source/filesystem/FhgfsOpsFileNative.c:1206-1208 | The translated offset is the reserved offset plus the distance from the first appended byte |
| `AppendTranslation.SendByte` | client_module/source/filesystem/FhgfsOpsFileNative.c:1199-1229 | What any number of batches do to each byte of the file |
| `AppendTranslation.AppendIsTranslated` | client_module/source/filesystem/FhgfsOpsFileNative.c:1199-1229 | However the pages are split into batches and in whatever order these are sent, appended byte d lands at fileOffset + d and no byte outside the reserved range changes |
| `AppendTranslation.WrittenOnce` | client_module/source/filesystem/FhgfsOpsFileNative.c:1199-1229 | No two batches write the same byte |
| `AppendTranslation.PrepareAppend` | client_module/source/filesystem/FhgfsOpsFileNative.c:1199-1229 | The loop yields the translated offset, the segments, and their total length |
| `AppendReservation.RemoteFile.AppendVecOffset` | client_module/source/filesystem/FhgfsOpsHelper.c:909-959 | The file, the new offset and the answer for every pattern of outcomes; with successful writes the vectors are one write at the given distance behind the end, and the new offset is its end; a failing lock or stat changes nothing |
| `AppendReservation.AllArrive` | client_module/source/filesystem/FhgfsOpsHelper.c:940-955 | With successful writes the vectors are one write of their concatenation |
| `AppendReservation.Ard.Allocate` | client_module/source/filesystem/FhgfsOpsFileNative.c:1094-1124 | A reservation starts at the old end of the file exactly if its one byte was written (or, for size 1, failed), and states what it is otherwise |
| `AppendReservation.RunKeepsInv` | client_module/source/filesystem/FhgfsOpsFileNative.c:1094-1124 | The same over every interleaving of clients |
| `AppendReservation.ReservationsAreDisjoint` | client_module/source/filesystem/FhgfsOpsHelper.c:909-959 | In every interleaving of clients under the append lock, with the file growing at any time, no byte is reserved twice and every reserved byte lies behind the initial contents |
| `AppendReservation.GrantedAsAsked` | client_module/source/filesystem/FhgfsOpsFileNative.c:1094-1124 | A client is granted as many bytes as it asked for, from the end of the file that it saw |
| `AppendReservation.PublishedIsReserved` | client_module/source/filesystem/FhgfsOpsFileNative.c:1112-1120 | In every interleaving a published range is the one that was statted and written |
| `WritebackBarrier.StepKeepsInv` | client_module/source/common/toolkit/SynchronizedCounter.h:35-50 | Every step keeps the counter equal to finished minus awaited workers, and the signal in exactly one place from zero on |
| `WritebackBarrier.RunKeepsInv` | client_module/source/common/toolkit/SynchronizedCounter.h:35-50 | The same over every schedule |
| `WritebackBarrier.ReturnIsSafe` | client_module/source/filesystem/FhgfsOpsFileNative.c:1404-1484 | When the wait returns, each submitted batch was run exactly once and no worker can take another step, so none touches the context |
| `WritebackBarrier.NoLostWakeup` | client_module/source/common/toolkit/SynchronizedCounter.h:35-50 | Until the wait returns, some thread can take a step |
| `WritebackBarrier.EveryStepCounts` | client_module/source/filesystem/FhgfsOpsFileNative.c:1471-1473 | After the last submission every step brings the return of the wait closer |
| `FileHandles.InodeHandles.ReferenceHandle` | client_module/source/filesystem/FhgfsInode.c:113-231 | An error changes nothing and is that of the call that failed; success counts one more reference to a handle that grants the access asked for, of the desired kind if there is one, or stores the looked-up or newly opened handle; a looked-up handle stays unstored exactly if another one serves |
| `FileHandles.OpenFlagsToKind` | client_module/source/filesystem/FhgfsInode.c:378-397 | The kind grants exactly the access that the flags ask for |
| `FileHandles.InodeHandles.CloseWithAsyncRetry` | client_module/source/filesystem/FhgfsOpsHelper.h:115-131 | A handle whose close got no answer is queued, any other is closed |
| `FileHandles.InodeHandles.ReleaseHandle` | client_module/source/filesystem/FhgfsInode.c:239-303 | The holder of a reference never meets a count of zero; the last release closes or queues the handle |
| `FileHandles.InodeHandles.RetryClose` | client_module/source/components/InternodeSyncer.c:769-779 | A queued close stays exactly after a communication error; after an interruption the handle is given up without an answer |
| `FileHandles.InodeHandles.Run` | client_module/source/filesystem/FhgfsInode.c:113-303 | Over every sequence of references, releases and retries: counts equal outstanding references, every opened handle is in exactly one place, handles only move forward, and none is given up unless a retry is interrupted |
| `FileHandles.AllReleased` | client_module/source/filesystem/FhgfsInode.c:239-303 | Once every reference is released, no slot holds a handle, and a handle waits in the queue exactly if it is marked so |
| `DelayedQueue.Queue.Add` | client_module/source/components/InternodeSyncer.c:1013-1017 | Producers append at the end |
| `DelayedQueue.Queue.Remove` | client_module/source/components/InternodeSyncer.c:774-779 | The entry leaves the queue and is freed for the first and only time; the queue keeps, over all passes, that no freed entry is queued or freed again |
| `DelayedQueue.Queue.Turn` | client_module/source/components/InternodeSyncer.c:751-780 | One turn, with entries arriving while the lock is dropped: the iterator denotes a live entry throughout, and the entry is freed exactly if the answer was not a communication error |
| `DelayedQueue.Queue.Process` | client_module/source/components/InternodeSyncer.c:743-784 | A pass attempts entries in queue order, each once, including those that arrive during the pass; what stays and what is freed is determined by the answers; nothing was freed before or is still queued |
| `DelayedQueue.Queue.Deref` | client_module/source/common/toolkit/list/PointerListIter.h:1-62 | Following an iterator to a live element finds it |
| `DelayedQueue.StaysIff` | client_module/source/components/InternodeSyncer.c:769-779 | An attempted entry stays exactly after a communication error and is freed exactly after any other answer |
| `DelayedQueue.KeptAscends` | client_module/source/components/InternodeSyncer.c:743-784 | Entries that stay keep their order |
| `AckQueue.AckManager.AddAckToQueue` | client_module/source/components/AckManager.c:274-292 | Appends the acknowledgement |
| `AckQueue.AckManager.RemoveQueueEntriesByNode` | client_module/source/components/AckManager.c:249-266 | Frees exactly the node's entries behind the iterator, each once, and keeps the order of the others |
| `AckQueue.AckManager.ProcessAckQueue` | client_module/source/components/AckManager.c:107-230 | A pass handles entries from the head, each by at most two sends during which others arrive, and leaves a full trace of what happened to each; exactly what the trace names is freed, and none of it twice, over all passes |
| `AckQueue.DropsAreJustified` | client_module/source/components/AckManager.c:107-230 | An acknowledgement leaves unsent only if its node is unknown, it cannot be serialised, or two sends to its node failed |
| `AckQueue.FailedNodeIsGone` | client_module/source/components/AckManager.c:107-266 | After two failed sends no acknowledgement for that node is left in the queue; otherwise none but the handled one is freed |
| `AckQueue.ArrivalsAreQueued` | client_module/source/components/AckManager.c:107-230 | What arrives during the sends is queued |
| `AckQueue.OnlyThatNode` | client_module/source/components/AckManager.c:249-266 | What is freed along with a failed entry is for the same node |
| `AckQueue.RoundAccounts` | client_module/source/components/AckManager.c:107-230 | After each entry, every queued or arriving acknowledgement is still queued, was handled, or was freed |
| `AckQueue.FreedOnceOnly` | client_module/source/components/AckManager.c:107-266 | No acknowledgement is freed in two rounds of a pass |
| `AckQueue.RoundFreesOnce` | client_module/source/components/AckManager.c:107-266 | No acknowledgement is freed twice in one round either |
| `AckQueue.FilterKeepsOrder` | client_module/source/components/AckManager.c:249-266 | Removing a node's entries keeps the queue order |
| `Postorder.LinksFollow` | client_module/source/os/OsCompat.c:184-204 | From every node but the last, the links lead to the next node in postorder, through nodes that come later |
| `Postorder.LeftDeepest` | client_module/source/os/OsCompat.c:170-182 | Ends at the first node of the subtree in postorder and reads only its nodes |
| `Postorder.NextPostorder` | client_module/source/os/OsCompat.c:184-204 | The successor in postorder, read only from nodes that are not freed yet; null after the last |
| `Postorder.FirstPostorder` | client_module/source/os/OsCompat.c:206-212 | The first node in postorder, or null for an empty tree |
| `Postorder.FreeTree` | client_module/source/common/Common.h:262-272 | Frees every node of any tree exactly once in postorder, reads no freed node, terminates, and leaves an empty tree |
| `Postorder.ChildrenFirst` | client_module/source/os/OsCompat.c:184-204 | Both children of a node come before it in that order |
| `DirListing.FsDirInfo.ListdirFromOffset` | client_module/source/net/filesystem/FhgfsOpsRemoting.c:184-285 | The retrieved block continues the listing at the offset and the stored offset is its end; an error moves nothing |
| `DirListing.FsDirInfo.Refresh` | client_module/source/filesystem/FhgfsOpsHelper.c:125-185 | Afterwards a name is at hand, or the contents are empty at the end of the directory, or an error is reported; the next entry does not change |
| `DirListing.FsDirInfo.Emit` | client_module/source/filesystem/FhgfsOpsFile.c:448-465 | Hands out the next entry and reports the position behind it |
| `DirListing.FsDirInfo.Iterate` | client_module/source/filesystem/FhgfsOpsFile.c:388-467 | Hands out the next entries in order without skip or repeat, and less than the caller has room for only at the end or on an error |
| `DirListing.FsDirInfo.Seek` | client_module/source/filesystem/FhgfsOpsFile.c:198-229 | The listing goes on where the server starts for that offset; a refused seek changes nothing |
| `DirListing.ListDirectory` | client_module/source/filesystem/FhgfsOpsFile.c:388-467 | Any number of calls with any buffer sizes, some failing, hand out a prefix of the directory, and all of it once a call succeeds without filling its buffer |
| `DirListing.Resume` | client_module/source/filesystem/FhgfsOpsFile.c:198-229 | Seeking to a position that was reported with an entry resumes right behind that entry, from any state of the listing |
| `NodeSync.NodeStore.Next` | client_module/source/common/nodes/NodeTree.c:43-51 | The next greater key in the tree, if there is one |
| `NodeSync.NodeStore.AddOrUpdateNode` | client_module/source/nodes/NodeStoreEx.c:56-131 | The object is stored exactly if its ID is defined and new, and is released once otherwise; a stored node takes over the reported interfaces exactly if the string IDs agree |
| `NodeSync.NodeStore.DeleteNode` | client_module/source/nodes/NodeStoreEx.c:250-272 | The node leaves the store and is released once |
| `NodeSync.NodeStore.FindChanges` | client_module/source/nodes/NodeStoreEx.c:443-513 | Added is list minus store and removed is store minus list, both ascending |
| `NodeSync.NodeStore.SyncNodes` | client_module/source/nodes/NodeStoreEx.c:433-550 | The resulting store, the out-lists, and the releases in order |
| `NodeSync.StoreIsMaster` | client_module/source/nodes/NodeStoreEx.c:433-550 | Afterwards the store has exactly the reported defined IDs; a node stored before is the same object with the reported interfaces if the string IDs agree and with its own if not; any other is the reported object, now active |
| `NodeSync.DroppedIff` | client_module/source/nodes/NodeStoreEx.c:536-547 | A reported object is released exactly if its ID is undefined or was stored before |
| `NodeSync.DroppedOnce` | client_module/source/nodes/NodeStoreEx.c:536-547 | No reported object is released twice |
| `NodeSync.ReportedIsAccounted` | client_module/source/nodes/NodeStoreEx.c:433-550 | Every reported object is either stored or released, never both |
| `NodeSync.StoredIsAccounted` | client_module/source/nodes/NodeStoreEx.c:516-527 | Every stored object stays stored or is released with the removed ones |
| `EntryId.HexOfValue` | client_module/source/filesystem/FhgfsOpsExport.c:575-575 | Printing the value of such a group of digits gives the group back |
| `EntryId.ParseGroups` | client_module/source/filesystem/FhgfsOpsExport.c:566-588 | The parser reads three groups joined by dashes as their values |
| `EntryId.ParsePrint` | client_module/source/filesystem/FhgfsOpsExport.c:558-607 | Parsing the ID printed for any 32-bit triple gives the triple back |
| `EntryId.RoundTripIff` | client_module/source/filesystem/FhgfsOpsExport.c:558-607 | An ID string survives parsing and printing exactly if it is the root ID or three canonical groups other than 0-0-0 |
| `EntryId.ZerosParseAsRoot` | client_module/source/filesystem/FhgfsOpsExport.c:566-573 | The string 0-0-0 becomes the root directory's ID |
| `EntryId.PrintInjective` | client_module/source/filesystem/FhgfsOpsExport.c:596-607 | Different triples print as different IDs |
| `EntryId.PrintLength` | client_module/source/filesystem/FhgfsOpsIoctl.h:20-22 | An ID has at most 26 characters, and exactly 26 if all three values need eight digits |

## Left out

- Sockets, RDMA, datagrams, message formats, mounting, configuration, procfs, ioctls and logging: I/O plumbing.
- Kernel primitives (page locks, radix tree walks, completions, work queues): taken as single steps.
- Ranged release and acquire of cached pages: only whole-file calls matter for opening and closing.
- Direct I/O and the sparse-read fallback; holes inside a file: a remote read delivers every byte up to the end of the file or fails.
- The coherent-buffers option of the file buffer, which bypasses the buffer for mapped files.
- Writes by other clients while a file buffer is in use: the buffered cache makes no promise about them.
- Write-back with global append locks beyond the barrier: one batch is then sent in the write-back thread.
- Version bumps that fail, wrap-around of the 64-bit version, an open whose version fetch and comparison are separated by a step of the same client, and memory-mapped pages.
- Sizes applied without hints or with hints taken without an inode (lookup and NFS paths), truncation, and write-back errors that make a page give up its data.
- The native page cache as a second user of the size protocol: only the order of its stores is compared (`NativeOrderRaces`).
- Pointer surgery inside the linked lists and rebalancing of red-black trees: lists are sequences, ordered trees are sets or maps; the postorder walk does use linked nodes. The find and insert templates for trees in Common.h are ordinary search-tree code.
- The set of PIDs that hold range locks and its counter, the query for write handles, conversions between open flags and handle kinds, and the upgrade of old NFS handle formats: one-line facts.
- Delayed entry unlocks and range unlocks: the same code as delayed closes, so that `DelayedQueue` speaks for all three.
- Changes to a node store between the two phases of a synchronisation, and node lists that are not strictly ascending: the source demands an ordered list.
- Changes to a directory during a listing; where an offset that was never reported leads is up to the server.
- Coherence.OpenIsCoherent: assumes fewer than 2^31 missed version bumps, as the comparison in the source does, and that an open fetches and compares the version in one step.
- ZeroAnswer.WriteAfterZeroIff: speaks of positional data and writes that go through; for appends and failing writes `WriteCached` gives the outcome without judging it.
- DirtyRange.Page.FlushPage: the page's own dirty flag is not modelled; a page with a range or descriptor counts as dirty.
- BufferedCache.CachedFile.WriteCached: nothing is said about later calls once a write buffer that does not exist is attached, where the source follows a null pointer.
- WritebackBarrier.StepKeepsInv: the counter is unbounded, not 32 bits wide.
- SizeProtocol.SizeIsSafe: assumes that jiffies stay below half of their range during a run.
- EntryId.ParsePrint: models the kernel's sscanf for three hexadecimal conversions only.
