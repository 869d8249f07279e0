# Verified models of the vault viewer's core

A Dafny project that models the parts of the vault viewer where correctness is least obvious from reading one
function, and proves what each part is for. One module stands for one component:

| module | component |
|---|---|
| `PageLock`, `SecureBytes` | the page-lock registry (`mlock` does not stack, allocations share pages) and the wiped, growable buffer on top of it |
| `VideoDecodeProtocol`, `VideoDecodeSeek`, `VideoCodecLog`, `VideoDecodeWorker` | the video decode thread: submit, seek, drain, end of stream, hardware fallback, shutdown |
| `FramedBytes`, `VideoObjectSource`, `VideoSource`, `Avio` | byte streams decrypted on demand, behind their caches, and the plain reader they must equal |
| `TextureCache` | the byte-budgeted least-recently-used texture cache |
| `ByteIo`, `SearchCodec` | the saved-search printer and parser over little-endian byte buffers |
| `Utf8`, `FontAtlas` | the UTF-8 scalar decoder against RFC 3629, glyph lookup and text measuring |
| `GifAnimation` | the GIF block walker against the GIF89a block grammar |
| `ArchiveReader`, `ArchiveReaderCache` | extraction through a forward cursor, and readers kept by buffer identity |
| `ImageDecodeProtocol`, `ImageDecodeWorker` | the coalescing image decode thread |
| `BatchDelete` | descendant pruning and the tally of what a batch delete removes |
| `AtomicFile` | claiming a free export name beside concurrent creators |

Objects whose methods change them are classes with the same fields. A method is proved against a specification on
values (a state machine, a parser, a recency list), and the properties are lemmas about that specification: over
every input, every run of calls or every interleaving. The two worker threads are small-step machines in which each
lock-protected section is one step; the worker classes keep a ghost trace, let the other thread run at every lock
boundary, and are shown to do nothing but steps of the machine.

What the environment decides (the allocator, `mlock`, the codec, the renderer, the file system, other processes) is
nondeterministic. A ghost counter beside it (`refusals`, `failures`, `cancels`) records when it said no, so that a
method's failure can be traced to it.

Where a method is proved against a specification function, what that function itself promises is stated without it: by
the bytes of a block, the calls in a log, the bytes read after a seek, the picture a texture was filled with, the bytes
of an encoding.

`dafny verify dfyconfig.toml` checks everything.

Where the code does not do what its comments say, the code is modelled and the difference is a lemma with its exact
condition:

- `FontAtlas.AdditiveForAllIff`: widths are additive exactly when no character straddles the split
  (`CutAccentMeasuresWider` is a split where they are not).
- `BatchDelete.TotalCountsRemoved`: the tally is exact exactly when no two selected places are the same or one under
  the other. For distinct canonical paths, pruned, they never are (`PrunedTallyIsExact`); a path beside its own copy
  with a trailing slash always is (`TrailingSlashCountsTwice`).
- `VideoDecodeSeek.SeekIsolatesIff`: a seek isolates the new position from the old exactly when the job held at that
  moment is out of its way (`SeekAfterPopWastesTheFlush` and `StaleFrameClearsTheTarget` are runs in which it is not).
- `AtomicFile.SparesOthersIff`: creating a file alters an entry of another process exactly when the stream could not be
  opened, that process had meanwhile put its own file in the place of the new one, and the removal went through
  (`ReplacedFileIsRemoved`).
- `PageLock.PageZeroIsCountedButNotLocked`: page 0 is counted and never locked; every other page is both.

## Model

| member | source | states |
|---|---|---|
| `PageLock.StepKeepsInv` | src/crypto/secure_mem.h:186-381 | one call of lock, unlock or forget, whatever fails inside it, keeps each page's count equal to the number of live ranges over it and every counted page locked; without forget, the locked pages are exactly the counted ones |
| `PageLock.EveryRunKeepsInv` | src/crypto/secure_mem.h:186-381 | the same after any run of calls with any failures |
| `PageLock.NeighbourStaysLocked` | src/crypto/secure_mem.h:309-313 | giving one range back never unlocks a page another live range covers |
| `PageLock.UnmatchedUnlockExposesNeighbour` | src/crypto/secure_mem.h:339-358 | giving back a range one does not hold does: the discipline on callers is needed |
| `PageLock.PageZeroIsCountedButNotLocked` | src/crypto/secure_mem.h:252-269 | the cursor value 0 means "no open run", so page 0 is counted but never handed to the system: the invariant is stated for the other pages |
| `PageLock.HoldersWithout` | src/crypto/secure_mem.h:272-295 | ending one range takes one holder from exactly the pages it covers |
| `PageLock.RefusalUndone` | src/crypto/secure_mem.h:249-270 | when exactly the counted pages are locked, a refused run leaves the state as it was |
| `PageLock.DropUndoesAdd` | src/crypto/secure_mem.h:186-224 | rolling back a range that was just counted restores the map exactly |
| `PageLock.CoalescedSnoc` | src/crypto/secure_mem.h:249-270 | maximal runs stay maximal when one more, past a gap, is added |
| `PageLock.ScanOne` | src/crypto/secure_mem.h:253-264 | one page of the scanning loops: a run opens, goes on or closes, and the closed runs stay the maximal runs of the pages to be handed over |
| `PageLock.ScanClose` | src/crypto/secure_mem.h:265-269 | closing the last run completes them |
| `PageLock.NewPagesAreAbsent` | src/crypto/secure_mem.h:212-231 | after counting, the pages with one reference are those nobody counted before |
| `PageLock.PageLockRegistry.OsLockRange` | src/crypto/secure_mem.h:161-173 | `mlock`: the whole range, or refused with nothing changed |
| `PageLock.PageLockRegistry.OsUnlockRange` | src/crypto/secure_mem.h:175-179 | `munlock` |
| `PageLock.PageLockRegistry.RollbackPageRefs` | src/crypto/secure_mem.h:186-195 | takes one reference from each page of the range |
| `PageLock.PageLockRegistry.AddPageRef` | src/crypto/secure_mem.h:197-210 | counts one page, or the map refuses and nothing changes |
| `PageLock.PageLockRegistry.AddPageRefs` | src/crypto/secure_mem.h:212-224 | counts every page of the range, or none; says whether any was new |
| `PageLock.PageLockRegistry.UnlockNewPagesBefore` | src/crypto/secure_mem.h:233-247 | unlocks, one call a maximal run, precisely the singly counted pages before the refusal |
| `PageLock.PageLockRegistry.LockNewPages` | src/crypto/secure_mem.h:249-270 | asks for precisely the new pages, in disjoint maximal runs; on a refusal gives back every run granted |
| `PageLock.PageLockRegistry.ReleasePageRefs` | src/crypto/secure_mem.h:272-295 | unlocks, in maximal runs, precisely the pages whose count reached zero |
| `PageLock.PageLockRegistry.ForgetPageRefs` | src/crypto/secure_mem.h:297-307 | takes one reference from each page without touching the lock set |
| `PageLock.PageLockRegistry.LockPages` | src/crypto/secure_mem.h:326-333 | all or nothing: on success the runs given to the system are the maximal runs of the pages nobody counted; on failure the map is as before, and so is the lock set when exactly the counted pages were locked |
| `PageLock.PageLockRegistry.MemLock` | src/crypto/secure_mem.h:313-337 | fails only on a block that wraps around or when the mutex, the map or the system refuses; is one step of the state machine; on success exactly the pages with a byte of the block in them have one reference more, and every byte of the block lies on a locked page (page 0 apart) |
| `PageLock.PageLockRegistry.MemUnlock` | src/crypto/secure_mem.h:339-358 | is one step of the state machine: exactly the pages with a byte of the block in them lose a reference, and of these the ones nobody counts any more are unlocked, in maximal runs |
| `PageLock.PageLockRegistry.MemForgetLock` | src/crypto/secure_mem.h:360-381 | drops one reference from exactly the pages with a byte of the block in them, and makes no system call |
| `PageLock.QuotientsSpan` | src/crypto/secure_mem.h:318-320 | from the page of the first byte to that of the last: exactly the pages with a byte of the block in them |
| `PageLock.LockingCoversTheBytes` | src/crypto/secure_mem.h:313-337 | locking counts exactly those pages once more, and then every byte of the block lies on a locked page |
| `PageLock.UnlockingCoversTheBytes` | src/crypto/secure_mem.h:339-381 | giving back and forgetting uncount exactly those pages |
| `PageLock.LiveBlocksAreLocked` | src/crypto/secure_mem.h:309-313 | every byte of a block whose range is held lies on a locked page, whatever else was locked and given back |
| `PageLock.PageLockRegistry.LockableIff` | src/crypto/secure_mem.h:315-321 | what can be locked, by its bytes: none at address 0, and none in the last page of the address space |
| `SecureBytes.EveryRunIsAmortised` | src/crypto/secure_mem.h:729-781 | after any run of calls, the bytes moved by regrowth since the buffer was last cleared or resized never exceed the present capacity, which is at most max(16, twice the largest request since then) |
| `SecureBytes.StepKeepsBuffer` | src/crypto/secure_mem.h:729-806 | each call keeps that invariant |
| `SecureBytes.ServedRunsConcatenate` | src/crypto/secure_mem.h:763-781 | a run of served appends holds exactly the concatenation |
| `SecureBytes.HugeBlocksAreNotAmortised` | src/crypto/secure_mem.h:735-741 | beyond half the address space doubling stops and the bound fails: why the allocator's own limit is needed |
| `SecureBytes.ReleaseTakesOneRegistration` | src/crypto/secure_mem.h:796-806 | releasing a range ends exactly one registration of it, also when another buffer on the same pages holds an equal one |
| `SecureBytes.OthersStayRegistered` | src/crypto/secure_mem.h:729-806 | the registrations of all buffers, counted with multiplicity, are within the live ones, and stay so whatever one buffer gives up and takes: every other buffer is still registered |
| `SecureBytes.MoveKeepsOthers` | src/crypto/secure_mem.h:746-755 | the release and the new lock of a regrowth leave every other registration, whether or not they succeed |
| `SecureBytes.Bytes.FreeStorage` | src/crypto/secure_mem.h:796-806 | wipes the full capacity, and gives the lock back exactly when it was held; no other registration is touched |
| `SecureBytes.Bytes.UnlockWiped` | src/crypto/secure_mem.h:796-800 | only a block wiped over its whole capacity gives its lock back: until then nothing in it may be swapped out |
| `SecureBytes.Bytes.LockBlock` | src/crypto/secure_mem.h:685-686 | registers the block; `locked` says exactly whether it is registered, and then every byte of it lies on a locked page |
| `SecureBytes.Bytes.LockedBytesStayResident` | src/crypto/secure_mem.h:309-313 | as long as a buffer is locked, whatever other buffers lock and release, every byte of its block lies on a locked page |
| `SecureBytes.Bytes.Resize` | src/crypto/secure_mem.h:671-688 | n zero bytes or, on refusal, an empty buffer; the old block is wiped first; no other registration is touched |
| `SecureBytes.Bytes.Regrow` | src/crypto/secure_mem.h:746-755 | moves the contents, wipes the old block over its capacity and releases it |
| `SecureBytes.Bytes.Reserve` | src/crypto/secure_mem.h:729-761 | the contents are preserved; a refusal changes nothing |
| `SecureBytes.Bytes.Append` | src/crypto/secure_mem.h:764-773 | concatenation, or nothing changes; fails only on size overflow or a refused block |
| `SecureBytes.Bytes.PushBack` | src/crypto/secure_mem.h:776-781 | one byte more, or nothing changes |
| `SecureBytes.Bytes.Clear` | src/crypto/secure_mem.h:786 | wiped and released; no other registration is touched |
| `VideoDecodeProtocol.StepKeepsInv` | src/media/video_decode_worker.cpp:56-378 | every step of either thread, in any order, keeps the protocol invariant |
| `VideoDecodeProtocol.EveryRunKeepsInv` | src/media/video_decode_worker.cpp:56-378 | so does every interleaving |
| `VideoDecodeProtocol.StepKeepsCount` | src/media/video_decode_worker.cpp:73-109 | `outstanding_` is the queue length plus one while the worker holds a job, so neither subtraction underflows |
| `VideoDecodeProtocol.StepKeepsPackets` | src/media/video_decode_worker.cpp:56-95 | every packet submitted is queued, held, or freed once by the worker or the render thread |
| `VideoDecodeProtocol.StepKeepsResults` | src/media/video_decode_worker.cpp:167-187 | what is published is what the finished jobs and the held one have published, in order |
| `VideoDecodeProtocol.StepKeepsOrder` | src/media/video_decode_worker.cpp:73-81 | the finished jobs, the held one and the queue are in submission order |
| `VideoDecodeProtocol.StepKeepsCodec` | src/media/video_decode_worker.cpp:306-333 | a worker that sends or drains has a codec; one that lost it while draining, before offering its packet again, has given hardware up |
| `VideoDecodeProtocol.PacketsAreFreedOnce` | src/media/video_decode_worker.cpp:66 | no packet is freed twice, and once the object is gone each has been freed |
| `VideoDecodeProtocol.EveryMarkerEndsItsStreamOnce` | src/media/video_decode_worker.cpp:181-215 | each end-of-stream marker publishes exactly one end, with its own generation, after all its frames, on every path; a packet publishes none |
| `VideoDecodeProtocol.GenerationsNeverGoBack` | src/media/video_decode_worker.cpp:117-187 | with generations submitted in nondecreasing order, results come out so |
| `VideoDecodeProtocol.StopAbandonsTheQueue` | src/media/video_decode_worker.cpp:145-165 | after stop only the held job is finished; nothing queued is started |
| `VideoDecodeSeek.SeekIsolatesIff` | src/media/video_decode_worker.cpp:83-103 | a seek to t >= 0 isolates (until the next seek, and while no frame copy fails, new jobs find only new packets in the codec, and the first frame of a new job is at t or later) exactly when the job held at that moment, if any, is out of the way: popped without a codec, with a dry codec and nothing to send, or past its frames |
| `VideoDecodeSeek.NothingOutstandingIsolates` | src/media/video_decode_worker.cpp:111-115 | what a caller can check: with `outstanding()` at 0 a seek isolates |
| `VideoDecodeSeek.SeekIsolation` | src/media/video_decode_worker.cpp:83-103 | when the seek finds no job held, every job the worker takes up, feeds to the codec or publishes for is a new one until the next seek, through retries and a reopen; and the first frame is at t or later unless a copy fails |
| `VideoDecodeSeek.OutOfTheWayIsolates` | src/media/video_decode_worker.cpp:189-304 | the good half: the held job leaves the flush and the target to the new ones |
| `VideoDecodeSeek.InTheWayBreaks` | src/media/video_decode_worker.cpp:220-272 | the bad half: from every other position of the held job there is a run whose first new frame is before t |
| `VideoDecodeSeek.OldJobStep` | src/media/video_decode_worker.cpp:189-304 | an old job out of the way stays so until it is over |
| `VideoDecodeSeek.StepKeepsIsolating` | src/media/video_decode_worker.cpp:56-378 | each step keeps what isolation rests on |
| `VideoDecodeSeek.SeekAfterPopWastesTheFlush` | src/media/video_decode_worker.cpp:145-165 | reached in the code: a seek between the pop and the flush, after which old and new packets share the codec |
| `VideoDecodeSeek.StaleFrameClearsTheTarget` | src/media/video_decode_worker.cpp:259-262 | reached in the code: a frame from before the seek clears its target, and the first frame of the new position is published although it is before t |
| `VideoDecodeSeek.FailedCopyClearsTheTarget` | src/media/video_decode_worker.cpp:262-268 | a frame that cannot be copied has cleared the target too: why copies must not fail |
| `VideoDecodeSeek.StepKeepsNewPackets` | src/media/video_decode_worker.cpp:189-215 | no step but a seek lets an old packet into the codec |
| `VideoDecodeSeek.StepKeepsTarget` | src/media/video_decode_worker.cpp:259-271 | the target guards the first new frame until it is published |
| `VideoDecodeWorker.Worker.Submit` | src/media/video_decode_worker.cpp:73-81 | one step: queued and counted |
| `VideoDecodeWorker.Worker.BeginSeek` | src/media/video_decode_worker.cpp:83-95 | one step: the queue is freed and uncounted, the target and the flush are set |
| `VideoDecodeWorker.Worker.TakeResult` | src/media/video_decode_worker.cpp:117-124 | the oldest result |
| `VideoDecodeWorker.Worker.RequestStop` | src/media/video_decode_worker.cpp:56-61 | one step |
| `VideoDecodeWorker.Worker.Destroy` | src/media/video_decode_worker.cpp:64-70 | frees what is still queued |
| `VideoDecodeWorker.Worker.WaitForJob` | src/media/video_decode_worker.cpp:145-165 | one step: none once stopped, else the oldest job |
| `VideoDecodeWorker.Worker.BeginHeldJob` | src/media/video_decode_worker.cpp:341-363 | one step: without a codec the packet is freed and the flush stays pending; else the flush is consumed and, if it was pending, the codec emptied |
| `VideoDecodeWorker.Worker.SendHeldPacket` | src/media/video_decode_worker.cpp:189-215 | accepted, or dropped once the last codec it could be offered to has answered, and a marker still ends its stream |
| `VideoDecodeWorker.Worker.OfferPacket` | src/media/video_decode_worker.cpp:191-200 | a full codec is drained and asked again |
| `VideoDecodeWorker.Worker.ActOnAnswer` | src/media/video_decode_worker.cpp:201-214 | reopen and resend after a hardware failure; the packet is freed once its last answer is there, and the calls made keep the codec laws |
| `VideoDecodeWorker.Worker.DecodeAvailableFrames` | src/media/video_decode_worker.cpp:274-304 | drains the codec; a marker ends its stream on every way out |
| `VideoDecodeWorker.Worker.ReceiveOne` | src/media/video_decode_worker.cpp:276-299 | one step: one answer of the codec |
| `VideoDecodeWorker.Worker.PublishDecodedFrame` | src/media/video_decode_worker.cpp:220-272 | publishes this frame with its job's generation, or skips it at the check or for want of a copy and publishes nothing |
| `VideoDecodeWorker.Worker.CheckSeekTarget` | src/media/video_decode_worker.cpp:259-261 | one step: passes unless there is a target and the frame is before it |
| `VideoDecodeWorker.Worker.ClearSeekTarget` | src/media/video_decode_worker.cpp:262 | one step: the target is -1 |
| `VideoDecodeWorker.Worker.CopyAndPublish` | src/media/video_decode_worker.cpp:264-271 | one step: the frame is appended to the results, or nothing is when the copy fails |
| `VideoDecodeWorker.Worker.PublishEofResult` | src/media/video_decode_worker.cpp:181-187 | one step: one end of stream, with the job's generation |
| `VideoDecodeWorker.Worker.FinishedJob` | src/media/video_decode_worker.cpp:105-109 | one step: one job fewer outstanding |
| `VideoDecodeWorker.Worker.RunRound` | src/media/video_decode_worker.cpp:337-377 | one round of the loop |
| `VideoDecodeWorker.Worker.Run` | src/media/video_decode_worker.cpp:335-378 | every execution, with the render thread free to act at each lock boundary, is a run of the protocol, and its calls to the codec obey the codec laws |
| `VideoCodecLog.HardwareFailuresAreRetried` | src/media/video_decode_worker.cpp:201-215 | in every log of a worker at rest, a packet the hardware codec fails on is, after one reopen that succeeds, offered once more, and that answer decides; if it does not succeed the packet is let go |
| `VideoCodecLog.HardErrorsReopen` | src/media/video_decode_worker.cpp:282-298 | a hard error while fetching frames from hardware is followed by a reopen |
| `VideoCodecLog.ReopensAtMostOnce` | src/media/video_decode_worker.cpp:312-333 | nothing else is, and a worker reopens at most once |
| `VideoCodecLog.LetGoIsSettled` | src/media/video_decode_worker.cpp:189-215 | a packet is freed, and a marker given up, only when the call before was its offer and the answer settles it (accepted, or refused with no hardware to give up; when the codec was only full, not the first offer), or there is no codec |
| `VideoCodecLog.FedIsAccepted` | src/media/video_decode_worker.cpp:189-215 | the packets in the codec are those it accepted since it was last flushed or reopened |
| `VideoCodecLog.LetGoAfterAnswer` | src/media/video_decode_worker.cpp:208-214 | freeing the packet after the last answer keeps the worker's own record true |
| `VideoDecodeWorker.Worker.RetryInSoftware` | src/media/video_decode_worker.cpp:204-207 | after a failure on hardware the same packet is offered to the software codec |
| `VideoDecodeWorker.Worker.FreeAndSettle` | src/media/video_decode_worker.cpp:208-214 | the packet is freed; accepted, it is in the codec |
| `VideoDecodeWorker.Worker.CodecIsServedRight` | src/media/video_decode_worker.cpp:189-333 | what the calls to the codec of any worker at rest obey: the five laws of `VideoCodecLog` |
| `VideoObjectSource.OneMoreRequest` | src/media/video_object_source.cpp:59-95 | one more request decrypts its frame exactly on a miss of the two-frame cache |
| `VideoObjectSource.ForwardScanDecryptsOnce` | src/media/video_object_source.cpp:59-95 | requests that never step back decrypt no frame twice |
| `VideoObjectSource.ObjectSource.FindSlot` | src/media/video_object_source.cpp:61-66 | the slot that holds the frame, if one does |
| `VideoObjectSource.ObjectSource.LoadFrame` | src/media/video_object_source.cpp:59-95 | the frame as the object has it, moved to the front of the recency order; a miss gives up the older; none exactly when the frame does not authenticate |
| `VideoObjectSource.ObjectSource.FillOlder` | src/media/video_object_source.cpp:67-94 | a miss replaces the older frame; a failed one leaves the newer |
| `VideoObjectSource.ObjectSource.Read` | src/media/video_object_source.cpp:97-130 | exactly the bytes of the plaintext; -1 exactly when cancelled or when a frame it needs does not authenticate |
| `VideoObjectSource.ObjectSource.ReadPiece` | src/media/video_object_source.cpp:116-126 | one round of the copy loop |
| `VideoObjectSource.ObjectSource.ReadForward` | src/media/video_object_source.cpp:97-130 | a reader that never seeks decrypts each frame once |
| `VideoObjectSource.ObjectSource.Cancel` | src/media/video_object_source.cpp:132-140 | cancelled, no entry valid and no bytes kept |
| `VideoObjectSource.ObjectSource.ClearCache` | src/media/video_object_source.cpp:50-57 | no entry valid and no bytes kept |
| `VideoSource.Source.FillOne` | src/media/video_source.cpp:28-53 | the rest of the chunk, from the one-chunk cache or freshly decrypted; writes nothing outside its range even for a table that does not fit |
| `VideoSource.Source.ReadChunks` | src/media/video_source.cpp:58-67 | exactly the bytes of the plaintext; -1 exactly when a chunk it needs does not authenticate |
| `VideoSource.Source.Read` | src/media/video_source.cpp:55-68 | the same through either backend |
| `FramedBytes.InPiece` | src/media/video_object_source.cpp:116-124 | position / limit and position % limit find a byte in its piece, and the rest of the piece follows it |
| `FramedBytes.DeliverMore` | src/media/video_object_source.cpp:125-126 | consecutive copies join into one range of the plaintext |
| `FramedBytes.CoverMore` | src/media/video_object_source.cpp:110-127 | a copied piece extends the range known to authenticate |
| `Avio.MemAvio.ReadCb` | src/media/mem_avio.cpp:36-50 | the plain reader's answer, bytes and position |
| `Avio.MemAvio.SeekCb` | src/media/mem_avio.cpp:52-75 | where a seek lands from each of the three origins, what it answers, when it is refused and moves nothing, and the size query |
| `Avio.ChunkAvio.ReadCb` | src/media/chunk_avio.cpp:40-50 | what the plain reader answers; EIO, unmoved, exactly when cancelled or a piece does not authenticate |
| `Avio.ChunkAvio.SeekCb` | src/media/chunk_avio.cpp:52-75 | the same |
| `Avio.Lockstep` | src/media/chunk_avio.cpp:40-75 | any sequence of reads and seeks gets the same codes, bytes and positions from both readers, up to a read that cannot be authenticated |
| `Avio.SequentialReadsGiveTheFile` | src/media/mem_avio.cpp:36-50 | reads of any sizes, one after another, join to the plaintext; told the end, one has seen all of it |
| `Avio.SeeksGoThere` | src/media/mem_avio.cpp:52-75 | from the start and from the end a seek lands at that distance and from here it moves by it; before the start, or from another origin, EINVAL, unmoved; the size query is answered and moves nothing |
| `Avio.ReadsGiveAll` | src/media/mem_avio.cpp:36-50 | a read gives as much as is asked for and there, and the end of file only where nothing is |
| `Avio.SeekFromEndThenRead` | src/media/mem_avio.cpp:36-75 | in any run of either reader, a seek to k bytes before the end and a read give the last k bytes |
| `Avio.SeekFromStartThenRead` | src/media/mem_avio.cpp:36-75 | a seek to o and a read give the bytes from o on |
| `Avio.SeekFromHereThenRead` | src/media/mem_avio.cpp:36-75 | a relative seek between two reads skips or repeats exactly that many bytes |
| `TextureCache.Inclusion` | src/gfx/texture_cache.cpp:24-81 | with budgets b1 <= b2, the same textures shown and one size a key, the smaller cache's recency list is always the start of the larger's |
| `TextureCache.MoreBudgetNeverMissesMore` | src/gfx/texture_cache.cpp:56-81 | so a hit in the small cache is one in the large, and a larger budget never uploads more |
| `TextureCache.ShowKeepsInclusion` | src/gfx/texture_cache.cpp:56-81 | one lookup keeps the inclusion |
| `TextureCache.LookupKeepsInclusionIff` | src/gfx/texture_cache.cpp:43-49 | a lookup that does not upload keeps it exactly when both hold the key, neither does, or the smaller is empty |
| `TextureCache.KeepsTheLongestPrefix` | src/gfx/texture_cache.cpp:30-41 | eviction keeps the longest recency prefix that fits beside the incoming bytes |
| `TextureCache.PromotedWeighsTheSame` | src/gfx/texture_cache.cpp:24-28 | moving to the front changes no total |
| `TextureCache.ListedWereShown` | src/gfx/texture_cache.cpp:77-80 | every entry listed was shown with that size |
| `TextureCache.PromotedIndexed` | src/gfx/texture_cache.cpp:24-28 | moving to the front keeps list and index in agreement |
| `TextureCache.PushFirstIndexed` | src/gfx/texture_cache.cpp:77-78 | so does a new entry in front |
| `TextureCache.DropLastIndexed` | src/gfx/texture_cache.cpp:35-39 | and dropping the last |
| `TextureCache.DestroyBalances` | src/gfx/texture_cache.cpp:36 | destroying a live texture keeps each texture destroyed once or listed once |
| `TextureCache.Cache.Clear` | src/gfx/texture_cache.cpp:15-22 | empty, and every texture ever made is destroyed once |
| `TextureCache.Cache.Touch` | src/gfx/texture_cache.cpp:24-28 | the entry goes to the front |
| `TextureCache.Cache.EvictFor` | src/gfx/texture_cache.cpp:30-41 | what stays are the same entries, the longest recency prefix of them that fits, or none |
| `TextureCache.Cache.EvictOne` | src/gfx/texture_cache.cpp:35-39 | the last entry, its texture and its index entry |
| `TextureCache.Cache.Get` | src/gfx/texture_cache.cpp:43-49 | the texture, moved to the front, exactly when the key is listed |
| `TextureCache.Cache.Upload` | src/gfx/texture_cache.cpp:64-71 | a new texture; one that could not be filled is destroyed |
| `TextureCache.Cache.Insert` | src/gfx/texture_cache.cpp:74-80 | the texture goes to the front, and behind it the entries that fit, unchanged |
| `TextureCache.Cache.GetOrUpload` | src/gfx/texture_cache.cpp:56-81 | a hit, or a well-formed image that uploads, at four bytes a pixel; the answer is the live texture last filled with this key's picture; the other entries are old ones unchanged; a hit makes nothing and an answered miss exactly one texture |
| `TextureCache.ShowAll` | src/gfx/texture_cache.cpp:24-81 | over any run of requests every answer is the texture last filled with that key's picture; when all are answered the textures filled are exactly the misses of the recency list |
| `TextureCache.PicturedAnew` | src/gfx/texture_cache.cpp:77-78 | a new entry keeps every entry with the latest picture of its own key |
| `TextureCache.PicturedPromoted` | src/gfx/texture_cache.cpp:24-28 | so does moving one to the front |
| `TextureCache.ListedIsLive` | src/gfx/texture_cache.cpp:30-41 | a listed texture was made and is not destroyed |
| `ByteIo.IntRoundTrip` | src/vault/byte_io.h:82-86 | an integer that fits comes back from its little-endian bytes |
| `ByteIo.BytesRoundTrip` | src/vault/byte_io.h:143-154 | bytes come back from the integer they spell |
| `ByteIo.ShortIntegers` | src/vault/byte_io.h:82-86 | the two- and four-byte forms written out, least significant byte first |
| `ByteIo.ByteWriter.Int` | src/vault/byte_io.h:82-86 | the loop appends the little-endian bytes |
| `ByteIo.ByteReader.Need` | src/vault/byte_io.h:136-141 | latches the first short read |
| `ByteIo.ByteReader.Int` | src/vault/byte_io.h:143-154 | the little-endian integer, or 0 once latched |
| `ByteIo.ByteReader.Raw` | src/vault/byte_io.h:128-133 | the next bytes, or latched |
| `SearchCodec.UncutIff` | src/ui/advanced_search_model.cpp:97-106 | saving cuts nothing exactly from a query in which no list has over 4096 entries and no string over 65535 bytes |
| `SearchCodec.RoundTrip` | src/ui/advanced_search_model.cpp:189-243 | a query saved and loaded is itself with lists cut at 4096 and strings at 65535 bytes; itself exactly when within those limits |
| `SearchCodec.CutKeepsTheStart` | src/ui/advanced_search_model.cpp:97-106 | what stays of a list or string that is cut are its first 4096 entries or 65535 bytes; weights, combinators and the scope are kept |
| `SearchCodec.OneOfEach` | src/ui/advanced_search_model.cpp:189-224 | the bytes of a query with one of everything, whatever the strings and the weight, in the order written |
| `SearchCodec.OtherBytes` | src/ui/advanced_search_model.cpp:133-137 | 1 means Or and any other byte And; 0 images, 1 galleries and any other byte both |
| `SearchCodec.ParseUndoesPrint` | src/ui/advanced_search_model.cpp:226-243 | a printed query parses to itself |
| `SearchCodec.PrintUndoesParse` | src/ui/advanced_search_model.cpp:226-243 | the blobs accepted are exactly the printed queries within the limits; trailing bytes are refused |
| `SearchCodec.AcceptedReencodes` | src/ui/advanced_search_model.cpp:133-137 | an accepted blob re-encodes to one of the same length that decodes to the same query; they differ in combinator and scope bytes only, and are equal exactly when those were canonical |
| `SearchCodec.ItemsUndo` | src/ui/advanced_search_model.cpp:197-217 | a list parses back item by item when its items do |
| `SearchCodec.ItemsExact` | src/ui/advanced_search_model.cpp:120-167 | what parses as a list was printed from its items |
| `SearchCodec.StringCodec` | src/ui/advanced_search_model.cpp:101-118 | strings |
| `SearchCodec.WeightedCodec` | src/ui/advanced_search_model.cpp:139-152 | weighted tags, the weight as a two's complement number |
| `SearchCodec.GroupCodec` | src/ui/advanced_search_model.cpp:154-167 | groups, any combinator byte |
| `SearchCodec.WriteString` | src/ui/advanced_search_model.cpp:101-106 | length and bytes, cut at 65535 |
| `SearchCodec.WriteStrings` | src/ui/advanced_search_model.cpp:203-206 | a list of strings, cut at 4096 |
| `SearchCodec.WriteIncludes` | src/ui/advanced_search_model.cpp:195-201 | the weighted list, cut at 4096 |
| `SearchCodec.WriteGroups` | src/ui/advanced_search_model.cpp:208-218 | the groups, cut at 4096 |
| `SearchCodec.SerializeQuery` | src/ui/advanced_search_model.cpp:189-224 | writes the encoding |
| `SearchCodec.ReadString` | src/ui/advanced_search_model.cpp:108-118 | succeeds exactly on a whole string |
| `SearchCodec.ReadStringList` | src/ui/advanced_search_model.cpp:120-131 | succeeds exactly on a whole list of at most 4096 |
| `SearchCodec.ReadCombinator` | src/ui/advanced_search_model.cpp:133-137 | 1 is Or, every other byte And |
| `SearchCodec.ReadWeightedList` | src/ui/advanced_search_model.cpp:139-152 | succeeds exactly on a whole list |
| `SearchCodec.ReadGroups` | src/ui/advanced_search_model.cpp:154-167 | succeeds exactly on a whole list |
| `SearchCodec.DeserializeQuery` | src/ui/advanced_search_model.cpp:226-243 | succeeds exactly on the blobs that decode, with the query they decode to |
| `Utf8.NextCodepoint` | src/gfx/text.cpp:51-76 | the bit tests and the continuation loop accept exactly the byte sequences of section 4 of RFC 3629; otherwise one byte is consumed |
| `Utf8.CharByBits` | src/gfx/text.cpp:56-73 | past a lead byte, a character is continuation bytes whose value is neither overlong, a surrogate nor out of range |
| `Utf8.CharIsEncoding` | src/gfx/text.cpp:51-76 | a character of that table stands for a scalar exactly when the encoder of section 3 makes it from it |
| `Utf8.CharLengthIsUnique` | src/gfx/text.cpp:51-76 | no character begins another |
| `Utf8.DecodesExactlyEncodings` | src/gfx/text.cpp:51-76 | the decoder yields a scalar exactly where its encoding stands, so no overlong form aliases one |
| `Utf8.EncodedDecodes` | src/gfx/text.cpp:51-76 | any sequence of scalars, encoded, decodes to itself |
| `Utf8.WellFormedIsEncoded` | src/gfx/text.cpp:51-76 | well-formed text is what encoding its scalars gives |
| `Utf8.DecodesInParts` | src/gfx/text.cpp:226 | decoding a concatenation is decoding the parts exactly when no character straddles the seam |
| `Utf8.NothingStraddles` | src/gfx/text.cpp:226 | none does after well-formed text, nor before a byte that is no continuation byte |
| `FontAtlas.ExactGlyphFor` | src/gfx/text.cpp:80-87 | table and binary search find what looking at every entry finds |
| `FontAtlas.LowerBound` | src/gfx/text.cpp:85 | the first entry not below the code point |
| `FontAtlas.FirstAt` | src/gfx/text.cpp:85-86 | in a sorted table that is the entry for it, if there is one |
| `FontAtlas.GlyphFor` | src/gfx/text.cpp:89-93 | its own glyph, else that of '?' |
| `FontAtlas.DrawnByTheTables` | src/gfx/text.cpp:80-93 | printable ASCII by its place after the space; another code point by its first entry; one with none as the glyph 31 places after the space |
| `FontAtlas.WidthOfOne` | src/gfx/text.cpp:220-231 | one character is as wide as its own glyph says |
| `FontAtlas.AlwaysDrawn` | src/gfx/text.cpp:89-93 | a baked atlas draws something for every code point |
| `FontAtlas.HasGlyphFor` | src/gfx/text.cpp:95-103 | exactly when the text is well-formed and every scalar has its own glyph |
| `FontAtlas.Measure` | src/gfx/text.cpp:220-231 | the sum of the advances of the code points decoded |
| `FontAtlas.MeasureIsAdditive` | src/gfx/text.cpp:223-230 | widths add up over a split that no character straddles |
| `FontAtlas.AdditiveForAllIff` | src/gfx/text.cpp:223-230 | they add up for every atlas exactly then; the comment's "exactly additive" does not hold of a split inside a character |
| `FontAtlas.CutAccentMeasuresWider` | src/gfx/text.cpp:223-230 | such a split: an e acute cut between its two bytes measures wider in parts |
| `FontAtlas.SplitLoses` | src/gfx/text.cpp:61-67 | a straddling character falls apart into more code points |
| `GifAnimation.AnimatedIff` | src/image/anim_info.cpp:68-123 | on arbitrary bytes true exactly when they begin with a header, blocks with one image among them and the start of a second image (GIF89a, sections 15 to 22) |
| `GifAnimation.PrintedGif` | src/image/anim_info.cpp:68-123 | a whole GIF with any extensions, colour tables and bytes after its trailer (section 27) is animated exactly when it has two images or more |
| `GifAnimation.WalkOverBlocks` | src/image/anim_info.cpp:95-120 | walking over whole blocks only counts the images |
| `GifAnimation.WalkFindsBlocks` | src/image/anim_info.cpp:95-120 | a walk that comes to a second image has passed whole blocks |
| `GifAnimation.SubsUndone` | src/image/anim_info.cpp:42-51 | a printed chain of sub-blocks is skipped whole |
| `GifAnimation.SubsExact` | src/image/anim_info.cpp:42-51 | what is skipped was such a chain |
| `GifAnimation.ImageUndone` | src/image/anim_info.cpp:109-116 | an image block is skipped whole |
| `GifAnimation.ImageExact` | src/image/anim_info.cpp:109-116 | what is skipped was an image block |
| `GifAnimation.ExtensionUndone` | src/image/anim_info.cpp:102-104 | an extension is skipped whole |
| `GifAnimation.ExtensionExact` | src/image/anim_info.cpp:102-104 | what is skipped was an extension |
| `GifAnimation.HeaderExact` | src/image/anim_info.cpp:72-93 | what is taken for a header is one |
| `GifAnimation.Cursor.U8` | src/image/anim_info.cpp:18-22 | the next byte; never past the end |
| `GifAnimation.Cursor.Skip` | src/image/anim_info.cpp:24-28 | forward; never past the end |
| `GifAnimation.SkipSubBlocks` | src/image/anim_info.cpp:42-51 | to the end of the chain |
| `GifAnimation.SkipColourTable` | src/image/anim_info.cpp:55-64 | moves by nothing when the field is below 128, else by 6, 12, 24 and so on to 768 bytes by its low three bits, or past the end and latched |
| `GifAnimation.TableOnBits` | src/image/anim_info.cpp:53-64 | a table of 3 * 2^(N+1) bytes when bit 7 is set, N being the low three bits, else none |
| `GifAnimation.TwoFramesWithFullPalette` | src/image/anim_info.cpp:68-123 | byte for byte: a screen with any full palette, a delay, an image with a palette of its own and the start of another is animated; without the other it is not |
| `GifAnimation.SkipImage` | src/image/anim_info.cpp:109-116 | to the end of the image block |
| `GifAnimation.SkipHeader` | src/image/anim_info.cpp:72-93 | to the first block |
| `GifAnimation.GifIsAnimated` | src/image/anim_info.cpp:68-123 | answers as `AnimatedIff` says |
| `ArchiveReader.Reader.ScanEntries` | src/ui/archive_reader.cpp:146-171 | lists every entry, refusing a broken archive and one with too many |
| `ArchiveReader.Reader.Open` | src/ui/archive_reader.cpp:187-230 | succeeds exactly on a readable archive, with no stream left open |
| `ArchiveReader.Reader.Extract` | src/ui/archive_reader.cpp:232-313 | from any state of the cursor the same as opening anew and scanning to the entry; opens a stream only when there is none or it is past the entry |
| `ArchiveReader.Reader.ScanTo` | src/ui/archive_reader.cpp:269-277 | reads the headers from the cursor to the entry |
| `ArchiveReader.Reader.ReadMember` | src/ui/archive_reader.cpp:102-142 | declared size, data and the probe past its end, which shows a damaged one |
| `ArchiveReader.ExtractedIff` | src/ui/archive_reader.cpp:102-142 | an entry comes out exactly when its declared size is in bounds and can be had, that many bytes are there and no error follows them; it is those bytes; a password is asked for exactly when the data breaks off over one |
| `ArchiveReader.ExtractsEntries` | src/ui/archive_reader.cpp:232-313 | nothing comes out for a missing entry or a directory, and a sound entry comes out whole |
| `ArchiveReader.Stream.NextHeader` | src/ui/archive_reader.cpp:271-273 | the handle: one header on |
| `ArchiveReader.Stream.ReadData` | src/ui/archive_reader.cpp:118-126 | the handle: some of the data left |
| `ArchiveReader.AscendingTakesOneStream` | src/ui/archive_reader.cpp:243-259 | going forward takes one stream |
| `ArchiveReader.ExtractNext` | src/ui/archive_reader.cpp:232-313 | one more extraction keeps the counts |
| `ArchiveReader.ExtractAll` | src/ui/archive_reader.cpp:232-313 | whatever is extracted in whatever order, each result is that of a fresh scan; while all succeed the streams opened are one and one more for each step not forward, and going forward reads each header once |
| `ArchiveReaderCache.ServesTheRightArchive` | src/ui/archive_reader_cache.cpp:7-27 | while no buffer is freed with its reader cached, a reader served is always of the buffer asked about |
| `ArchiveReaderCache.StepStaysFaithfulIff` | src/ui/archive_reader_cache.cpp:7-27 | each step keeps every cached reader that of the live buffer it is filed under, exactly when it does not free a buffer with its reader cached |
| `ArchiveReaderCache.OpenedOncePerDrop` | src/ui/archive_reader_cache.cpp:7-27 | between two drops an archive is opened at most once, however often its reader is asked for |
| `ArchiveReaderCache.OpensAreBounded` | src/ui/archive_reader_cache.h:42-46 | so an import that drops each archive once opens no more readers than it meets archives |
| `ArchiveReaderCache.StaleReaderWithoutDrop` | src/ui/archive_reader_cache.h:9-14 | without the discipline a reader of a freed archive is served for another at its address |
| `ArchiveReaderCache.Cache.Get` | src/ui/archive_reader_cache.cpp:7-22 | the cached reader, or a new one; failures are not cached |
| `ArchiveReaderCache.Cache.Drop` | src/ui/archive_reader_cache.cpp:24-27 | forgets the reader |
| `ImageDecodeProtocol.StepKeepsInv` | src/image/decode_worker.cpp:25-133 | every step of either thread keeps the invariant |
| `ImageDecodeProtocol.EveryRunKeepsInv` | src/image/decode_worker.cpp:25-133 | so does every interleaving |
| `ImageDecodeProtocol.KeysAreDistinct` | src/image/decode_worker.cpp:36-54 | the keys queued, being decoded and done are pairwise distinct and in flight |
| `ImageDecodeProtocol.EachSubmissionOnce` | src/image/decode_worker.cpp:62-80 | each accepted submission is at any time in exactly one place: queued, held, done, dropped while queued, or taken |
| `ImageDecodeProtocol.StopDrainsTheQueue` | src/image/decode_worker.cpp:104-114 | after stop everything pending is decoded, in order, before the worker leaves |
| `ImageDecodeProtocol.SubmitKeepsInv` | src/image/decode_worker.cpp:36-54 | a key in flight is not queued again |
| `ImageDecodeProtocol.RetainKeepsInv` | src/image/decode_worker.cpp:72-80 | what `retain` forgets leaves the queue and the keys in flight together |
| `ImageDecodeProtocol.TakeKeepsInv` | src/image/decode_worker.cpp:62-70 | a key leaves with its result |
| `ImageDecodeProtocol.PopKeepsInv` | src/image/decode_worker.cpp:110-114 | a popped job stays in flight |
| `ImageDecodeProtocol.PublishKeepsInv` | src/image/decode_worker.cpp:82-126 | a published one too |
| `ImageDecodeProtocol.RetainSplits` | src/image/decode_worker.cpp:75-79 | what `retain` keeps and what it forgets make up the queue, by key |
| `ImageDecodeWorker.Worker.Submit` | src/image/decode_worker.cpp:36-54 | one step: queued, or nothing when the key is in flight |
| `ImageDecodeWorker.Worker.Pending` | src/image/decode_worker.cpp:56-60 | exactly when the key is queued, being decoded or done |
| `ImageDecodeWorker.Worker.TakeResult` | src/image/decode_worker.cpp:62-70 | the newest result |
| `ImageDecodeWorker.Worker.Retain` | src/image/decode_worker.cpp:72-80 | one step |
| `ImageDecodeWorker.Worker.WaitForJob` | src/image/decode_worker.cpp:109-114 | the oldest job; none once stopped and drained |
| `ImageDecodeWorker.Worker.RunFetchStage` | src/image/decode_worker.cpp:82-102 | the bytes; or none, and then the job's empty result has been appended |
| `ImageDecodeWorker.Worker.PublishResult` | src/image/decode_worker.cpp:123-126 | one step: the job's result is appended, of its own bytes |
| `ImageDecodeWorker.Worker.FetchBytes` | src/image/decode_worker.cpp:84-87 | what the fetch for this job gave is on record |
| `ImageDecodeWorker.Worker.Run` | src/image/decode_worker.cpp:104-133 | every execution, with the render thread free to act at each lock boundary, is a run of the protocol; every result is the decoder's verdict on its own job's bytes, handed in or fetched for it |
| `BatchDelete.PruneDescendantPaths` | src/ui/batch_delete.cpp:14-30 | exactly the paths that lie inside none of the others, in order |
| `BatchDelete.OutermostIs` | src/ui/batch_delete.cpp:18-28 | membership in that list |
| `BatchDelete.OrderIsKept` | src/ui/batch_delete.cpp:18-28 | the paths kept stand in the order they were selected |
| `BatchDelete.KeptExactly` | src/ui/batch_delete.cpp:18-28 | each selection is kept exactly when it lies inside none of the others, duplicates included |
| `BatchDelete.EveryPathIsCovered` | src/ui/batch_delete.cpp:14-30 | every path selected is kept or lies inside one that is |
| `BatchDelete.NothingKeptIsInside` | src/ui/batch_delete.cpp:14-30 | nothing kept lies inside a path selected |
| `BatchDelete.PruningIsIdempotent` | src/ui/batch_delete.cpp:14-30 | pruning again changes nothing |
| `BatchDelete.CountSubtree` | src/ui/delete_summary.cpp:10-17 | adds everything below the node to the accumulator |
| `BatchDelete.TallyCountsPlaces` | src/ui/delete_summary.cpp:10-17 | a subtree's tally is the number of its nodes |
| `BatchDelete.SummarizeBatchDelete` | src/ui/batch_delete.cpp:32-55 | the tallies of the resolved subtrees, added up; the items are galleries, images and videos together |
| `BatchDelete.TotalCountsRemoved` | src/ui/batch_delete.cpp:35-53 | the items are at least the nodes removed, and as many exactly when no target lies at or under another |
| `BatchDelete.TallySumsPlaces` | src/ui/delete_summary.cpp:10-17 | a subtree's tally is the number of its galleries, of its images, of its videos, and the sum of its media's bytes |
| `BatchDelete.TotalSumsRemoved` | src/ui/batch_delete.cpp:35-53 | the summary is so too when no target lies at or under another |
| `BatchDelete.PrunedTallyIsExact` | src/ui/batch_delete.cpp:14-55 | for distinct canonical paths, pruned, each node that goes is counted once, kind by kind, and its bytes once |
| `BatchDelete.TrailingSlashCountsTwice` | src/ui/batch_delete.cpp:21-22 | otherwise not: a path and the same path with a separator after it both survive pruning and are counted twice |
| `BatchDelete.BelowMeansInside` | src/vault/vault_ops.h:71-96 | of two canonical paths that resolve, one place is under the other only when one path is inside the other |
| `BatchDelete.InsideIff` | src/ui/batch_delete.cpp:14-30 | one canonical path is inside another exactly when its names go on from all of the other's |
| `BatchDelete.SplitUndoesJoin` | src/vault/vault_ops.cpp:10-21 | names joined by separators split into those names |
| `BatchDelete.SplitAtSeparator` | src/vault/vault_ops.cpp:10-21 | a separator parts the names before it from those after it |
| `BatchDelete.EveryPlaceResolves` | src/vault/vault_ops.h:71-96 | where no two children share a name, every place is found by the names along the way to it |
| `BatchDelete.ResolvedPlace` | src/vault/vault_ops.h:71-96 | a resolved place is reached by the names of the path, through galleries |
| `BatchDelete.TrailingSlash` | src/vault/vault_ops.cpp:10-21 | empty segments are skipped |
| `AtomicFile.CandidatesAreDistinct` | src/platform/atomic_file.cpp:53-63 | no two attempts try the same name |
| `AtomicFile.DecimalIsInjective` | src/platform/atomic_file.cpp:62 | numbers print differently |
| `AtomicFile.DecimalReads` | src/platform/atomic_file.cpp:62 | in decimal digits that stand for them, without leading zeros |
| `AtomicFile.SuffixBeforeExtension` | src/platform/atomic_file.cpp:53-63 | the suffix goes before what follows the last dot, when there is something on both sides of it |
| `AtomicFile.SuffixAtTheEnd` | src/platform/atomic_file.cpp:53-63 | a name without a dot, with one only in front or with one at the end gets it at its end |
| `AtomicFile.ManyCandidates` | src/platform/atomic_file.cpp:171-205 | a directory that holds n candidates holds n names |
| `AtomicFile.AllTakenMet` | src/platform/atomic_file.cpp:177-204 | as many names are met as candidates are found taken |
| `AtomicFile.OutputDirectory.OpenatCreat` | src/platform/atomic_file.cpp:95-118 | takes a name only when nothing has it |
| `AtomicFile.OutputDirectory.Try` | src/platform/atomic_file.cpp:180-202 | claims the candidate, finds it taken, or stops; something is removed only after the stream could not be opened, and it is an entry the call did not make exactly when another process had put its own in that place |
| `AtomicFile.OutputDirectory.CreateFile` | src/platform/atomic_file.cpp:171-205 | claims the first candidate free at its own attempt, whatever others do in between; giving up without another failure means more than ten thousand names were met; what it did to the directory, and to whose entry, is exact |
| `AtomicFile.SparesOthersIff` | src/platform/atomic_file.cpp:184-191 | an attempt alters an entry it did not make exactly when the stream could not be opened, the last thing another process did to the name was to place its own file there, and the removal went through |
| `AtomicFile.ReplacedFileIsRemoved` | src/platform/atomic_file.cpp:184-191 | such a run, for any free name: the removal takes another process's file, which create_directory takes care not to do (lines 166-167) |
| `AtomicFile.LookAfterOthers` | src/platform/atomic_file.cpp:184-189 | what has a name after others have acted is decided by the last of them to touch it |

## Left out

- Page locks: `madvise` and the per-page counter read by tests; pages are named by index (address / page size); a count never reaches SIZE_MAX.
- PageLock.PageLockRegistry.OsUnlockRange: unlocking pages that are mapped and counted is taken to succeed; the code ignores the result.
- SecureBytes: the copy and move operations, `assign`, `fill`, and `append` from a null span or from a view of the buffer itself. The allocator is taken to refuse blocks over half the address space, as PTRDIFF_MAX makes it.
- VideoDecodeSeek.SeekIsolatesIff: the codec is abstract, so any number of frames may follow any accepted packet or marker, also a marker sent to an empty codec; a negative target means none and is not asked about.
- Video decode worker: pixel conversion, deinterlacing, hardware frame transfer and the wake event; a codec is an abstract machine with finite output; `wait_result` is `take_result` after a wait; `outstanding_` and generations do not wrap.
- Byte streams: the cryptography (a frame or chunk authenticates or does not, and always the same way), the diagnostic log line, the avio context and its buffer, byte sources other than the two modelled, and positions near INT64_MAX, where the seek sum would overflow.
- VideoSource.Source.Read: a chunk table that does not fit the declared length (chunks longer than the chunk size, missing ones) is shown only to keep the copy inside its range; which of its bytes are delivered is left open.
- VideoSource.Source.ReadChunks: the same.
- TextureCache: byte totals do not wrap; a texture handle is a serial number.
- Search model: `evaluate`, `tag_suggestions` and the cursor helpers, which would only add easy members.
- Font atlas: `bake`, glyph rectangles, geometry and drawing; an advance is already rounded.
- Animated images: `webp_is_animated` and `is_animated`, which delegate.
- ArchiveReader: the 7-Zip backend, entry names, multi-volume files and passphrases; the archive gives the same headers and data on every pass, and extracting one entry does not change another's outcome.
- ArchiveReaderCache: the import walker itself, which is represented by its events.
- Image decode worker: the decoder is a function of the bytes; the wake event.
- Batch delete: sizes and counts do not wrap; the confirm dialog and its texts. Duplicate paths are counted as often as they are selected.
- Atomic files: permissions, `openat2` and its fallback, `create_directory` (the same scheme without an extension), and what is written to the file. Names over the file system's own limit are one of the other failures.
