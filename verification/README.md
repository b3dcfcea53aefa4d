# Guest kernel modules: a verified model

This project models the protocols and resource managers inside the guest's kernel modules and
proves what they keep. The host is an environment that may do anything, except for the few things a
theorem names.

| File | What it models |
|---|---|
| MachineTypes.dfy | machine integers, page size and error numbers shared by the models |
| ToolgateProtocol.dfy | the life of a toolgate request as a state machine over requesters, host, interrupt, bottom half and suspend canceller |
| ToolgateCancel.dfy | what the suspend canceller achieves over whole runs |
| ToolgateProgress.dfy | that every request can be brought to its completion and its release |
| RequestSizing.dfy | how large a paged request is, a fixpoint over its own page indices |
| RequestLayout.dfy | where the parts of a request lie |
| RequestMapping.dfy | pinning, mapping, building and undoing a request in place |
| RingGeometry.dfy | the arithmetic of the two network rings |
| SendRing.dfy | the transmit ring on its bytes, with a concurrent host, and the driver's transmit call |
| ReceiveRing.dfy | the receive ring and the interrupt's receive loop |
| DirtyBounds.dfy | the compare-and-swap rectangle of changed pixels |
| BufferRefs.dfy | reference counts of drawable buffers under any interleaving |
| DrawableTable.dfy | the hash table of drawables against a flat map |
| Aperture.dfy | the best-fit aperture allocator |
| GemObjects.dfy | graphics buffers, and the books that must agree with them |
| Images.dfy | images shared between files |
| Directory.dfy | the directory record format, its parser and the paging loop |
| SharedHandle.dfy | the host handle shared by all opens of a file |

Concurrent parts (ToolgateProtocol with its two companions, BufferRefs, DirtyBounds) are step relations: one event is one
atomic access, one step of a locked section, or one call into the host, and theorems range over all
sequences of events. Sequential parts are classes and methods with the source's fields and loops,
verified against functions and invariants. In SendRing the host's progress between the guest's
accesses is a parameter of each call. Allocation failures, host answers, user refusals and DMA
failures are parameters or nondeterministic results; machine integers wrap where the code lets them.

Where the code does not keep what one would expect, the model keeps the code and states exactly when
it does: the restart race (`ToolgateProtocol.HostFinishedIffNotRestarted`), the 32-bit size test
(`RequestSizing.GuardExactIff`), the error paths inside one buffer and of a failed submit
(`RequestMapping.CallSync`, `RequestMapping.Request.UndoKernel`, `RequestMapping.Request.UndoUser`),
full updates of framebuffers of different sizes or beside clips outside (`DirtyBounds.LosslessIff`), null
answers of the kernel's allocator
(`GemObjects.Device.Create`), the size of very large pictures (`GemObjects.SizeCoversIff`), a failing
page-cache refresh (`SharedHandle.Inode.Open`) and the access of a first open
(`SharedHandle.PermittedOpenServedIff`). A buffer for which no slot of video
memory is left is answered with a null object, not with an error, as the code does. A comment
numbers the slots up to 64; the code has 128, and so does the model.

## Model

| member | source | states |
|---|---|---|
| `ToolgateProtocol.StepKeepsInv` | kmods-src/prl_tg/Toolgate/Guest/Linux/prl_tg/prltg_call.c:369-472 | every step of a requester, the host, the interrupt, the bottom half and the suspend canceller keeps the invariant that says, for each request, which one list or actor holds it, whether it was completed, and what its status can be |
| `ToolgateProtocol.RequesterKeepsInv` | kmods-src/prl_tg/Toolgate/Guest/Linux/prl_tg/prltg_call.c:392-470 | the submit, wait, cancel and free steps of a requester keep the invariant, whoever else is in the middle of a scan |
| `ToolgateProtocol.WorkerKeepsInv` | kmods-src/prl_tg/Toolgate/Guest/Linux/prl_tg/prltg.c:44-83 | each step of the bottom half's locked scan, resubmission and completion keeps the invariant |
| `ToolgateProtocol.CancellerKeepsInv` | kmods-src/prl_tg/Toolgate/Guest/Linux/prl_tg/prltg.c:85-131 | each step of the canceller's locked move, notification and confirmation keeps the invariant, timeouts included; by it a listed request the locked scan has passed is not pending, and one whose notification round is past was told to the host |
| `ToolgateProtocol.ReachableInv` | kmods-src/prl_tg/Toolgate/Guest/Linux/prl_tg/prltg_call.c:369-493 | the invariant holds in every state any interleaving reaches |
| `ToolgateProtocol.NoUseAfterFree` | kmods-src/prl_tg/Toolgate/Guest/Linux/prl_tg/prltg.c:54-80 | no guest step touches a freed request, list neighbours included, and neither the bottom half nor the canceller touches a request it has already completed |
| `ToolgateProtocol.ReleasedOnlyWhenUnheld` | kmods-src/prl_tg/Toolgate/Guest/Linux/prl_tg/prltg_call.c:421-493 | a request past its wait is on neither the shared nor any private list, was completed at most once, and is not one whose cancel timed out |
| `ToolgateProtocol.AbandonedForever` | kmods-src/prl_tg/Toolgate/Guest/Linux/prl_tg/prltg.c:98-128 | a request whose cancel timed out is never unmapped or freed in any continuation |
| `ToolgateProtocol.ResultIsFinal` | kmods-src/prl_tg/Toolgate/Guest/Linux/prl_tg/prltg_call.c:392-418 | the status of a request without restart, once off pending, never returns to it and the host never owns the request again |
| `ToolgateProtocol.HostFinishedIffNotRestarted` | kmods-src/prl_tg/Toolgate/Guest/Linux/prl_tg/prltg_call.c:441-466 | memory is unmapped and freed only after the host is finished with it, on every path, exactly for requests without the restart flag |
| `ToolgateProtocol.RestartRace` | kmods-src/prl_tg/Toolgate/Guest/Linux/prl_tg/prltg_call.c:447-459 | for a restarted request there is an interleaving that frees it while the host owns it: the bottom half resubmits between the status test and the list removal |
| `ToolgateProtocol.NoLostWakeup` | kmods-src/prl_tg/Toolgate/Guest/Linux/prl_tg/prltg_call.c:401-409 | a listed request with a result is ahead in a running scan or a scan is due, and a waiting requester's request is completed, given up, or held by exactly one list that will complete it |
| `ToolgateProtocol.PollDecides` | kmods-src/prl_tg/Toolgate/Guest/Linux/prl_tg/prltg_call.c:392-399 | the submit loop ends exactly with an answer that is not to be restarted, starts over exactly on one that is, and goes on to wait exactly while the host has the request |
| `ToolgateCancel.NonePendingLeft` | kmods-src/prl_tg/Toolgate/Guest/Linux/prl_tg/prltg.c:93-105 | when the suspend canceller is about to leave its locked section no listed request is pending |
| `ToolgateCancel.PendingIsCancelled` | kmods-src/prl_tg/Toolgate/Guest/Linux/prl_tg/prltg.c:94-131 | whatever happens after the canceller takes the list lock, a request then listed and pending is answered by the host, or in the canceller's hands, or was sent CANCEL and given up; once the canceller is done only the first and the last are left |
| `ToolgateCancel.TakenIsSettled` | kmods-src/prl_tg/Toolgate/Guest/Linux/prl_tg/prltg.c:98-131 | in every continuation a request the canceller has taken is held by it, completed, or given up after CANCEL was sent |
| `ToolgateCancel.AnsweredIsCompleted` | kmods-src/prl_tg/Toolgate/Guest/Linux/prl_tg/prltg.c:113-128 | a request answered while the canceller holds it is completed and never given up, in every continuation |
| `ToolgateCancel.FinishedIsNotCancelled` | kmods-src/prl_tg/Toolgate/Guest/Linux/prl_tg/prltg_call.c:435-439 | CANCEL is never written, in any continuation, for a request whose answer was there before its owner or the canceller looked |
| `ToolgateProgress.WakeupArrives` | kmods-src/prl_tg/Toolgate/Guest/Linux/prl_tg/prltg.c:44-80 | from any reachable state the bottom half can be driven, without host or requester and with no interrupt but one that a completion still owes, until it completes a given answered request, or resubmits it if it is to be restarted |
| `ToolgateProgress.LockIsReleased` | kmods-src/prl_tg/Toolgate/Guest/Linux/prl_tg/prltg_call.c:404-409 | whoever holds the list lock, in whatever state of a scan, can be run until it is free, without the requester that wants it and without the host |
| `ToolgateProgress.FreeableIffNotGivenUp` | kmods-src/prl_tg/Toolgate/Guest/Linux/prl_tg/prltg_call.c:369-508 | in every reachable state, whatever everybody else is in the middle of, some continuation unmaps and frees a given request exactly if the canceller has not given it up |
| `ToolgateProgress.ForcedCancelFrees` | kmods-src/prl_tg/Toolgate/Guest/Linux/prl_tg/prltg_call.c:435-466 | a requester that cancels a listed pending request writes CANCEL, and once the host answers leaves the list and frees the request without a completion |
| `RequestSizing.AddPageIndices` | kmods-src/prl_tg/Toolgate/Guest/Linux/prl_tg/prltg_call.c:36-50 | the sizing loop terminates with a size that includes the indices of exactly the pages it needs, and that page count is the least that fits |
| `RequestSizing.PagesForIsLeast` | kmods-src/prl_tg/Toolgate/Guest/Linux/prl_tg/prltg_call.c:42-49 | the closed form of the least fixpoint |
| `RequestSizing.PageCountSpans` | kmods-src/prl_tg/Toolgate/Guest/Linux/prl_tg/prltg_call.c:25-29 | the pages counted for a buffer are those from the page of its first byte to the page of its last byte |
| `RequestSizing.PagedSize` | kmods-src/prl_tg/Toolgate/Guest/Linux/prl_tg/prltg_call.c:14-51 | the 32-bit sum, size limit and loop give the exact size whenever the true sum fits a signed int, and refuse exactly what the limit test refuses |
| `RequestSizing.GuardExactIff` | kmods-src/prl_tg/Toolgate/Guest/Linux/prl_tg/prltg_call.c:31-35 | the limit test on the wrapped sum equals the limit test on the true sum for all requests of a given buffer count, exactly when that count is at most 511 |
| `RequestLayout.PartsDisjoint` | kmods-src/prl_tg/Toolgate/Guest/Linux/prl_tg/prltg_call.c:252-275 | header, page indices, inline bytes, descriptors and index arrays are pairwise disjoint |
| `RequestLayout.ExactLayout` | kmods-src/prl_tg/Toolgate/Guest/Linux/prl_tg/prltg_call.c:302-353 | every part lies inside the request and the last one ends exactly at the computed size |
| `RequestLayout.NoGaps` | kmods-src/prl_tg/Toolgate/Guest/Linux/prl_tg/prltg_call.c:302-353 | every word of the request belongs to some part |
| `RequestLayout.WalkIsWalk` | kmods-src/prl_tg/Toolgate/Guest/Linux/prl_tg/prltg_call.c:252-275 | the positions a cursor visits by stepping over each descriptor and its indices are the laid-out positions, the same for create and for unmap |
| `RequestMapping.CallSync` | kmods-src/prl_tg/Toolgate/Guest/Linux/prl_tg/prltg_call.c:495-508 | which call of the DMA mapping failed, and where, is pinned down by the answers given; page references are back to what they were exactly unless the submitted page could not be mapped, and mappings exactly when no buffer failed after its first page or its error path happened to meet the right word; nothing is released that is not outstanding unless that goes wrong; an answered call gives the caller the host's status and, on success, its inline bytes and each buffer's byte count, and nothing else changes |
| `RequestMapping.Request.SubmitAndDestroy` | kmods-src/prl_tg/Toolgate/Guest/Linux/prl_tg/prltg_call.c:381-493 | the submitted page's extra reference and mapping are given back, and then everything else, exactly if it could be mapped; then the caller finds exactly what the host wrote |
| `RequestMapping.Request.Submit` | kmods-src/prl_tg/Toolgate/Guest/Linux/prl_tg/prltg_call.c:381-390 | a first page that cannot be mapped is put and unmapped although it was neither pinned nor mapped |
| `RequestMapping.SecondPageFails` | kmods-src/prl_tg/Toolgate/Guest/Linux/prl_tg/prltg_call.c:161-199 | a request of one kernel buffer of two pages, laid out as create lays it out, leaves a handle mapped when the second page cannot be mapped |
| `RequestMapping.RecordedReaches` | kmods-src/prl_tg/Toolgate/Guest/Linux/prl_tg/prltg_call.c:178-190 | recording a handle for each page counted lets the host reach every byte of a buffer: the word of the byte's page holds a handle that was answered for that page |
| `RequestMapping.Request.Build` | kmods-src/prl_tg/Toolgate/Guest/Linux/prl_tg/prltg_call.c:280-367 | create builds the whole request, every byte of every buffer reached through a handle answered for its page and recorded where the unmap walk will look, or leaves nothing pinned, and nothing mapped exactly under the stated condition on the failing buffer |
| `RequestMapping.Request.BuildBuffers` | kmods-src/prl_tg/Toolgate/Guest/Linux/prl_tg/prltg_call.c:324-353 | buffer by buffer, zero-length, user or kernel; a failure at any page of any buffer unwinds the buffers before it, and what the failing buffer's error path left stays as it is |
| `RequestMapping.Request.MapInternal` | kmods-src/prl_tg/Toolgate/Guest/Linux/prl_tg/prltg_call.c:53-95 | the request's own pages are all pinned, mapped and recorded, or none is |
| `RequestMapping.Request.MapUserPages` | kmods-src/prl_tg/Toolgate/Guest/Linux/prl_tg/prltg_call.c:97-159 | a user buffer is pinned and mapped with its indices written from the last page down, so that every byte is reached; short pinning and a failure at any page give back every page, and every mapping exactly under the stated condition |
| `RequestMapping.Request.MapKernelPages` | kmods-src/prl_tg/Toolgate/Guest/Linux/prl_tg/prltg_call.c:161-199 | a kernel buffer is mapped and its indices recorded in order, so that every byte is reached through a handle answered for its page; a page without an address or without a mapping, at any place, leaves nothing mapped exactly under the stated condition |
| `RequestMapping.Request.UnmapPages` | kmods-src/prl_tg/Toolgate/Guest/Linux/prl_tg/prltg_call.c:235-278 | the unmap walk undoes exactly the recorded mappings and pins although it overwrites byte counts on the way, and copies results back only on success |
| `RequestMapping.Request.UnmapBuffer` | kmods-src/prl_tg/Toolgate/Guest/Linux/prl_tg/prltg_call.c:256-275 | one step of the walk uses the page count of the caller's buffer as it was, then reports the host's byte count |
| `RequestMapping.Request.UnmapUserPages` | kmods-src/prl_tg/Toolgate/Guest/Linux/prl_tg/prltg_call.c:216-233 | every entry of the pin list releases each of its pages once, and the pages of writable entries are marked dirty |
| `RequestMapping.Request.UnmapRange` | kmods-src/prl_tg/Toolgate/Guest/Linux/prl_tg/prltg_call.c:201-214 | unmapping a stretch of recorded indices removes each of them once from the mapped handles |
| `RequestMapping.Request.Destroy` | kmods-src/prl_tg/Toolgate/Guest/Linux/prl_tg/prltg_call.c:474-493 | after destroy nothing of the request is pinned or mapped, and the caller sees the host's results if it succeeded |
| `RequestMapping.Request.UndoKernel` | kmods-src/prl_tg/Toolgate/Guest/Linux/prl_tg/prltg_call.c:193-196 | the error loop of a kernel buffer leaves nothing mapped exactly when no page was, or the word after the indices holds the first handle |
| `RequestMapping.Request.UndoUser` | kmods-src/prl_tg/Toolgate/Guest/Linux/prl_tg/prltg_call.c:147-150 | the error loop of a user buffer leaves nothing mapped exactly when no page was, or the word before the indices holds the last one's handle |
| `RequestMapping.ShiftedUnwindIff` | kmods-src/prl_tg/Toolgate/Guest/Linux/prl_tg/prltg_call.c:147-150 | unmapping recorded words one place off restores the mappings exactly when the word hit holds the handle missed |
| `RequestMapping.SameShapeLaid` | kmods-src/prl_tg/Toolgate/Guest/Linux/prl_tg/prltg_call.c:474-493 | a host that rewrites status, inline bytes and byte counts cannot change what will be unmapped |
| `RingGeometry.DisjointInBuffer` | kmods-src/prl_eth/pvmnet/Interfaces/ApiNet.h:158-163 | stretches disjoint as positions within one turn are disjoint as bytes, across the end of the ring and into the tailroom |
| `RingGeometry.DistanceSurvivesWrap` | kmods-src/prl_eth/pvmnet/pvmnet_hw.h:66-70 | the difference of two free-running counters survives the wrap at 2^32 |
| `RingGeometry.WrapKeepsPlace` | kmods-src/prl_eth/pvmnet/Interfaces/ApiNet.h:239-245 | wrapping a counter at 2^32 does not move the byte it points at |
| `SendRing.UsedFromCounters` | kmods-src/prl_eth/pvmnet/pvmnet_hw.h:66-73 | tail minus head modulo 2^32 is the number of bytes of unread packets, a multiple of 16, zero exactly when there are none |
| `SendRing.WriteKeepsStored` | kmods-src/prl_eth/pvmnet/pvmnet_hw.h:75-77 | writing at the tail touches no byte of an unread packet |
| `SendRing.PublishKeepsStored` | kmods-src/prl_eth/pvmnet/pvmnet_hw.h:79-79 | moving the tail makes exactly the written packet readable |
| `SendRing.Ring.WriteData` | kmods-src/prl_eth/pvmnet/pvmnet_hw.h:56-88 | a packet is accepted exactly when it fits in what was free when the counters were read, whatever the host takes meanwhile; the accepted packets grow by just that one, which is announced, with a kick unless an announcement is still standing |
| `SendRing.Ring.Write` | kmods-src/prl_eth/pvmnet/pvmnet_hw.h:75-77 | the copy stays inside the buffer and its tailroom, lays the packet whole at the tail and keeps every unread packet |
| `SendRing.Ring.Take` | kmods-src/prl_eth/pvmnet/Interfaces/ApiNet.h:220-229 | what the host reads at the head, by header length and stride, is the oldest accepted packet not yet read |
| `SendRing.Device.Xmit` | kmods-src/prl_eth/pvmnet/pvmnet.c:307-333 | a frame of 1 to 1514 bytes is appended if it fits and refused, stopping the queue, if it does not; any other length is dropped with success, and the statistics count the queued ones |
| `SendRing.Device.Run` | kmods-src/prl_eth/pvmnet/pvmnet.c:307-333 | over any run of sends and host reads, what the host reads is, in order, without loss or repeat, a prefix of what the sends accepted |
| `ReceiveRing.HeaderReadsBack` | kmods-src/prl_eth/pvmnet/Interfaces/ApiNet.h:220-233 | length and stride computed from a header are those of the packet it was written for |
| `ReceiveRing.AtTailIffAllWalked` | kmods-src/prl_eth/pvmnet/pvmnet_hw.h:130-131 | the counter meets the tail exactly when every packet has been walked, across the counter's wrap |
| `ReceiveRing.SizeSeen` | kmods-src/prl_eth/pvmnet/pvmnet_hw.h:122-136 | the size read at an offset is that of the packet there, or 0 at the tail |
| `ReceiveRing.EveryPacketCountedOnce` | kmods-src/prl_eth/pvmnet/pvmnet.c:264-293 | delivered, wrong-length and out-of-memory packets add up to all packets walked |
| `ReceiveRing.Receiver.Receive` | kmods-src/prl_eth/pvmnet/pvmnet.c:252-299 | the receive loop terminates, stops before the first empty packet, ends at the tail exactly when there is none; it delivers, in order, exactly the walked packets of 14 to 1514 bytes that have memory, counts as errors exactly those of other lengths, and as dropped exactly those without memory |
| `ReceiveRing.Receiver.Handle` | kmods-src/prl_eth/pvmnet/pvmnet.c:269-293 | one turn steps over the packet by its own stride and delivers its payload exactly if it is 14 to 1514 bytes long and there is memory |
| `ReceiveRing.Receiver.ReadData` | kmods-src/prl_eth/pvmnet/pvmnet_hw.h:141-151 | the copied bytes are the payload and the offset advances by the stride of the same header |
| `DirtyBounds.Merge` | kmods-src/prl_vid/Video/Guest/Linux/kmod/prldrm.c:820-840 | the merge loop over the clips computes the merged rectangle |
| `DirtyBounds.MergeIsLeast` | kmods-src/prl_vid/Video/Guest/Linux/kmod/prldrm.c:829-840 | the merged rectangle contains the old one and every clip, and lies in any other that does |
| `DirtyBounds.MergeCoversIff` | kmods-src/prl_vid/Video/Guest/Linux/kmod/prldrm.c:831-838 | a clip is covered after merging exactly when its far corner fits a 16-bit field |
| `DirtyBounds.NoLostDamage` | kmods-src/prl_vid/Video/Guest/Linux/kmod/prldrm.c:818-844 | with framebuffers of one size and clips inside, whatever a returned call reported, the host took in one piece since the call began or will take next, despite retries and the skipped swap |
| `DirtyBounds.LosslessIff` | kmods-src/prl_vid/Video/Guest/Linux/kmod/prldrm.c:818-844 | over all runs, no damage is lost if and only if all framebuffers have the same size, it fits 16 bits, and clips are known to lie inside |
| `DirtyBounds.OutsideForgotten` | kmods-src/prl_vid/Video/Guest/Linux/kmod/prldrm.c:824-828 | a run in which a full update forgets a clip that reaches outside the framebuffer |
| `DirtyBounds.RunKeepsInv` | kmods-src/prl_vid/Video/Guest/Linux/kmod/prldrm.c:818-844 | every step of callers and host keeps what returned calls, and calls about to return without a swap, have reported |
| `DirtyBounds.SecondUpdateForgets` | kmods-src/prl_vid/Video/Guest/Linux/kmod/prldrm.c:824-828 | a run of two full updates in which the second forgets what the first reported, for any two sizes of which the first does not lie in the second |
| `DirtyBounds.OversizedIsLost` | kmods-src/prl_vid/Video/Guest/Linux/kmod/prldrm.c:824-828 | a run in which a full update of a framebuffer beyond 16 bits loses its own damage |
| `DirtyBounds.UndisturbedAttemptReturns` | kmods-src/prl_vid/Video/Guest/Linux/kmod/prldrm.c:842-843 | an attempt nobody interferes with returns |
| `BufferRefs.StepKeepsBuffer` | kmods-src/prl_vid/Video/Guest/Linux/kmod/prlvtg.c:102-333 | every critical section, decrement and free keeps each count equal to its holders, with exactly one free due or done once there are none |
| `BufferRefs.CountIsHolders` | kmods-src/prl_vid/Video/Guest/Linux/kmod/prlvtg.c:110-145 | an unfreed buffer's count is its one table reference plus the calls in flight with it |
| `BufferRefs.NeverFreedInUse` | kmods-src/prl_vid/Video/Guest/Linux/kmod/prlvtg.c:353-376 | whoever points at a buffer, table or call, finds it counted and not freed |
| `BufferRefs.FreedAtMostOnce` | kmods-src/prl_vid/Video/Guest/Linux/kmod/prlvtg.c:102-108 | no buffer is freed twice |
| `BufferRefs.QuietMeansKeptOrFreed` | kmods-src/prl_vid/Video/Guest/Linux/kmod/prlvtg.c:161-183 | with no call running, every buffer is in the table with count 1 or has been freed exactly once |
| `BufferRefs.NeverRevived` | kmods-src/prl_vid/Video/Guest/Linux/kmod/prlvtg.c:110-114 | a buffer whose count reached zero is never referenced again |
| `BufferRefs.TableIsRecorded` | kmods-src/prl_vid/Video/Guest/Linux/kmod/prlvtg.c:248-333 | under any interleaving the table is what its critical sections, one after the other, make of it: an owner's clip puts its new buffer there, a destroy or close takes entry and buffer away |
| `BufferRefs.CommandUsesLatest` | kmods-src/prl_vid/Video/Guest/Linux/kmod/prlvtg.c:116-158 | a GL command gets the buffer its drawable was last clipped to and keeps it until it drops it |
| `DrawableTable.Table.Find` | kmods-src/prl_vid/Video/Guest/Linux/kmod/prlvtg.c:134-145 | walking one bucket finds an id exactly when the flat map has it, for any hash function |
| `DrawableTable.Table.CreateDrawable` | kmods-src/prl_vid/Video/Guest/Linux/kmod/prlvtg.c:213-246 | a create adds a fresh entry or fails exactly for lack of memory or a taken id |
| `DrawableTable.Table.ClipDrawable` | kmods-src/prl_vid/Video/Guest/Linux/kmod/prlvtg.c:280-333 | only the owner clips; the answer is the count of lookups since the last clip, which restarts at zero |
| `DrawableTable.Table.Replace` | kmods-src/prl_vid/Video/Guest/Linux/kmod/prlvtg.c:116-159 | a GL command of the right shape gets the current clip buffer of the drawable it names and is counted, any other is left alone |
| `DrawableTable.Table.LookUp` | kmods-src/prl_vid/Video/Guest/Linux/kmod/prlvtg.c:134-145 | the table section gives the buffer and counts |
| `DrawableTable.Table.DestroyDrawable` | kmods-src/prl_vid/Video/Guest/Linux/kmod/prlvtg.c:248-278 | only the owner destroys, and exactly that entry goes from table and file list |
| `DrawableTable.Table.Release` | kmods-src/prl_vid/Video/Guest/Linux/kmod/prlvtg.c:161-183 | closing a file removes exactly its own entries and hands back their buffers in list order |
| `DrawableTable.TableRemove` | kmods-src/prl_vid/Video/Guest/Linux/kmod/prlvtg.c:256-269 | unlinking from one bucket refines removal from the flat map |
| `DrawableTable.TableAdd` | kmods-src/prl_vid/Video/Guest/Linux/kmod/prlvtg.c:229-240 | linking at the head of one bucket refines insertion into the flat map |
| `DrawableTable.TableSet` | kmods-src/prl_vid/Video/Guest/Linux/kmod/prlvtg.c:308-322 | changing an entry in place refines update of the flat map |
| `DrawableTable.UsedIsUnreported` | kmods-src/prl_vid/Video/Guest/Linux/kmod/prlvtg.c:312-317 | lookups reported by clips plus the current count are all lookups, up to the 32-bit wrap |
| `Aperture.Allocator.FindPlace` | kmods-src/prl_vid/Video/Guest/Linux/kmod/prldrm.c:659-676 | the search ends at the first of the smallest gaps that fit, or at the end when none does |
| `Aperture.Allocator.Alloc` | kmods-src/prl_vid/Video/Guest/Linux/kmod/prldrm.c:646-684 | the new range goes to that place, and the list stays sorted, page-aligned and disjoint exactly when the size is not zero and there was room in 64 bits |
| `Aperture.Allocator.Free` | kmods-src/prl_vid/Video/Guest/Linux/kmod/prldrm.c:686-702 | exactly the range at that base goes, or nothing |
| `Aperture.InsertKeepsOrder` | kmods-src/prl_vid/Video/Guest/Linux/kmod/prldrm.c:673-680 | a range put in its place keeps the list ordered if and only if it fits |
| `Aperture.FreeUndoesAlloc` | kmods-src/prl_vid/Video/Guest/Linux/kmod/prldrm.c:686-702 | freeing a range just handed out restores the list exactly |
| `Aperture.FreeKeepsOrder` | kmods-src/prl_vid/Video/Guest/Linux/kmod/prldrm.c:686-702 | freeing keeps the order and every other range |
| `Aperture.LiveRangesApart` | kmods-src/prl_vid/Video/Guest/Linux/kmod/prldrm.c:670-670 | two live ranges share no page |
| `GemObjects.Device.constructor` | kmods-src/prl_vid/Video/Guest/Linux/kmod/prldrm.c:1410-1415 | the free slots are those that fit video memory, at most 128 |
| `GemObjects.Device.Create` | kmods-src/prl_vid/Video/Guest/Linux/kmod/prldrm.c:1675-1780 | a failed create leaves aperture, slots and live objects as they were, a successful one enters exactly the new object, a large one without the aperture is answered null exactly if it exceeds a slot or all slots are held, and the books balance exactly when the kernel's allocator did not answer null and the aperture had room |
| `GemObjects.Device.AddInAperture` | kmods-src/prl_vid/Video/Guest/Linux/kmod/prldrm.c:1718-1738 | every failure after the memory is taken gives back the range and the bytes |
| `GemObjects.Device.AddShared` | kmods-src/prl_vid/Video/Guest/Linux/kmod/prldrm.c:1741-1752 | the lowest free slot is taken, and the create fails only when every slot is held by a live object |
| `GemObjects.Device.Free` | kmods-src/prl_vid/Video/Guest/Linux/kmod/prldrm.c:1649-1673 | freeing gives back exactly what the object holds: range and bytes, or slot |
| `GemObjects.RangeAdded` | kmods-src/prl_vid/Video/Guest/Linux/kmod/prldrm.c:1727-1732 | the aperture list stays exactly the ranges of live objects |
| `GemObjects.RangeGivenBack` | kmods-src/prl_vid/Video/Guest/Linux/kmod/prldrm.c:1656-1659 | and stays so when one goes |
| `GemObjects.SlotTaken` | kmods-src/prl_vid/Video/Guest/Linux/kmod/prldrm.c:1743-1747 | a cleared bit stays exactly a slot of one live object |
| `GemObjects.SlotGivenBack` | kmods-src/prl_vid/Video/Guest/Linux/kmod/prldrm.c:1667-1668 | and stays so when the object goes |
| `GemObjects.SharedApart` | kmods-src/prl_vid/Video/Guest/Linux/kmod/prldrm.c:1741-1747 | the bytes of a live object in a slot lie inside video memory and apart from those of any other |
| `GemObjects.PitchCoversIff` | kmods-src/prl_vid/Video/Guest/Linux/kmod/prldrm.c:1682-1685 | the pitch is that of the rounded row exactly when the row has less than 2^32 bytes |
| `GemObjects.SizeCoversIff` | kmods-src/prl_vid/Video/Guest/Linux/kmod/prldrm.c:1682-1687 | the computed size holds the rounded picture, with less than a page to spare, exactly when that has less than 2^32 bytes |
| `GemObjects.TallPictureTruncated` | kmods-src/prl_vid/Video/Guest/Linux/kmod/prldrm.c:1682-1687 | a picture for which it does not |
| `Images.Device.Create` | kmods-src/prl_vid/Video/Guest/Linux/kmod/prldrm.c:2220-2369 | a new image is answered with the request under the host's pbuffer and bound to the asked object, an update with the settled request, an export or an unchanged shared image with the description it had; the caller gives up just the shared image it asks to change and otherwise sees just what it saw; other files see no change; it fails exactly when the image it names or is like refuses it or no new image can be made |
| `Images.Device.Update` | kmods-src/prl_vid/Video/Guest/Linux/kmod/prldrm.c:2245-2297 | a sole owner binds, unbinds, resizes or reformats (a bound image keeps its object when its handle changes), or is refused exactly for an unknown object or a format the host does not give |
| `Images.Device.CreateImage` | kmods-src/prl_vid/Video/Guest/Linux/kmod/prldrm.c:562-601 | a new image is owned by its creator alone, or nothing changes |
| `Images.Device.Export` | kmods-src/prl_vid/Video/Guest/Linux/kmod/prldrm.c:2334-2349 | joining fills a free slot and changes nothing others see |
| `Images.Device.Drop` | kmods-src/prl_vid/Video/Guest/Linux/kmod/prldrm.c:1621-1631 | ownership ends and the image goes exactly with its last owner |
| `Images.Device.Release` | kmods-src/prl_vid/Video/Guest/Linux/kmod/prldrm.c:2371-2412 | release succeeds exactly for an owner and takes just that image out of its sight |
| `Images.Device.PostClose` | kmods-src/prl_vid/Video/Guest/Linux/kmod/prldrm.c:1612-1634 | after closing no image names the file, and other files see theirs unchanged |
| `Images.SoleOwner` | kmods-src/prl_vid/Video/Guest/Linux/kmod/prldrm.c:2244-2245 | an image with one owner has no other, so only its owner sees an update |
| `Images.FindOwner` | kmods-src/prl_vid/Video/Guest/Linux/kmod/prldrm.c:526-531 | finds a slot of the file, or that there is none |
| `Images.DropKeepsOk` | kmods-src/prl_vid/Video/Guest/Linux/kmod/prldrm.c:2304-2306 | the owner count stays the number of filled, distinct slots |
| `Directory.ParsesIffLaid` | kmods-src/prl_fs/SharedFolders/Guest/Linux/prl_fs/file.c:271-294 | the parser yields these records and no fault exactly when they lie there, whatever the padding |
| `Directory.ParseEncode` | kmods-src/prl_fs/SharedFolders/Interfaces/sf_lin.h:67-77 | parsing inverts the record encoding, at any offset and before any end mark |
| `Directory.ReadRecord` | kmods-src/prl_fs/SharedFolders/Guest/Linux/prl_fs/file.c:272-294 | one record is read without leaving the buffer, on any bytes |
| `Directory.EntryFrom` | kmods-src/prl_fs/SharedFolders/Guest/Linux/prl_fs/file.c:243-303 | the table gives each host file type its entry type, and any type it does not know the unknown one |
| `Directory.FillDir` | kmods-src/prl_fs/SharedFolders/Guest/Linux/prl_fs/file.c:250-324 | on any page the caller gets the well-formed records in order up to its first refusal, and a fault is reported only when reached |
| `Directory.ReadDir` | kmods-src/prl_fs/SharedFolders/Guest/Linux/prl_fs/file.c:327-387 | against a host that serves the directory the caller gets the entries from its position on and ends right behind them, all of them unless it refuses one or the host fails |
| `Directory.ReadInParts` | kmods-src/prl_fs/SharedFolders/Guest/Linux/prl_fs/file.c:327-387 | read in any number of parts, the directory comes with no gap and no repeat |
| `SharedHandle.Inode.OpenHost` | kmods-src/prl_fs/SharedFolders/Guest/Linux/prl_fs/file.c:167-195 | at most three requests, each with less access, stopping at the first the host does not refuse for permission |
| `SharedHandle.Inode.Open` | kmods-src/prl_fs/SharedFolders/Guest/Linux/prl_fs/file.c:124-211 | a later open is let in exactly when the live handle may do whatever the file may; users, count and the one host handle agree exactly when no page-cache refresh fails |
| `SharedHandle.Inode.Release` | kmods-src/prl_fs/SharedFolders/Guest/Linux/prl_fs/file.c:218-241 | the last release asks the host for exactly the handle in use, whatever the host answers |
| `SharedHandle.PermittedOpenServedIff` | kmods-src/prl_fs/SharedFolders/Guest/Linux/prl_fs/file.c:167-199 | a first open that succeeds is served exactly when its access is permitted, except a write-only open of a file that may be read but not opened for both |
| `SharedHandle.FirstOpenServedIff` | kmods-src/prl_fs/SharedFolders/Guest/Linux/prl_fs/file.c:167-199 | the same in terms of the host's answers, whatever they are |
| `SharedHandle.FailedRefreshLeavesHandle` | kmods-src/prl_fs/SharedFolders/Guest/Linux/prl_fs/file.c:196-211 | an open that fails only in the page-cache refresh leaves the handle open and counted |
| `SharedHandle.WriterGetsReader` | kmods-src/prl_fs/SharedFolders/Guest/Linux/prl_fs/file.c:178-199 | a writer can be left with a read-only handle |

## Left out

- RequestMapping.CallSync: assumes that the true size fits a signed int or there are at most 511 buffers, and that no page or handle is over-released when the call begins; an address that is neither linear nor vmalloc is a property of the address.
- RequestMapping.Request.Build: inline bytes are copied as whole 8-byte words, the last one padded.
- ToolgateProgress.WakeupArrives: says that the wakeup can be driven to arrive, not that a scheduler is fair.
- ToolgateProgress.FreeableIffNotGivenUp: says that a continuation exists, with answers of the host in it where they are needed, not that a scheduler finds it.
- RequestMapping.Request.MapUserPages: the caller's address space does not change while its pages are pinned.
- ToolgateProtocol.StepKeepsInv: memory is sequentially consistent, lists are sets, and a request whose first page cannot be mapped for the submit never enters the protocol (its books are in RequestMapping).
- SendRing.Ring.WriteData: the order in which weakly ordered memory shows the bytes and the tail is not modelled.
- SendRing.Device.Xmit: statistics are unbounded counters.
- ReceiveRing.Receiver.Receive: the tail is read once; packets arriving during the loop are left for the next interrupt. The strides of the packets add up to at most one turn of the ring.
- DirtyBounds.NoLostDamage: the setting of the display offset and the start of the shared state are not modelled.
- BufferRefs.CountIsHolders: counts do not overflow their 32 bits; creating a drawable is one step although the code publishes it in two sections.
- DrawableTable.Table.Release: entries are values and a reference to one is its id, so unlinking looks the entry up where the code holds its list node; the OpenGL context list is not modelled.
- GemObjects.Device.Create: the accounting of allocated bytes does not wrap.
- Images.Device.Create: images are values rather than objects; the reference counts of bound objects are not modelled because an export takes none while a shared owner's drop gives one back; the host's new pbuffer handles are fresh.
- Directory.ReadDir: the host does not change the offset it was asked for; inode numbers of the entries are not modelled.
- SharedHandle.Inode.Open: the path is given; inode lookup and the copying of time stamps are not modelled.
- PCI set-up, interrupt registration, port input and output, proc files, mode setting and version macros: foreign kernel calls with no algorithm.
- User-space copies, path building, mount options, permissions and attributes of shared folders: plumbing.
- Freezing of file systems: one list under one mutex, only easy members.
- The desktop extension, display configuration scripts, installers and network scripts.
