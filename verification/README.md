# Verification of b68k

Dafny models of the stateful parts of b68k, a 68000 microkernel with its C library, tools and user
programs, and proofs of what they promise. Table sizes (process slots, memory blocks, heap range,
vnodes, board size, buffer sizes) are parameters everywhere; nothing is enumerated.

Most parts come twice: a specification on values (functions, invariants, lemmas over whole runs) and a
class or method in the form of the source, with arrays, link fields, cursors and loops, proved equal to
the specification. `dafny verify dfyconfig.toml` checks everything.

## What is modelled

**Process table, messages, scheduler** (`Rings`, `Kernel`, `KernelInvariants`, `Rendezvous`,
`Delivery`, `Replies`, `Lifecycle`, `Scheduling`, `ProcTable`). The two circular doubly linked rings threaded through the slot
table; `sendreceive` with its matching, half-completed, blocking and aborted outcomes; signals, wait,
exit, kill, fork, creation; the round-robin scheduler and the interrupt handler's second chance. Over
every run from start-up no rendezvous is missed, no two processes block sending to each other, the
rings are exactly the free and the ready slots, and the panic on an empty ready ring is never reached.
The answer of every call is told by who waits for whom (`Replies.CallReply`); a request makes its caller
wait over every run until its answer (`Replies.RequestWaits`); a signalled process does not block in its
next call, however much later (`Lifecycle.NextCallAborts`); an exit value stays readable until the slot is
freed. Under the request/reply discipline (nobody sends to a process whose own request to it is still unread) each
send is pending, delivered by exactly one copy, or aborted. Findings, each proved with its exact condition:
- A message is lost exactly when its sender waits for an answer from the caller of a send while its own
  request is still unread (`Delivery.LostExactlyWhen`); four events after start-up do it, in every table
  of three slots or more (`Delivery.MessageCanBeLost`).
- A failed fork leaves the table as it was if and only if there was no free slot; otherwise the slot it
  took is in neither ring (`KernelInvariants.FailedForkLosesSlotIff`).
- A kernel task blocked in a send without a receive sees an abort as the value of the call although its
  message has been delivered (`Delivery.ResumedValues`).
- `proc_create_task` returns the slot it used if and only if an unused slot was named or none was used;
  called with ANY it returns ANY (`KernelInvariants.TaskNumberIsSlotIff`).

**Memory** (`Blocks`, `Memory`, `Isolation`). First fit over naturally aligned power-of-two runs that
treats the caller's own blocks as free; the ascending copy between overlapping regions; the owner table
over runs of create, fork, resize, kill, including slots that got no memory. Findings:
- The 16-bit block count is 0 for sizes above 128 MiB (`Blocks.CountTruncates`).
- Resizing keeps every process's blocks exact if and only if it does not shrink in place
  (`Isolation.ResizeKeepsIff`).
- A resize that moves changes no byte of another process, whatever the memory holds, if and only if no
  block of another process lies behind the new region within the old size
  (`Isolation.ResizeOverwritesIff`); five events from the empty table break it
  (`Isolation.ShrinkMayOverwrite`).
- Killing keeps the memories isolated if and only if no other process owns a block of the region that the
  slot records (`Isolation.ReleaseKeepsIff`); the slot of a failed fork records the parent's region, and
  killing it frees every block of the parent (`Isolation.FailedForkFreesParent`).
- The MMU mask fits the block count if and only if the size is not 0 (`Memory.MaskMatchesCount`).
- A range accepted by `va_to_pa` lies inside the region if and only if its end does not wrap 32 bits
  (`Isolation.AcceptedIsInside`).

**C library heap** (`HeapModel`, `HeapLaws`, `Heap`). Chunks as a list and as in-band header words. Over every run a chunk in
use stays until its own address is freed, and freed memory can be had again. Finding: the split leaves two sound headers if and only if the leftover is not exactly four bytes
(`Heap.SplitSoundIff`); runs are proved for requests that avoid that.

**FAT reading** (`Fat`, `FatLayout`). Cursor and one-sector cache over the cluster chain; a file stored
cluster by cluster, with its chain in the table, reads back. Finding: `_fnode_lseek`
leaves the byte counter alone, so the end-of-file clamp is right for every count if and only if that
counter equals the position, or the size when the position is past it (`Fat.ClampRightIff`); open, seek
and read in a row get past the end of the file for every offset but 0 (`Fat.File.ReadAfterSeek`).

**Vnodes** (`VnodeLists`, `Vnodes`, `VnodeTable`, `VnodeNames`, `Vfs`, `MountLaws`). The pool's free list and the
per-file-system lists as intrusive singly linked lists (the remote and the FAT file system share this code line by
line), reference counts, the path walk across mount
points, and the handlers that name vnodes (open, close, chdir, fork, kill, sysdir, mount). Over every
run from start-up a named vnode is never freed (`VnodeNames.NamedIsHeldFromStart`); a count exceeds its
names by exactly the names that chdir, sysdir and fork overwrite (`VnodeNames.SurplusIsDropped`). Finding:
after a mount on a path that does not come by the directory before its end, the path leads to the mounted
root if and only if its end was not a mount point already (or one of the same root), because a walk
crosses one mount at a place (`MountLaws.MountIsSeenIff`); a path that comes by the directory earlier goes
on in the mounted file system from there (`MountLaws.MountRedirects`). `MountLaws.MountsNotSeen` shows one
path of each kind.

**Remote files over the serial line** (`Frames`, `Framer`, `RemoteRead`). The three frame parsers, the
server's loop under arbitrary cutting of reads, timeouts and noise, the read handler and both client
loops, end to end. Finding: the kernel client's end-of-file clamp is right if and only if the position is
inside the file and the end of the request does not wrap (`RemoteRead.ClampRightIff`).

**Smaller algorithms.** Flood reveal of the mine game (`Flood`); the shell's in-place path builder
(`Paths`, `PathLaws`); flattening and rebasing of argv and envp (`ExecArgs`); the three-step division, number
printers and readers (`Numerals`) and chunked versus buffered formatting (`Printf`, `PrintfLaws`); the audio ring
under interrupts (`AudioRing`), the interrupt's decoder with its delays, under refills between the
interrupts, and the conversion of sample counts (`Dro`); the SD card checksum (`Crc7`). Finding: the
looping player's rounds all stay inside its data if and only if that has at least 32 bytes
(`AudioRing.LongEnoughIff`).

## Model

| member | source | states |
|---|---|---|
| Rings.InsertLinked | software/system/kernel/proc.c:149-163 | the four link stores insert a slot just behind the head and leave a well-formed ring |
| Rings.UnlinkLinked | software/system/kernel/proc.c:165-182 | the two link stores take any slot out of a ring of two or more, wherever the head is afterwards |
| Rings.AloneIff | software/system/kernel/proc.c:165-182 | a slot is its own predecessor exactly in a ring of one |
| ProcTable.ProcTable.AddToReady | software/system/kernel/proc.c:149-163 | inserts behind the head of the ready ring; the free ring is untouched |
| ProcTable.ProcTable.RemoveFromReady | software/system/kernel/proc.c:165-182 | panics exactly on a ring of one, else unlinks the slot and clears its links; the free ring stays linked |
| ProcTable.ProcTable.AddToFree | software/system/kernel/proc.c:184-198 | inserts into the free ring; the ready ring stays linked |
| ProcTable.ProcTable.RemoveFromFree | software/system/kernel/proc.c:200-210 | takes a slot off the free ring, the head moves to its successor; the ready ring stays linked |
| ProcTable.ProcTable.constructor | software/system/kernel/proc.c:101-124 | initially all slots are in the free ring |
| ProcTable.ProcTable.Start | software/system/kernel/system.c:705-716 | start-up reaches the table with idle and system task, which satisfies all invariants |
| ProcTable.ProcTable.CreateTask | software/system/kernel/proc.c:212-268 | new table and result are those of the specification, including ANY and occupied slots |
| ProcTable.ProcTable.CreateInit | software/system/kernel/proc.c:271-305 | the same for the first user process |
| ProcTable.ProcTable.Fork | software/system/kernel/proc.c:307-353 | the same for fork, with and without memory |
| ProcTable.ProcTable.Kill | software/system/kernel/proc.c:371-396 | kill frees the slot and keeps both rings and the table in agreement |
| ProcTable.ProcTable.Exit | software/system/kernel/proc.c:405-426 | exit stops the process and signals its parent; invariants kept |
| ProcTable.ProcTable.Wait | software/system/kernel/proc.c:682-694 | wait clears the rendezvous fields of the child |
| ProcTable.ProcTable.ScheduleNext | software/system/kernel/proc.c:716-755 | the head of the ready ring moves one place and its slot runs |
| ProcTable.ProcTable.ScheduleTo | software/system/kernel/proc.c:716-755 | a named ready slot becomes the head and runs, any other is refused |
| ProcTable.ProcTable.Reschedule | software/system/kernel/system.c:654-660 | next process, and once more if that is the idle task |
| ProcTable.ProcTable.Raise | software/system/kernel/proc.c:1056-1081 | a signal aborts a blocked process or is recorded for a ready one; invariants kept |
| ProcTable.ProcTable.FindSender | software/system/kernel/proc.c:949-960 | the first slot that is blocked sending to the receiver, ANY if none |
| ProcTable.ProcTable.SendReceive | software/system/kernel/proc.c:890-1050 | the whole call on the arrays equals the specification, in state and in reply |
| KernelInvariants.RunningIsNotAlone | software/system/kernel/proc.c:997-1000 | a process that calls the kernel is never alone in the ready ring, so blocking it never panics |
| KernelInvariants.SendReceiveKeeps | software/system/kernel/proc.c:890-1050 | every outcome of a call keeps rings and table in agreement |
| KernelInvariants.Step | software/system/kernel/proc.c:149-1081 | every event keeps the rings equal to the free and ready slots |
| KernelInvariants.KillKeepsIff | software/system/kernel/proc.c:371-396 | kill keeps the table well formed if and only if the slot is used, not running and not the idle task |
| KernelInvariants.ExitKeepsIff | software/system/kernel/proc.c:405-426 | the same for exit |
| KernelInvariants.ForkKeepsIff | software/system/kernel/proc.c:307-353 | with a free slot, fork of any process keeps the table well formed if and only if it finds memory or the parent is blocked or stopped |
| KernelInvariants.FailedForkLosesSlotIff | software/system/kernel/proc.c:307-353 | fork fails exactly without a free slot or without memory, and then leaves the table as it was if and only if no slot was free; else the slot is in neither ring |
| KernelInvariants.TaskNumberIsSlotIff | software/system/kernel/proc.c:212-268 | the value returned is the slot used if and only if an unused slot was named or none was used |
| Rendezvous.StepLive | software/system/kernel/proc.c:890-1081 | no event creates a missed rendezvous or a two-way send block |
| Rendezvous.NoMissedRendezvous | software/system/kernel/proc.c:890-1081 | in every run from start-up there is no missed rendezvous and no two-way send block |
| Delivery.CallEffect | software/system/kernel/proc.c:901-1050 | which of three things a call does to buffers and to the other slots: it hands its message over, takes one, or copies nothing |
| Delivery.OneCopyOneBuffer | software/system/kernel/proc.c:901-982 | at most one copy a call, of the sender's message into the receiver's buffer; all other buffers stay |
| Delivery.LostExactlyWhen | software/system/kernel/proc.c:901-938 | a pending send ends undelivered exactly when the receiver sends to its unread requester |
| Delivery.MessageCanBeLost | software/system/kernel/proc.c:901-938 | a run from start-up, in any table of three slots or more, in which a request is overwritten unread |
| Delivery.ResumedValues | software/system/kernel/proc.c:1036-1047 | which value a resumed call returns; the send-only kernel task sees an abort |
| Delivery.AdvanceAccounts | software/system/kernel/proc.c:901-982 | a disciplined step keeps every send in exactly one of pending, delivered once, aborted |
| Delivery.ExactlyOnceOrAborted | software/system/kernel/proc.c:901-982 | the same over every disciplined run from start-up |
| Delivery.WaitsUntilAnswer | software/system/kernel/proc.c:962-1050 | a waiting caller goes on waiting until the awaited message is copied to it, or it is interrupted |
| Delivery.BlockedUntilAnswer | software/system/kernel/proc.c:962-1050 | a send-and-receive caller stays blocked over whole runs until its answer |
| Replies.CallReply | software/system/kernel/proc.c:890-1050 | the value of every call, or its suspension with whom it waits for, decided by who waits for whom, who offers a message, and the signals |
| Replies.AnswerOrWait | software/system/kernel/proc.c:940-1050 | a receiving call waits for its answer, fails, or returns the slot whose message it got; a sending one returns the receiver exactly if that was waiting |
| Replies.RequestWaits | software/system/kernel/proc.c:890-1050 | a request makes its caller wait, over every run that follows, until the answer is copied to it or it is interrupted |
| Lifecycle.SignalReaches | software/system/kernel/proc.c:1056-1081 | a signal wakes a blocked process with an abort, stays with a ready one, and changes nobody else |
| Lifecycle.SignalStaysOver | software/system/kernel/proc.c:1056-1081 | over every run a recorded signal stays until the process makes a call or is ended |
| Lifecycle.NextCallAborts | software/system/kernel/proc.c:996-1012 | that call returns at once, with an abort where it would have to wait |
| Lifecycle.ExitStops | software/system/kernel/proc.c:405-426 | an exit stops the process with its value and signals or wakes its parent |
| Lifecycle.ExitValueStaysOver | software/system/kernel/proc.c:371-426 | over every run the exit value stays until the slot is freed or exits again |
| Lifecycle.WaitSilences | software/system/kernel/proc.c:682-694 | a blocked process told to wait neither sends nor receives |
| Lifecycle.AsleepUntilSignal | software/system/kernel/proc.c:890-1081 | only a signal or its end gets such a process going |
| Lifecycle.ForkedChild | software/system/kernel/proc.c:307-353 | the child of a fork waits for the same answer as its parent, which does not change |
| Lifecycle.InitStartsAsleep | software/system/kernel/proc.c:271-305 | the first user process belongs to root and waits for a signal |
| Lifecycle.CreatedTask | software/system/kernel/proc.c:212-268 | a created task is ready, belongs to the kernel and has no signals |
| Lifecycle.NamedSlotRuns | software/system/kernel/proc.c:716-755 | a ready slot scheduled by name runs, and the ring only starts elsewhere |
| Lifecycle.WokenIsNext | software/system/kernel/proc.c:149-163 | whoever is woken gets the next turn |
| Lifecycle.ReceiverIsNext | software/system/kernel/proc.c:149-163 | so does the receiver of a message whose sender goes on |
| Lifecycle.CreatedIsNext | software/system/kernel/proc.c:149-163 | and a created task |
| Scheduling.RoundRobin | software/system/kernel/proc.c:716-755 | n calls on an unchanged ring of n run each ready process exactly once and restore the table |
| Scheduling.IdleOnlyWhenAlone | software/system/kernel/system.c:654-660 | after the interrupt idle runs if and only if it is the only ready process |
| Scheduling.InterruptsAreFair | software/system/kernel/system.c:654-660 | after i interrupts the process whose turn it is, counted modulo the others, runs |
| Blocks.CountIsLeast | software/system/kernel/mem.c:46-60 | the block count is the least power of two that covers the size |
| Blocks.CountAlign4 | software/system/kernel/mem.c:46-60 | rounding a size to four bytes does not change its blocks |
| Blocks.CountTruncates | software/system/kernel/mem.c:46-60 | in 16 bits the count is exact up to 128 MiB and 0 above |
| Blocks.AlignedNest | software/system/kernel/mem.c:63-116 | naturally aligned power-of-two runs are disjoint or nested |
| Memory.Memory.MemBlocks | software/system/kernel/mem.c:46-60 | the shifting loop computes the truncated least power of two |
| Memory.FirstFitIsFirst | software/system/kernel/mem.c:69-82 | the scan finds no run above an existing candidate |
| Memory.Memory.FindRun | software/system/kernel/mem.c:69-82 | the nested scan equals the first-fit search |
| Memory.MoveIsForward | software/system/kernel/mem.c:84-107 | old and new region are disjoint or the copy goes to lower addresses, so ascending order is right |
| Memory.Memory.Copy | software/system/kernel/libc/src/string.c:35-43 | the ascending byte copy moves the old contents when it goes down or between disjoint ranges |
| Memory.Memory.Realloc | software/system/kernel/mem.c:63-116 | old contents arrive intact, nobody else's bytes change when growing or when no foreign block lies behind the new region, 0 only without any candidate, and the first candidate is taken |
| Memory.CopyKeepsOthersIff | software/system/kernel/mem.c:84-95 | a copy to usable blocks keeps every byte of others, for all contents, if and only if no foreign block lies behind those blocks within the length |
| Memory.Memory.Free | software/system/kernel/mem.c:118-131 | exactly the blocks of the size are released, none for a size above 128 MiB |
| Memory.Memory.MmuMask | software/system/kernel/mem.c:133-152 | the shifting loop computes the mask |
| Memory.MaskMatchesCount | software/system/kernel/mem.c:133-152 | the mask is the block count less one, in 16 bits if and only if the size is not 0 |
| Isolation.AllocateKeeps | software/system/kernel/proc.c:271-353 | creating or forking keeps everyone's blocks exact, gives memory exactly if there is a run, and otherwise leaves the slot with what it recorded |
| Isolation.ReleaseKeepsIff | software/system/kernel/proc.c:371-396 | a kill keeps everyone's blocks exact if and only if no other process owns a block of the recorded region |
| Isolation.ReleaseKeepsIf | software/system/kernel/proc.c:371-396 | and then it frees exactly the blocks of the killed process |
| Isolation.FailedForkFreesParent | software/system/kernel/proc.c:323-330 | killing the slot of a fork that found no memory frees every block of the parent |
| Isolation.ResizeKeepsIff | software/system/kernel/proc.c:696-714 | brk keeps everyone's blocks exact if and only if it does not shrink in place |
| Isolation.RecordsLowestPlace | software/system/kernel/proc.c:696-714 | creation and resize record the lowest place there is and the size, rounded up to four bytes by a resize |
| Isolation.ResizeFails | software/system/kernel/proc.c:696-714 | without a place a resize changes nothing |
| Isolation.ResizeOverwritesIff | software/system/kernel/mem.c:84-112 | a resize that moves changes no byte of others, for all contents, if and only if no foreign block lies behind the new region within the old size |
| Isolation.ShrinkMayOverwrite | software/system/kernel/mem.c:84-112 | a run from the empty table that reaches a shrinking move over another process |
| Isolation.MemoriesStayIsolated | software/system/kernel/proc.c:696-714 | over every run of admitted events the blocks tagged with a process are exactly its aligned region, and regions are disjoint |
| Isolation.AcceptedIsInside | software/system/kernel/proc.c:435-444 | an accepted range is inside the caller's region if and only if its end does not wrap |
| Isolation.InsideIsAccepted | software/system/kernel/proc.c:435-444 | a range that does not wrap is accepted if and only if it ends inside the size, and is moved by the start of the region |
| Isolation.NoSharedBytes | software/system/kernel/proc.c:435-444 | accepted ranges of two processes never intersect unless a check wraps |
| HeapModel.RoundedCovers | software/system/lib/libc/src/stdlib.c:223-283 | the rounded request covers the request, short of 32-bit wrap |
| HeapModel.AllocatedKeeps | software/system/lib/libc/src/stdlib.c:223-283 | a whole or split allocation keeps the heap tiled and coalesced |
| HeapModel.FreedKeeps | software/system/lib/libc/src/stdlib.c:285-324 | freeing and joining both neighbours keeps the heap tiled and coalesced |
| HeapModel.DoubleFree | software/system/lib/libc/src/stdlib.c:285-324 | freeing a free chunk changes nothing |
| HeapModel.PayloadsDisjoint | software/system/lib/libc/src/stdlib.c:223-283 | payloads of different chunks are disjoint and in the heap |
| HeapModel.BytesConserved | software/system/lib/libc/src/stdlib.c:223-324 | headers and payloads add up to the heap |
| HeapModel.HeapStaysOk | software/system/lib/libc/src/stdlib.c:223-324 | over every sequence of malloc and free the heap stays tiled, coalesced and conserved |
| HeapLaws.FreeReleases | software/system/lib/libc/src/stdlib.c:285-324 | a free takes exactly its own chunk out of use, and all its bytes lie in one free chunk afterwards |
| HeapLaws.FreedIsAvailable | software/system/lib/libc/src/stdlib.c:285-324 | a request that the freed chunk would satisfy then succeeds |
| HeapLaws.MallocTakes | software/system/lib/libc/src/stdlib.c:223-283 | a malloc puts exactly one new chunk in use, of the rounded length, in bytes that were free |
| HeapLaws.MallocThenFree | software/system/lib/libc/src/stdlib.c:223-324 | freeing what malloc has just given restores the heap |
| HeapLaws.InUseUntilFreed | software/system/lib/libc/src/stdlib.c:223-324 | over every sequence of malloc and free a chunk in use stays as it is until its own address is freed |
| Heap.Heap.constructor | software/system/lib/libc/src/stdlib.c:152-158 | initially one free chunk covers the heap |
| Heap.Heap.FindChunk | software/system/lib/libc/src/stdlib.c:184-221 | finds a free chunk of least slack, 0 only if none is large enough |
| Heap.Heap.Malloc | software/system/lib/libc/src/stdlib.c:223-283 | the header words realise the allocation; fails exactly without a large enough chunk; no other word changes |
| Heap.Heap.Merge | software/system/lib/libc/src/stdlib.c:299-309 | joins a free chunk with a free list successor and nothing else |
| Heap.Heap.Free | software/system/lib/libc/src/stdlib.c:285-324 | releases and coalesces the chunk of the address; an address that is no payload is ignored |
| Heap.SplitSoundIff | software/system/lib/libc/src/stdlib.c:260-275 | the split's stores leave two sound headers if and only if the leftover is not four bytes |
| Fat.Coordinates | software/system/kernel/fs/fat.c:579-650 | the cursor's three parts are determined by the position |
| Fat.File.CursorRefinesPosition | software/system/kernel/fs/fat.c:326-350 | cluster, sector and byte of the cursor are the chain iterate and the remainders of the position |
| Fat.File.Open | software/system/kernel/fs/fat.c:549-572 | open puts the cursor at the start and keeps the cache sound |
| Fat.File.NextSector | software/system/kernel/fs/fat.c:579-650 | stepping over a sector follows the chain exactly at cluster ends |
| Fat.File.Seek | software/system/kernel/fs/fat.c:660-705 | seek moves the cursor to the position and keeps the cache sound; the byte counter stays |
| Fat.File.Read | software/system/kernel/fs/fat.c:579-650 | returns exactly the bytes from the position, as many as the clamp allows, and advances |
| Fat.ContentSplits | software/system/kernel/fs/fat.c:579-650 | the bytes of two adjoining ranges are the bytes of the whole |
| Fat.ReadsJoin | software/system/kernel/fs/fat.c:579-650 | reads in any pieces return what one read returns |
| FatLayout.EntryIsRead | software/system/kernel/fs/fat.c:326-350 | the next cluster is the number whose two bytes lie at twice the cluster in the table, the low one first |
| FatLayout.SectorIsFound | software/system/kernel/fs/fat.c:597-597 | with the clusters one behind the other from the first data sector on, starting with cluster 2, each sector is where the code reads it |
| FatLayout.SectorsAreNumbered | software/system/kernel/fs/fat.c:597-597 | the sectors of the clusters follow one another on the disk |
| FatLayout.SectorsAreOneToOne | software/system/kernel/fs/fat.c:597-597 | every data sector is one sector of one cluster |
| FatLayout.StoredReadsBack | software/system/kernel/fs/fat.c:579-650 | the bytes of a file are those stored in its clusters, in the order of its chain |
| FatLayout.ReadBack | software/system/kernel/fs/fat.c:579-650 | a stored file that is opened and read comes back as it was stored, cut to the count and the size |
| Fat.ClampRightIff | software/system/kernel/fs/fat.c:589-594 | the end-of-file clamp is right for all counts if and only if the byte counter equals the position, cut to the size |
| Fat.File.ReadAfterSeek | software/system/kernel/fs/fat.c:579-705 | after open and a seek to any offset but 0 a read that asks for more than the rest of the file returns more than that |
| Flood.RevealIsExact | software/games/msweep/msweep.c:183-288 | the newly revealed tiles are exactly those reachable through empty tiles; no mine among them |
| Flood.MinesStay | software/games/msweep/msweep.c:183-288 | no mine is revealed, flagged tiles and mines stay |
| Flood.CountBySum | software/games/msweep/msweep.c:190-232 | the number stored is that of the mines around |
| Flood.VisitComplete | software/games/msweep/msweep.c:234-249 | eight finished neighbours make the reveal complete |
| Flood.PlayField.CountMines | software/games/msweep/msweep.c:190-232 | the eight guarded tests count the mines around |
| Flood.PlayField.TouchTile | software/games/msweep/msweep.c:183-288 | the recursion on the field ends and performs exactly the reveal |
| Crc7.CrcIsRemainder | software/system/kernel/mio.c:309-328 | the register is the remainder of the message polynomial by x^7 + x^3 + 1 (SD Physical Layer Simplified Specification, section 4.5) |
| Crc7.RemainderIsUnique | software/system/kernel/mio.c:309-328 | there is only one such remainder below degree 7 |
| Crc7.Composes | software/system/kernel/mio.c:309-328 | checksums compose over concatenation |
| Crc7.SelfCheck | software/system/kernel/mio.c:309-328 | a message followed by its checksum has checksum 0 |
| Crc7.BurstIsDetected | software/system/kernel/mio.c:309-328 | messages that differ within seven neighbouring bits, so also in one bit, differ in checksum |
| Crc7.Crc7 | software/system/kernel/mio.c:309-328 | the loop on 32-bit words computes that register for the low bits of a word |
| Paths.SubPathLen | software/system/bin/sh.c:75-82 | the length of the first component |
| Paths.TrimSlash | software/system/bin/sh.c:66-72 | skips a component and the slashes behind it |
| Paths.BuildPath | software/system/bin/sh.c:87-174 | leaves the joined resolved stack in the buffer; fails exactly when some directory on the way is longer than the limit |
| Paths.StepBack | software/system/bin/sh.c:134-150 | the backward scan stops at the slash of the last component, the room left grows by its length |
| Paths.ResultIsCanonical | software/system/bin/sh.c:84-87 | the result has no empty, "." or ".." component |
| Paths.RelativeIsJoined | software/system/bin/sh.c:101-114 | a relative path resolves as the current directory joined with it |
| Paths.CanonicalIsFixed | software/system/bin/sh.c:87-174 | a canonical path resolves to itself |
| PathLaws.ResolvedInTurn | software/system/bin/sh.c:87-174 | a path goes on from where its first part leads |
| PathLaws.NameAppends | software/system/bin/sh.c:156-170 | a plain name leads to the entry of that name |
| PathLaws.DotStays | software/system/bin/sh.c:123-132 | "." leads nowhere else |
| PathLaws.DotDotLeaves | software/system/bin/sh.c:133-152 | ".." leads to the directory a directory is in |
| PathLaws.DotDotAtRoot | software/system/bin/sh.c:133-152 | ".." stays at the root |
| PathLaws.NameAndBack | software/system/bin/sh.c:123-170 | a name followed by ".." can be left out anywhere in a path |
| PathLaws.SlashesCollapse | software/system/bin/sh.c:66-72 | several slashes are one |
| PathLaws.TooLongIff | software/system/bin/sh.c:156-160 | a path is refused exactly if some directory on the way has too long a path |
| Frames.SumIsTotal | software/system/kernel/fs/rfs.c:67-81 | the sum byte is the low byte of the total of the payload |
| Frames.SendMsg | tools/rfsd/rfsd.c:66-80 | what is sent is the frame of the payload |
| Frames.CheckMsg | software/system/kernel/fs/rfs.c:67-81 | accepts exactly well-formed frames |
| Frames.Line.ReceiveMsg | software/system/kernel/fs/rfs.c:83-111 | succeeds exactly if the stream begins with a frame of at most 66 bytes of payload, and consumes that |
| Frames.SentIsDelivered | software/system/kernel/fs/rfs.c:83-111 | a sent payload is recovered exactly when it is short enough, whatever follows |
| Frames.OneWrongByte | software/system/kernel/fs/rfs.c:67-81 | one wrong byte in payload or sum is noticed |
| Frames.FramesAreUnambiguous | software/system/include/sys/rfs.h:40-42 | a stream of frames has one reading |
| Frames.WordOfBytes | software/system/include/sys/rfs.h:25-38 | reading back a written 32-bit word gives the word |
| Frames.BytesOfWord | software/system/include/sys/rfs.h:25-38 | writing a read word gives its four bytes |
| Frames.ParseMsg | software/bootstrap/rfs.c:91-149 | the state machine finds the payload, or the first thing wrong with the frame |
| Frames.ParsersAgree | software/bootstrap/rfs.c:91-149 | the bootstrap accepts exactly what the kernel's rule accepts at its own limits |
| Framer.CommandsAreRecovered | tools/rfsd/rfsd.c:569-670 | however reads cut a stream of frames, the commands are the payloads sent, in order, unless a read times out right behind a start byte or in the trailer |
| Framer.NothingIsMadeUp | tools/rfsd/rfsd.c:569-670 | with any noise and timeouts the commands are disjoint frames of the bytes read, in order |
| Framer.Server.Step | tools/rfsd/rfsd.c:569-670 | one read's worth of the loop on the buffer equals the state machine's step |
| RemoteRead.DoRead | tools/rfsd/rfsd.c:402-448 | the reply is the file's bytes padded with zeros, or an error for a bad length or node |
| RemoteRead.RequestIsAnswered | tools/rfsd/rfsd.c:402-448 | the request bytes of a read come back as the bytes asked for |
| RemoteRead.Remote.Exchange | tools/rfsd/rfsd.c:569-670 | a command sent is answered once, however the port cuts it |
| RemoteRead.Rnode.Read | software/system/kernel/fs/rfs.c:398-470 | returns the file's bytes from the position up to its end, and advances by as many |
| RemoteRead.ClampRightIff | software/system/kernel/fs/rfs.c:412-415 | the clamp is right if and only if the position is in the file and the end does not wrap |
| RemoteRead.BootFile.Read | software/bootstrap/rfs.c:257-314 | returns as many bytes as asked for, zeros past the end of the file |
| VnodeLists.PushedKeeps | software/system/kernel/vfs.c:966-970 | pushing a loose vnode keeps all lists well formed |
| VnodeLists.TakenOffKeeps | software/system/kernel/fs/rfs.c:731-762 | unlinking any vnode of a list keeps all lists well formed |
| Vnodes.ReleasedKeeps | software/system/kernel/include/vfs.h:102-108 | releasing keeps the pool sound and frees exactly on the last reference |
| Vnodes.MadeKeeps | software/system/kernel/fs/rfs.c:148-174 | a vnode made for a file without one keeps the pool sound |
| Vnodes.MountedKeeps | software/system/kernel/vfs.c:430-436 | a mount keeps covered directory and root in use |
| Vnodes.VacantIsOk | software/system/kernel/vfs.c:136-148 | the pool that start-up leaves is sound |
| VnodeTable.VnodeTable.constructor | software/system/kernel/vfs.c:136-148 | the start-up loop puts every vnode on the free list, in a sound pool |
| VnodeTable.VnodeTable.Alloc | software/system/kernel/vfs.c:951-964 | takes the first free vnode off the free list |
| VnodeTable.VnodeTable.Find | software/system/kernel/fs/rfs.c:130-146 | finds the vnode of a file exactly if one is in use |
| VnodeTable.VnodeTable.Inactive | software/system/kernel/fs/rfs.c:731-762 | the list walk unlinks the vnode and frees it |
| VnodeTable.VnodeTable.Rele | software/system/kernel/include/vfs.h:102-108 | one reference less, back to the free list on the last |
| VnodeTable.VnodeTable.Get | software/system/kernel/fs/rfs.c:248-276 | the vnode of a file, found or made, with one more reference |
| VnodeTable.VnodeTable.Lookup | software/system/kernel/fs/rfs.c:648-729 | the vnode a directory's name leads to, with one more reference, or nothing changed |
| VnodeTable.VnodeTable.LookupPath | software/system/kernel/vfs.c:207-281 | the path's file, with exactly one more reference on its vnode and no other count changed; on failure no count changed, and it fails only if the path leads nowhere or fewer than two vnodes are free |
| VnodeNames.SurplusIsDropped | software/system/kernel/vfs.c:752-800 | a count exceeds its names by exactly what was overwritten without release |
| VnodeNames.StepKeeps | software/system/kernel/vfs.c:478-540 | every handler keeps counts at or above the names |
| VnodeNames.NamedIsHeld | software/system/kernel/vfs.c:478-994 | over every run a named vnode has a positive count, equal to its names and the names dropped |
| VnodeNames.NamedIsHeldFromStart | software/system/kernel/vfs.c:111-994 | the same over every run from start-up |
| VnodeNames.NamesOfProcesses | software/system/kernel/vfs.c:478-994 | which descriptors and directories every handler changes, to what, and that it changes no others |
| Vfs.Vfs.constructor | software/system/kernel/vfs.c:129-148 | start-up leaves no name and no reference |
| Vfs.StartUp | software/system/kernel/vfs.c:111-438 | the first mount after start-up succeeds and leaves every count equal to its names |
| Vfs.Vfs.Open | software/system/kernel/vfs.c:478-540 | the first free descriptor names the path's vnode, or nothing changed; each error only for its reason |
| Vfs.Vfs.Close | software/system/kernel/vfs.c:595-617 | succeeds exactly on an open descriptor and releases its vnode |
| Vfs.Vfs.Chdir | software/system/kernel/vfs.c:752-800 | the current directory becomes the path's vnode, a directory, where every later relative path starts, or nothing changed; each error only for its reason |
| Vfs.Vfs.Fork | software/system/kernel/vfs.c:916-948 | the child gets the directory and every descriptor of the parent, each held, and no other process changes |
| Vfs.Vfs.Kill | software/system/kernel/vfs.c:619-654 | every name of the process is released |
| Vfs.Vfs.Sysdir | software/system/kernel/vfs.c:972-994 | the system task takes or drops a current directory |
| Vfs.Vfs.Mount | software/system/kernel/vfs.c:380-439 | a mount pins the root and the path's directory, or makes the root of the tree, or nothing changed; each error only for its reason |
| MountLaws.UncoveredResolves | software/system/kernel/vfs.c:236-265 | a directory without a mount resolves by its own entries |
| MountLaws.CoveredResolves | software/system/kernel/vfs.c:236-278 | a directory with a mount resolves as the root of the mounted file system |
| MountLaws.MountIsSeenIff | software/system/kernel/vfs.c:236-278 | after a mount its path leads to the mounted root if and only if the end of the path was no mount point before |
| MountLaws.MountRedirects | software/system/kernel/vfs.c:236-278 | a path that comes by the directory earlier continues in the mounted file system |
| MountLaws.MountsNotSeen | software/system/kernel/vfs.c:236-278 | a second mount on a directory, and a mount on a path through the directory itself, are not found by that path |
| MountLaws.MountThenLookup | software/system/kernel/vfs.c:207-438 | the handlers in a row: the lookup after a mount finds the mounted root, or wants free vnodes |
| ExecArgs.Flatten | software/system/kernel/system.c:155-331 | succeeds exactly when both parts fit, and lays out tables of offsets with the strings behind them |
| ExecArgs.Rebase | software/system/kernel/proc.c:604-632 | the offsets of one table become addresses, nothing else changes |
| ExecArgs.VectorIs | software/system/kernel/proc.c:604-644 | following a table in the new image yields its strings |
| ExecArgs.PartMoved | software/system/kernel/proc.c:618-644 | rebased tables copied to their address are tables of the image |
| ExecArgs.Exec | software/system/kernel/proc.c:604-660 | after the copy the process finds exactly the original argv and envp in its image, whose other bytes stay |
| Numerals.Div10 | software/system/lib/libc/src/stdio.c:123-161 | quotient and remainder of every 32-bit number by ten |
| Numerals.DecimalIsNumeral | software/system/lib/libc/src/stdio.c:435-449 | the printed digits denote the number and have no leading zero |
| Numerals.Atoi | software/system/lib/libc/src/stdlib.c:66-86 | the loop reads the number, 0 on a foreign character, and where a signed overflow would occur |
| Numerals.AtoiInvertsIff | software/system/lib/libc/src/stdlib.c:66-86 | reading inverts signed printing except for the smallest number |
| Numerals.Readx | software/system/kernel/dsh/readx.c:10-31 | the loop computes the 32-bit value, or fails exactly on a foreign character |
| Numerals.ReadxInverts | software/system/kernel/dsh/readx.c:10-31 | reading inverts hexadecimal printing in either case at any padding |
| Numerals.HexWidth | software/system/lib/libc/src/stdio.c:451-464 | the text has the padded width, or as many digits as the number needs |
| Printf.SPrintU | software/system/lib/libc/src/stdio.c:435-449 | stores the decimal text and nothing in front of it |
| Printf.SPrintX | software/system/lib/libc/src/stdio.c:451-464 | stores the hexadecimal text |
| Printf.VSprintf | software/system/lib/libc/src/stdio.c:466-578 | stores the text of the format and a NUL, returns 0 |
| Printf.Stream.VFprintf | software/system/lib/libc/src/stdio.c:269-388 | the chunks written make up the same text; returns 0 |
| Printf.EscapedPrintsItself | software/system/lib/libc/src/stdio.c:466-578 | a text with its percent signs doubled prints as itself and takes no argument |
| PrintfLaws.FormatsInTurn | software/system/lib/libc/src/stdio.c:466-578 | two formats in a row print their texts in a row, the second on the arguments that the first left |
| PrintfLaws.ConversionsInTurn | software/system/lib/libc/src/stdio.c:466-578 | plain text, a conversion on its argument, and the rest on the arguments behind |
| PrintfLaws.SignedReadsBack | software/system/lib/libc/src/stdio.c:513-524 | %d reads back as the signed argument, except for the smallest number |
| PrintfLaws.UnsignedIsNumeral | software/system/lib/libc/src/stdio.c:525-529 | %u prints the numeral of the argument |
| PrintfLaws.HexReadsBack | software/system/lib/libc/src/stdio.c:530-542 | %x, %X and %p read back as the argument |
| PrintfLaws.HexCase | software/system/lib/libc/src/stdio.c:451-464 | letters are capitals for %X and small otherwise |
| PrintfLaws.HexFieldWidth | software/system/lib/libc/src/stdio.c:466-578 | a field of width 2 to 8 has that many digits, or as many as needed, and reads back |
| PrintfLaws.TextPrintsItself | software/system/lib/libc/src/stdio.c:503-549 | %s prints the string or a mark for none, %c one character |
| PrintfLaws.ForeignGivesZero | software/system/lib/libc/src/stdlib.c:66-86 | a foreign character makes the decimal reader return 0 |
| PrintfLaws.ForeignFails | software/system/kernel/dsh/readx.c:10-31 | the hexadecimal reader fails exactly on a foreign character |
| AudioRing.Ring.EmptyIff | software/opl2play/opl2play.c:105-126 | the ring looks empty only when it is; pointer distance is the fill level |
| AudioRing.Ring.Interrupt | software/system/kernel/av_opl2.c:92-176 | any consumption keeps what came out a prefix of the source |
| AudioRing.Ring.RefillFromFile | software/opl2play/opl2play.c:105-126 | a refill round with interrupts anywhere in it adds the next bytes of the file |
| AudioRing.Looper.Refill | software/games/tetris/vgm.c:193-224 | a round of the looping player adds the next 32 bytes of the repeated data, stored in 32 slots before the end of the buffer |
| AudioRing.LongEnoughIff | software/games/tetris/vgm.c:205-220 | from the start on, every round stays inside the data if and only if there are at least 32 bytes |
| Dro.WritesAreOnTime | software/system/kernel/av_opl2.c:92-184 | with the stream at hand each register write happens at exactly the sum of the waits before it, d + 1 ticks for a wait of d |
| Dro.FedOnTime | software/system/kernel/av_opl2.c:92-184 | the same with refills between the interrupts, as long as no decoding interrupt runs out of bytes before a wait |
| Dro.Chip.Interrupt | software/system/kernel/av_opl2.c:92-184 | the handler on the ring takes the bytes up to a wait and is one tick of the decoder |
| Dro.LongWaitSplit | software/system/kernel/av_opl2.c:154-178 | a two-byte wait cut by an empty ring keeps its length if and only if its low byte is 0 |
| Dro.PauseIsExactIff | software/opl2play/opl2play.c:166-197 | 441 times the milliseconds plus the error is ten times the samples plus the error before, if and only if the 16-bit sum does not overflow; the error stays below 441 |
| Dro.Loader.Pause | software/games/tetris/vgm.c:43-69 | the two loops emit exactly those waits |

## Left out

- Hardware access, interrupts' register handling, drawing, keyboard, shell commands, ELF checks, assembly: no semantics here that a proof could use.
- Message contents are one value a process; the address arithmetic on message buffers (proc.c lines 342 and 707) is not modelled, and processor switches are a change of the running slot.
- Signals are the set of alarm and child; the child bit is never cleared, as in the source. The idle task makes no call, and nobody ends the running, the idle or an unused slot, which none of the functions tests (`KernelInvariants.KillKeepsIff`, `KernelInvariants.ExitKeepsIff`).
- Fork is asked for by a process that awaits the system task's answer, as the system task's loop has it.
- Memory.Memory.Realloc: sizes are at most 128 MiB, because beyond that the truncated count is 0 and the scan does not end.
- Isolation.MemoriesStayIsolated: runs contain no brk that shrinks in place and no kill of a slot that records blocks of another process; `Isolation.ResizeKeepsIff` and `Isolation.ReleaseKeepsIff` say what these do. A slot without memory does not run, and a recorded region longer than the table is cut to it.
- Heap.Heap.Malloc: the heap cannot grow (sbrk fails) and the best chunk does not leave exactly four bytes; `__mem_add_chunk` and the environment functions are not modelled.
- HeapModel.RoundedCovers: a request within four bytes of 4 GiB wraps to 0 in the source and is not covered.
- Fat.File.Read: volumes end below 4 GiB, reads of the allocation table succeed, writing returns 0; names, directory entries and lookup are not modelled.
- Flood.PlayField.TouchTile: the touched covered tile holds no mine, which the caller checks first.
- Paths.BuildPath: the temporary NUL that cuts components out of the argument is not modelled; on failure the source leaves the argument cut.
- Framer.Server.Step: the buffer is three bytes longer than the source's, so that a frame of any length byte fits; read errors of the port are not modelled, timeouts are.
- RemoteRead.DoRead: the reply buffer is one byte longer than the source's, which is too short for a full answer by that byte; files are open and do not change; other commands are not modelled.
- RemoteRead.Rnode.Read: the position is in the file and the request does not wrap; `RemoteRead.ClampRightIff` says what the clamp does otherwise.
- Vfs.Vfs.Open: address and length checks of the path are not modelled.
- Vnode counts are unbounded; allocating from an empty free list is a failure without the source's write through a null pointer. Directory contents are a fixed map, names longer than 15 characters fail; devfs is not modelled.
- Vfs.Vfs.Mount: the mount on "/" also stores through an unset variable, and a mount by a user process leaves the device's vnode held; neither is modelled. File systems have numbers, and there are slots enough for them.
- Reading, writing, seeking and listing through a descriptor do not touch counts and are not repeated at the descriptor level; mkdir adds one lookup and its release.
- ExecArgs.Flatten: strings are shorter than 64 KiB (their length is a 16-bit number) and readable; faulting addresses end the call before anything is used. An environment needs room for its first table word behind the arguments, which the source does not test.
- Numerals.Atoi: a signed overflow, undefined in C, is reported instead of wrapped.
- Printf.VSprintf: arguments are slots with a word and a string; floating point and the unused zero flag are not part of the source's formats.
- AudioRing.Ring.RefillFromFile: one round of the refill loops, not their waiting, with an interrupt that takes any number of bytes; the players that write the ring byte by byte and the byte rings of the drivers are not modelled.
- Dro.Loader.Pause: room for all waits, without which the source's loop does not end.
- Dro.FedOnTime: the playing process exists and the ring does not run dry before a wait; `Dro.LongWaitSplit` says what happens when it does inside a two-byte wait.
- ExecArgs.Exec: the image has room for the copy, as the reallocation before it provides; without memory exec ends there.
- The command search and word cutting of the shell, the tetris line removal and 8.3 name conversion would add easy members only.
