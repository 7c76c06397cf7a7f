# A verified model of the Linux block I/O tracer

The tracer is a kernel module that writes, per CPU, a ring of events: I/O
requests and completions of the traced block devices, descriptions of those
devices, and the names that let a reader rebuild the path of each file touched.
This project models the algorithms that decide what ends up in the rings and
proves what they promise. `dafny verify dfyconfig.toml` verifies all of it.

- `RecencyList.dfy` is the reference for the inode cache: a most-recent-first
  list of at most `n` inode identities. It proves the retention laws for every
  run of visits, and for runs without refused writes the exact law: a revisit
  hits if and only if fewer than `n` other inodes were visited since.
- `InodeTracer.dfy` is the cache itself, entries threaded on a recency list and
  on hash chains, proved to behave as that list.
- `PathWalk.dfy` is the walk from a file to its root. `PathCompleteness.dfy`
  proves that the name events it leaves lead from every cached inode to a root,
  `RefusedNames.dfy` exactly when a refused event breaks that, for any cache and
  any log, `PathReader.dfy` that a reader then gets the path of every inode ever
  named, and `WalkVisits.dfy` that walks are runs of visits, so that an inode is
  named a second time only for the causes the retention law allows.
- `DeviceList.dfy` is the device list replicated per CPU, `TraceExecutor.dfy`
  the user-space start with rollback, `DeviceListing.dfy` the listing printed
  for the reader.
- `SessionProtocol.dfy` interleaves management operations, CPU by CPU and probe
  by probe, with I/O on every CPU, and `SessionProgress.dfy` proves what each
  operation achieves under any schedule. `Session.dfy` and `FsMonitor.dfy` are the
  same management code run one operation at a time, with every failure exit,
  the handle and reference counts, and the shared filesystem monitor.
- `WaitNotify.dfy` is the hand-off between ring writers and the waiting reader.
- `FileClass.dfy`, `RequestCompletion.dfy` and `BufferSizing.dfy` are the
  size classifier in both its forms, request completion, and buffer arithmetic.

Conventions. Kernel lists are sequences of entry numbers. The numbers of
entries, hash chains, CPUs, writers and interrupters are parameters, and the
hash is an arbitrary function. Whatever the kernel may refuse (a ring write, an
allocation, a registration, a lookup) is a parameter. A ring write is accepted
or refused; in the walk the outcomes are a finite list after which writes are
accepted, which covers every walk that ends. In `SessionProtocol` one
inter-processor call and one I/O callback are atomic steps: no call lands in
the middle of a scan on its own CPU, and no callback outlives its
unregistration. In `WaitNotify` memory is sequentially consistent and the
waiter is the ring's only consumer, so the ring cannot stop being almost full
while the waiter is inside the call. Two inodes on one path have different
inode numbers, and a directory tree lives on one device. The fixed tree of
`PathReader` has one entry per inode: a file with two hard links is outside it.

Where the code does not meet the obvious wish, the wish is refuted and the exact
condition proved. A walk costs a path exactly when it names one level and is
refused the next one up, with neither named in the log before
(`RefusedDirectoryIsLost`, `CompleteIff`, `RunCompleteIff`). An interrupt of
a waiter inside its call is lost exactly when it resets the flag before the
waiter stores it and the ring is not almost full (`EarlyInterruptIsLost`,
`InterruptDecides`). A start that fails also stops the devices of an earlier
start by the same executor (`StartTrace`). The two size classifiers differ on
empty files (`ImplementationsAgreeIff`), so with the portable one an empty file
is not named (`NamedIff`).

## Model

| member | source | states |
|---|---|---|
| `RecencyList.TouchKeeps` | source/kernel/trace_inode.c:537-584 | a visit keeps the list within capacity and never lists one inode slot twice |
| `RecencyList.Retention` | source/kernel/trace_inode.c:517-584 | in every run, with any refused writes, an inode used before misses only if its slot was seen with another time or at least n other slots were visited since |
| `RecencyList.HitIffRecent` | source/kernel/trace_inode.c:517-584 | with no refused write, a revisit hits if and only if the slot kept its time and fewer than n other slots were visited since |
| `RecencyList.StaysGone` | source/kernel/trace_inode.c:574-581 | a slot seen with another time is no longer listed under the old one, even if the new name was refused |
| `InodeTracer.Tracer.constructor` | source/kernel/trace_inode.c:477-505 | a fresh tracer is coherent and lists nothing |
| `InodeTracer.Tracer.Heat` | source/kernel/trace_inode.c:517-521 | a live entry becomes the most recent, the rest keeps its order, all invariants kept |
| `InodeTracer.Tracer.Unhash` | source/kernel/trace_inode.c:532-532 | the entry leaves its chain, nothing else changes, and an entry in no chain is left alone |
| `InodeTracer.Tracer.Drop` | source/kernel/trace_inode.c:551-558 | a stale entry leaves the list and becomes the next free one |
| `InodeTracer.Tracer.Map` | source/kernel/trace_inode.c:523-549 | the inode becomes the most recent, the oldest goes exactly when the list was full |
| `InodeTracer.Tracer.Lookup` | source/kernel/trace_inode.c:560-584 | hits exactly when the identity is listed, moves a hit to the front, drops a stale entry of the slot on a miss |
| `InodeTracer.SetHotSimulates` | source/kernel/trace_inode.c:517-521 | permutation, chain membership, unique slots and free-entries-last survive, and the listed identities are promoted |
| `InodeTracer.RemoveEntrySimulates` | source/kernel/trace_inode.c:551-558 | the same invariants survive, and exactly the stale slot leaves the list |
| `InodeTracer.MapSimulates` | source/kernel/trace_inode.c:523-549 | the same invariants survive the reuse of the coldest entry, which is a promotion cut to capacity |
| `InodeTracer.ListedMember` | source/kernel/trace_inode.c:490-498 | an identity is listed if and only if a live entry holds it |
| `InodeTracer.Missed` | source/kernel/trace_inode.c:565-583 | scanning the one chain of the inode number decides for the whole cache |
| `InodeTracer.EvictsOnlyWhenFull` | source/kernel/trace_inode.c:523-535 | the entry taken over is live if and only if no entry at all is free |
| `PathWalk.TraceInode` | source/kernel/trace_inode.c:626-702 | cache, events and number of lookups are those of the walk function; the directory-entry references taken, and those given back, are one for each entry looked up, the file and then each parent, in that order; no alias means no effect |
| `PathWalk.TraceEntry` | source/kernel/trace_inode.c:644-701 | the loop does the same from the directory entry found, each reference given back only with the parent's already held |
| `PathWalk.GetParent` | source/kernel/trace_inode.c:652-652 | needs the reference on the entry and takes one on its parent |
| `PathWalk.Turn` | source/kernel/trace_inode.c:644-682 | one turn is one visit of the recency list and names the inode exactly on an accepted miss |
| `PathWalk.WalkClimbs` | source/kernel/trace_inode.c:684-693 | a turn that does not climb is a refused write at the root or the lookup that finds the root just named |
| `PathCompleteness.WalkCloses` | source/kernel/trace_inode.c:644-693 | from any closed cache a walk leaves a closed one, whatever it evicts and however often the root's name is refused, if no name below the root is refused after an accepted one |
| `PathCompleteness.PathsComplete` | source/kernel/trace_inode.c:644-693 | after every run of such walks every cached inode resolves to a root in the log, even if the tree changes between walks |
| `PathCompleteness.WalkedFileResolves` | source/kernel/trace_inode.c:644-693 | in such a run a file whose own name was accepted resolves although its walk stopped at the first cached ancestor |
| `PathCompleteness.TraceRun` | source/kernel/trace_inode.c:477-702 | a run of walks on a new tracer with its hash chains leaves the list and the log that the run theorems speak of |
| `RefusedNames.CompleteIff` | source/kernel/trace_inode.c:679-693 | from any cache and any log in which all named inodes resolve, a walk leaves such a log if and only if, wherever it names a level and is refused the next, the log named one of the two before |
| `RefusedNames.RunCompleteIff` | source/kernel/trace_inode.c:644-693 | every inode ever named, evicted ones included, resolves after every walk of a run if and only if every walk meets that condition, even if the tree changes between walks |
| `RefusedNames.OrderlyRunsComplete` | source/kernel/trace_inode.c:644-693 | runs in which no name below the root is refused after an accepted one meet it |
| `PathReader.ReaderGetsPath` | source/kernel/trace_inode.c:586-623 | after such a run over a fixed tree the log yields one path for every inode named in it, and it is its path in the tree |
| `PathReader.AllReadIffHarmless` | source/kernel/trace_inode.c:586-693 | the reader has the path of every named inode after every walk if and only if every walk meets the condition |
| `RefusedNames.RefusedDirectoryIsLost` | source/kernel/trace_inode.c:679-691 | a concrete walk that leaves a cached file without a path |
| `RefusedNames.EventIsName` | source/kernel/trace_inode.c:675-682 | every event of a walk is the name of a level it missed and was let write, or of the root |
| `RefusedNames.TakenIsNamed` | source/kernel/trace_inode.c:675-682 | every level missed whose write was accepted is named by its own event |
| `WalkVisits.WalkLength` | source/kernel/trace_inode.c:644-693 | at most depth + 2 lookups plus one for each refused attempt to name the root |
| `WalkVisits.WalkIsVisits` | source/kernel/trace_inode.c:644-693 | a walk is a run of visits, one per lookup: same list, and its events name exactly the accepted misses |
| `WalkVisits.VisitsClimb` | source/kernel/trace_inode.c:644-693 | the lookups are of the file, then of each ancestor in turn, then of the root as often as it takes, with the write outcomes in order |
| `WalkVisits.LookupOutcomes` | source/kernel/trace_inode.c:645-649 | every lookup of a walk but the last misses, the last hits |
| `WalkVisits.RunIsVisits` | source/kernel/trace_inode.c:644-693 | any run of walks is one run of visits: same list, and the log names exactly its accepted misses, in order |
| `WalkVisits.NamedAgain` | source/kernel/trace_inode.h:17-24 | if two events of a log name the same inode, then between the visits that left them its slot was seen with another time or at least n other slots were visited |
| `DeviceList.ScanFinds` | source/kernel/trace_bdev.h:40-55 | the scan to the first empty slot, full array included, answers as the queue-to-device map |
| `DeviceList.RemoveFromMap` | source/kernel/trace_bdev.c:198-207 | swap-removal deletes one queue from the map and changes no other answer |
| `DeviceList.DeviceTable.constructor` | source/kernel/trace_bdev.c:354-366 | every CPU starts with an empty array |
| `DeviceList.DeviceTable.GetBdevFromQueue` | source/kernel/trace_bdev.h:40-55 | the loop computes the scan, and on a consistent table the device owning the queue |
| `DeviceList.DeviceTable.AddOnCpu` | source/kernel/trace_bdev.c:48-65 | only this CPU's array changes, by one slot, and the device is described once to this CPU's ring |
| `DeviceList.DeviceTable.RemoveOnCpu` | source/kernel/trace_bdev.c:198-207 | only this CPU's array changes, the last device fills the gap |
| `DeviceList.DeviceTable.QueueListed` | source/kernel/trace_bdev.c:150-157 | one CPU's array decides whether the queue is traced |
| `DeviceList.DeviceTable.Add` | source/kernel/trace_bdev.c:116-184 | each error code under its exact condition, replication and distinct queues kept, references equal the devices listed whatever the outcome, one description per CPU on success and none on failure |
| `DeviceList.AddCodes` | source/kernel/trace_bdev.c:116-184 | which code each refusal gets, in the order the conditions are met |
| `DeviceList.DeviceTable.Admit` | source/kernel/trace_bdev.c:144-172 | an opened device is listed and described on every CPU exactly if its queue is new and a client is attached |
| `DeviceList.DeviceTable.IndexOf` | source/kernel/trace_bdev.c:234-240 | one CPU's array decides where the device is, or that it is not listed |
| `DeviceList.DeviceTable.RemoveLocked` | source/kernel/trace_bdev.c:220-254 | the device leaves every CPU's array and its reference is put, or ENOENT and no change |
| `DeviceList.DeviceTable.Remove` | source/kernel/trace_bdev.c:265-288 | each error code under its exact condition, the named device is swap-removed, the lookup's own reference is dropped again |
| `DeviceList.RemoveCodes` | source/kernel/trace_bdev.c:265-288 | which code each refusal gets |
| `DeviceList.DeviceTable.RemoveAllLocked` | source/kernel/trace_bdev.c:297-304 | ends with an empty list on every CPU and no reference |
| `TraceExecutor.Executor.StartOne` | source/userspace/KernelTraceExecutor.cpp:41-49 | one add succeeds exactly if the file can be written and the module accepts the device |
| `TraceExecutor.Executor.StartUntilRefused` | source/userspace/KernelTraceExecutor.cpp:41-50 | the loop adds exactly the devices before the first that cannot be started, on top of any earlier start |
| `TraceExecutor.Executor.StartTrace` | source/userspace/KernelTraceExecutor.cpp:40-53 | succeeds exactly if every device can be started, then all are traced in order; otherwise everything started, earlier starts included, is stopped; if that was the end of the list and the removals succeed, the list in front of it is left exactly, order included |
| `TraceExecutor.Executor.StopDevices` | source/userspace/KernelTraceExecutor.cpp:147-156 | oldest-first removal from the end-refilled array; where the started devices end the list and are found again, the list in front stays in place, followed by exactly the devices whose removal failed |
| `TraceExecutor.Executor.StopOne` | source/userspace/KernelTraceExecutor.cpp:148-154 | the device found under the path leaves the list if the file can be written and the device is listed |
| `TraceExecutor.Executor.StoppedTops` | source/userspace/KernelTraceExecutor.cpp:147-156 | stopping the devices that end a list leaves the rest in place, followed by exactly those whose removal failed |
| `TraceExecutor.TailRemoved` | source/userspace/KernelTraceExecutor.cpp:147-156 | each removal permutes only what this start added |
| `SessionProtocol.RunInv` | source/kernel/io_trace.c:185-409 | the invariant of lists, sessions and logs holds after every sequence of steps on any number of CPUs |
| `SessionProtocol.NeverBroken` | source/kernel/trace_bdev.c:48-65 | neither BUG_ON fires, and no write meets a trace that is not open on its CPU's ring |
| `SessionProtocol.BeforeOrAfter` | source/kernel/trace_bdev.c:130-174 | every CPU holds the list before or after the operation in progress, according to whether its call ran; between operations all hold the same packed list |
| `SessionProtocol.LookupRefinesMap` | source/kernel/trace_bdev.h:40-55 | after any history a lookup answers as the queue-to-device map, on a CPU whose call already ran as the map after the operation in progress, on the others as the map before it |
| `SessionProtocol.IoIsDescribed` | source/kernel/io_trace.c:49-147 | in each CPU's session log an I/O event follows a stored description of its device, or one that CPU refused; which events are written is `CallbackRecords` |
| `SessionProtocol.SessionSafety` | source/kernel/io_trace.c:315-409 | clients imply open traces and all probes; any probe or any listed device implies open traces; an idle module without clients holds nothing |
| `SessionProtocol.RingsPinned` | source/kernel/io_trace.c:284-313 | no step replaces a ring while a trace is open |
| `SessionProtocol.CallbackSafe` | source/kernel/io_trace.c:100-147 | a callback that finds a device finds it in its CPU's own list and may write |
| `SessionProtocol.CallbackRecords` | source/kernel/io_trace.c:100-147 | a callback on a device of its CPU's list writes exactly one event with that device's id to that CPU's log and changes nothing else |
| `SessionProtocol.CallbackIgnores` | source/kernel/io_trace.c:100-147 | one for a queue not traced there, or without its probe, changes nothing |
| `SessionProgress.RequestSetsGoal` | source/kernel/io_trace.c:355-409 | each request sets the goal it asks for: one client more or less, the device added or removed, or nothing if it is refused |
| `SessionProgress.StepMoves` | source/kernel/io_trace.c:185-409 | no step of any kind sets the operation in progress back; only a CPU or a probe that fails changes its goal, to no client and no device |
| `SessionProgress.CanFinish` | source/kernel/io_trace.c:185-409 | from every state the invariant allows, the operation in progress can be brought to its end, and then its goal is met |
| `SessionProgress.EndsAtGoal` | source/kernel/io_trace.c:185-409 | under any schedule without failure it ends nowhere else |
| `SessionProgress.LogChanges` | source/kernel/io_trace.c:42-147 | a CPU's log grows by one description per add and one event per callback on a traced device, starts anew when its trace opens, and changes in no other way |
| `SessionProgress.RingChanges` | source/kernel/io_trace.c:284-313 | a ring is replaced only by a resize, one CPU at a time |
| `SessionProgress.ResizeRuns` | source/kernel/io_trace.c:284-313 | a resize without clients gives every CPU its own new ring, one with clients changes nothing |
| `FsMonitor.TracerSet.TryGet` | source/kernel/trace_inode.c:362-384 | a counted reference to the one live monitor, or none lives |
| `FsMonitor.TracerSet.Create` | source/kernel/trace_inode.c:400-505 | reference count equals pointing tracers on every path, and when the tracer gets a monitor |
| `FsMonitor.TracerSet.Destroy` | source/kernel/trace_inode.c:507-515 | the same count holds after a tracer goes, with or without monitor |
| `FsMonitor.TracerSet.DestroyAll` | source/kernel/io_trace.c:236-240 | after all tracers, created or not, no monitor lives |
| `FsMonitor.Joined` | source/kernel/trace_inode.c:146-149 | one more tracer pointing matches one more reference |
| `FsMonitor.Left` | source/kernel/trace_inode.c:152-165 | the monitor is destroyed exactly with the last tracer pointing at it |
| `FsMonitor.NoMonitor` | source/kernel/trace_inode.c:436-446 | a monitor is created only when none lives |
| `Session.Context.constructor` | source/kernel/procfs.c:752-806 | a loaded module has no client and one reference per trace file |
| `Session.Context.InitTracers` | source/kernel/io_trace.c:185-249 | the error of the first CPU that cannot be set up, with everything closed again; with no error every trace is open on its ring |
| `Session.Context.InitCpu` | source/kernel/io_trace.c:200-224 | succeeds exactly with a ring, an opened trace and a tracer; each error code under its exact condition; what it leaves open; other CPUs untouched |
| `Session.Context.DeinitTracers` | source/kernel/io_trace.c:164-173 | all traces closed, all tracers and the monitor gone |
| `Session.Context.RegisterCompletion` | source/kernel/config.h:191-218 | both completion probes or neither |
| `Session.Context.RegisterTracePoints` | source/kernel/io_trace.c:315-341 | all four probes or none |
| `Session.Context.Attach` | source/kernel/io_trace.c:355-380 | the exact condition for success, the exact code otherwise, a failure leaves nothing behind, a further client changes nothing but the count |
| `Session.AttachesIff` | source/kernel/io_trace.c:355-380 | a first client gets in if and only if the areas are granted, every CPU has a ring, an opened trace and a tracer, and every probe registers |
| `Session.AttachFailsAt` | source/kernel/io_trace.c:192-224 | the first CPU that cannot be set up decides: EINVAL without a ring, else the code of the open, else ENOMEM |
| `Session.AttachFailsAtProbe` | source/kernel/io_trace.c:315-341 | else the first probe that does not register decides |
| `Session.Context.Detach` | source/kernel/io_trace.c:388-409 | the last client takes probes, devices with references, and tracers with it |
| `Session.Context.Open` | source/kernel/procfs.c:46-69 | each error code under its exact condition; clients stay equal to open handles, the file's count to one plus its handles |
| `Session.Context.Enter` | source/kernel/procfs.c:60-68 | the attach result, and one handle more exactly on success |
| `Session.OneMoreHandle` | source/kernel/procfs.c:60-68 | attaching and counting a handle keeps the books balanced |
| `Session.OneLessHandle` | source/kernel/procfs.c:81-82 | detaching and dropping a handle keeps the books balanced |
| `Session.Context.Release` | source/kernel/procfs.c:79-85 | the same balance, no ring is freed, traces and devices stay while a client is left |
| `Session.Context.Put` | source/kernel/procfs.c:35-44 | ring and consumer header go exactly with the last reference |
| `Session.Context.AddDevice` | source/kernel/trace_bdev.c:116-184 | the exact result; a device is listed only while a client is attached |
| `Session.Context.RemoveDevice` | source/kernel/trace_bdev.c:265-288 | the exact result; the device is swap-removed and the session invariant kept |
| `Session.Context.AllocRing` | source/kernel/procfs.c:611-645 | each error code under its exact condition; a new ring only if the present one does not make up the size with the header |
| `Session.RingCodeIs` | source/kernel/procfs.c:611-645 | ENOSPC below the header, 0 for a ring that already fits, otherwise 0 exactly if the header leaves room and the kernel grants it, else ENOMEM |
| `Session.Context.AllocRings` | source/kernel/io_trace.c:300-308 | the error of the first CPU that gets no ring; the CPUs before it are resized, it and the ones after keep their rings |
| `Session.Context.InitBuffers` | source/kernel/io_trace.c:284-313 | the exact result, refused while a client is attached; on success ring plus header equal the share on every CPU, rings that fit kept and the others new; on a failure midway the share is new and the CPUs before the failing one are resized |
| `Session.ResizesIff` | source/kernel/io_trace.c:284-313 | succeeds if and only if no client is attached, the size is accepted and every CPU's ring can be had |
| `Session.ResizeFailsAt` | source/kernel/io_trace.c:300-308 | else the first CPU whose ring cannot be had decides |
| `Session.Context.Unload` | source/kernel/procfs.c:814-822 | without clients every ring and header is freed |
| `WaitNotify.RunInv` | source/kernel/procfs.c:98-114 | the wake-up invariant holds after every interleaving; what ends a wait is `LeavesBecause` and `ReturnHasCause` |
| `WaitNotify.NoLostWakeup` | source/kernel/io_trace.c:21-35 | a sleeping waiter with its flag reset has a wake pending; one whose ring a notifying writer filled has a writer between commit and exchange |
| `WaitNotify.NoticeOnItsWay` | source/kernel/io_trace.c:21-35 | in every run, once a notifying writer left the ring almost full and until it is emptied, a waiter asleep with its flag set has a writer on its way |
| `WaitNotify.LeavesBecause` | source/kernel/procfs.c:102-105 | a waiter leaves only by a signal, or on finding the ring almost full or its flag reset; a wake-up alone does not end the wait |
| `WaitNotify.ReturnHasCause` | source/kernel/procfs.c:98-114 | in every run a return follows a signal, the ring almost full, or a reset of the flag since the store of this same call |
| `WaitNotify.NoticeHasCause` | source/kernel/io_trace.c:27-34 | in every run a writer about to reset the flag saw the ring almost full after a commit of its own |
| `WaitNotify.FlagChanges` | source/kernel/procfs.c:100-107 | the flag is set only by the waiter's store and reset only by an interrupt, a writer that saw the ring almost full, or the return |
| `WaitNotify.RingChanges` | source/kernel/procfs.c:98-114 | almost-full and the queue change only by writes, the consumer, wake-ups, signals and the return |
| `WaitNotify.NotifyDecides` | source/kernel/io_trace.c:21-35 | a writer that leaves the ring almost full releases the waiter, unless its flag was reset before and a wake is pending; one that does not changes nothing |
| `WaitNotify.CallDecides` | source/kernel/procfs.c:99-108 | a call made now returns by itself if and only if the ring is almost full; a signal ends any sleep |
| `WaitNotify.ReleasedReturns` | source/kernel/procfs.c:98-114 | once the flag is reset no step undoes it or moves the waiter back, and when it cannot step a pending wake moves it on |
| `WaitNotify.ReleaseBound` | source/kernel/procfs.c:98-108 | a released waiter returns within seven of its own waking steps, under any schedule |
| `WaitNotify.InterruptRuns` | source/kernel/procfs.c:110-114 | a whole interrupt resets the flag and wakes the queue, nothing else |
| `WaitNotify.InterruptDecides` | source/kernel/procfs.c:98-114 | once an interrupt is over, the waiter left alone returns if and only if it had stored its flag when the interrupt reset it, or the ring is almost full; after the flag store it returns within seven of its waking steps under any schedule |
| `WaitNotify.EarlyInterruptIsLost` | source/kernel/procfs.c:98-114 | a concrete run in which an earlier interrupt is lost and nothing will wake the waiter |
| `FileClass.HighestBitOr` | source/kernel/trace_bio.c:51-66 | the highest bit of a bitwise or is the higher of the two |
| `FileClass.AssemblerIsSizeClass` | source/kernel/trace_bio.c:50-63 | for every non-empty file the instruction sequence gives the least class whose limit covers the size |
| `FileClass.ImplementationsAgreeIff` | source/kernel/trace_bio.c:50-73 | assembler and C agree if and only if the file is not empty; an empty file is 21 and 37 |
| `FileClass.Monotone` | source/kernel/trace_bio.c:36-80 | of two non-empty files the larger never gets a smaller class |
| `FileClass.NamedIff` | source/kernel/trace_bio.c:87-134 | a class that makes the caller name the file comes exactly with page and inode of a regular file recorded, and when such a file is missed |
| `FileClass.ClassOfPage` | source/kernel/trace_bio.c:36-134 | the class and the recorded inode for every kind of page and file |
| `RequestCompletion.Complete` | source/kernel/config.c:17-40 | visits the shortest non-empty prefix holding the bytes, reports the ids of exactly the bios in it that ask for it, in order, and charges the lesser of budget and chain |
| `RequestCompletion.TotalAdds` | source/kernel/config.c:24-25 | the bytes of a chain are the sum over its bios |
| `RequestCompletion.ReachesOnce` | source/kernel/config.c:24-39 | there is only one such prefix |
| `BufferSizing.AcceptedIff` | source/kernel/io_trace.c:251-262 | a size is accepted exactly up to 4 GiB and when no share is empty, with 64-bit wrap-around written out |
| `BufferSizing.ReadBack` | source/kernel/io_trace.c:271-273 | reading back gives the MiB written if the CPUs divide the bytes, one less otherwise, up to 2^20 CPUs |
| `BufferSizing.ReadBackAnyCpus` | source/kernel/io_trace.c:251-273 | for any number of CPUs the loss is the remainder rounded up to MiB |
| `BufferSizing.MappedPagesInside` | source/kernel/procfs.c:26-28 | pages let through lie inside the allocation, which exceeds the ring by less than a page |
| `BufferSizing.MappableIff` | source/kernel/procfs.c:145-165 | a page can be mapped if and only if a byte of the buffer is on it, and it is mapped to its own place in the allocation |
| `DeviceListing.PrintLine` | source/kernel/procfs.c:433-433 | as much of the line as fits, a terminator, everything else in the buffer untouched, the full length as the answer |
| `DeviceListing.CopyNames` | source/kernel/trace_bdev.c:317-344 | the names of all traced devices in list order, or an error exactly if a name is not terminated within its field |
| `DeviceListing.PrintLines` | source/kernel/procfs.c:429-441 | the text holds the whole listing and its length is the answer, or the answer is the buffer size |
| `DeviceListing.PrintList` | source/kernel/procfs.c:407-451 | the whole listing of the traced devices and its length, or the buffer size if it does not fit |
| `DeviceListing.ReadList` | source/kernel/procfs.c:317-363 | the reader gets the complete listing of the traced devices or an error, with the exact code; 32 name lengths of space never get ENOSPC |
| `DeviceListing.ReadCodes` | source/kernel/procfs.c:317-363 | each failure has its own code under its own condition, else the length of the listing |
| `DeviceListing.SplitRecovers` | source/kernel/procfs.c:429-441 | cutting a listing at newlines gives back the names in order |
| `DeviceListing.RoomForAll` | source/kernel/procfs.c:463-470 | 32 name lengths hold every listing of at most 32 devices |

## Left out

- The ring buffer of the telemetry framework: its sources are not in the repository; a write is accepted or refused, almost-full is a flag.
- The link fields of the kernel's lists: unlinking and relinking are operations on sequences of entry numbers, not on `next` and `prev` pointers.
- Races inside one step: an inter-processor call landing in the middle of a scan on its own CPU, a callback still running after its probe is unregistered.
- A claim that user-space `stop()` always ends `wait()`: false, see `EarlyInterruptIsLost`.
- File events from the filesystem monitor (create, move, delete) and the inode marks behind them: they neither notify nor follow the session's locking; only the monitor's reference count is modelled.
- A walk all of whose root name writes are refused does not end; such walks are outside the walk function.
- A parent lookup that yields nothing: the kernel's always yields an entry, the root's being the root.
- Cutting a name to the size of its event field: the field's size is defined outside the repository.
- Freeing of the per-CPU inode-tracer area on detach: the code frees only the trace area there.
- Failure of the monitor's own small allocations, which the code does not handle.
- Sequence numbers and time stamps of events, request flags, sector and length fields: each is copied or counted up once, and no other part of the code depends on it.
- `iotrace_trace_bio` as a whole: its classification and its walk are modelled, the plain filling of the request and metadata events is not.
- Writing to the control files beyond the length limit of a line, the version file, reading and trimming the device model: text is copied or printed once, with nothing kept between calls.
- Kernel-version differences other than the two classifier branches, mmap permissions, CPU hotplug, NUMA placement, module loading, packaging, command line.
- FileClass.AssemblerIsSizeClass: negative file sizes, which the filesystem layer does not produce, are not considered.
- TraceExecutor.Executor.StartTrace: what a path resolves to is fixed for the adds of one executor; the removals may find something else.
