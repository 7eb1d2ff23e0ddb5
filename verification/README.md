# Nachos: a verified model

This project models the core of the Nachos teaching operating system, with the
priorities, locks, ports and user processes that this version adds, and proves
what the parts keep over every input, every run and every interleaving.  Five
clusters:

* **File system.**  The disk is 1024 sectors of 128 bytes.  File headers, the
  root directory and the free-sector map are encoded in those sectors, and the
  directory and the map are themselves files whose sectors they describe.
  `OpenFile`, `FileHeader`, `BitMap`, `Directory` and `FileSystem` are classes
  that work on the disk in place.  The main results: in every run from a
  formatted disk each sector has exactly the owners the map says, and the disk
  refines a map from names to byte strings.
* **Threads and synchronisation.**  The linked list, the scheduler, semaphores,
  locks, conditions, ports and synchronised lists, as step systems over any
  number of threads.  A step is a stretch in which interrupts stay disabled.
* **Clock and devices.**  The interrupt queue with handlers that schedule more
  interrupts, the disk's seek, rotation and track buffer, the synchronous disk
  driver, the senders' handshake with the network, and the post office over
  links that keep order and lose packets.
* **Processor.**  Decoding and execution of the MIPS instructions with their
  branch and load delays, what each of them does in plain arithmetic, and the
  shift-and-add multiplier.
* **Virtual memory.**  Translation by page table or translation buffer, the
  loader, frame allocation, context switches, and isolation of processes over
  whole runs.

## How it is built

State that the source updates in place is a class whose methods are proved
against functions of the old state; those functions then carry the theorems.
Concurrent code is a transition system with an invariant that every step keeps
and a theorem about every run.  What went in and what came out of a run is read
off its events and the callers' variables, not off a log that the steps write.  No step is excluded because an assertion inside
it would fail, with one exception: the assertions of the ports, the lists, the
disk driver and the post office are shown to hold for every step of every run.
The exception is the lock by itself, whose callers are arbitrary: its runs take
the calls of `Release` whose assertion holds, and `Locks.ReleaseAssertion` says
that these are exactly the calls by the thread inside.  Wherever a lock is used
the assertion is shown, not assumed.

`int` values are mathematical integers restricted to 32 bits, and arithmetic
that can leave the range is wrapped explicitly.  The clock, the log of a run
and other counters are unbounded.  Bytes are 0 to 255; the host is little
endian and its `char` is signed.

Where the code departs from what it seems to intend, the model follows the code:

* `FileHeader::Allocate` does not check that a file fits into a header.
  `VolumeRuns.OverrunIff` says exactly when a `Create` runs over the header,
  and `VolumeRuns.OverrunHappens` gives a case.
* Priority donation rotates the holder's ready queue until it finds the holder.
  It keeps every ready thread exactly when the holder is at the head of that
  queue, loses exactly the head otherwise (`Kernels.ChangeIff`,
  `Kernels.DonateIff`), and takes from an empty queue when the holder is asleep.
  `KernelRuns.DonationLoses` and `KernelRuns.DonationFails` are runs of both
  kinds; `KernelRuns.OnePlaceIff` says exactly when every thread keeps a place.
* `Condition::Wait` starts its semaphore at 1, so it never waits
  (`Puertos.WaitDoesNotWait`); its callers loop, and safety holds all the same.
* A buffer hit of the disk may come before the sector has gone by, on the first
  request already (`Latencies.HitTooEarly`); `Latencies.HitIff` and `Latencies.HitInTimeIff`
  say exactly when it does.
* The loader tests `i <= size`, and loads an image wrongly exactly when the
  code fills its last page and there is more than one page of data
  (`Loader.ImageIff`).
* `OR` reads `rs` twice and `SRL` and `SRLV` keep the sign; `Instructions.OrIff`
  and `Instructions.SrlIff` say exactly when they still do what their names say.
  `DIV` of the most negative number by -1 stops the host.
* A pending interrupt that is not yet due is put back behind others due at the
  same time, and `Idle` can leave a lone timer interrupt that is due.
* `Network::sendBusy` is never set; `Senders.OneAtATime` shows that the network
  is idle whenever `Network::Send` is called all the same.

## Model

| member | source | states |
|---|---|---|
| Bytes.DivRoundUp | threads/utility.h:46 | for a positive number, the least multiple count that reaches it; not positive otherwise |
| Bytes.WordsRoundTrip | userprog/bitmap.cc:148-165 | an array of unsigned words is read back from its byte image |
| Bytes.IntsRoundTrip | filesys/filehdr.cc:78-95 | an array of ints is read back from its byte image, negative ones included |
| BitMaps.OrBitOf | userprog/bitmap.cc:46-51 | setting a bit of a word sets that bit and leaves every other |
| BitMaps.AndNotBitOf | userprog/bitmap.cc:60-65 | clearing a bit of a word clears that bit and leaves every other |
| BitMaps.BitMap.constructor | userprog/bitmap.cc:20-27 | a new map has every bit clear |
| BitMaps.BitMap.Mark | userprog/bitmap.cc:46-51 | exactly the named bit becomes set |
| BitMaps.BitMap.Clear | userprog/bitmap.cc:60-65 | exactly the named bit becomes clear |
| BitMaps.BitMap.Test | userprog/bitmap.cc:74-83 | whether the named bit is set |
| BitMaps.BitMap.Find | userprog/bitmap.cc:94-103 | the least clear bit, which becomes set, or -1 and no change when there is none |
| BitMaps.BitMap.NumClear | userprog/bitmap.cc:111-121 | the number of clear bits |
| BitMaps.BitMap.FetchFrom | userprog/bitmap.cc:148-152 | the bits are those of the words in the file |
| BitMaps.BitMap.WriteBack | userprog/bitmap.cc:161-165 | the file's bytes become the image of the words and no other file byte of the disk changes |
| BitMaps.MarkCount | userprog/bitmap.cc:94-121 | taking a clear bit lowers the count of clear bits by exactly one |
| BitMaps.FirstClearIffCount | userprog/bitmap.cc:94-121 | Find fails exactly when NumClear is zero |
| Headers.HeaderRoundTrip | filesys/filehdr.cc:77-95 | a header written to a sector is read back as it was |
| Headers.FileBytesFrame | filesys/filehdr.cc:106-110 | a file's bytes depend only on the sectors of its own table |
| FileHeaders.FileHeader.Allocate | filesys/filehdr.cc:41-53 | finds no room exactly when too few sectors are clear, and then changes no bit; its loop runs over the table exactly when there is room for more sectors than it holds; otherwise takes the lowest clear ones, in order, and no others |
| FileHeaders.FileHeader.Deallocate | filesys/filehdr.cc:61-69 | exactly the sectors of the table become clear, given that they are marked as its assertion demands |
| FileHeaders.FileHeader.FetchFrom | filesys/filehdr.cc:77-81 | the header is the one in the sector |
| FileHeaders.FileHeader.WriteBack | filesys/filehdr.cc:90-94 | the sector holds the header and no other sector changes |
| OpenFiles.Clipped | filesys/openfile.cc:118-124 | a transfer is cut off at the end of the file, and is nothing exactly for an empty request or a position behind the end |
| OpenFiles.OpenFile.ReadAt | filesys/openfile.cc:113-141 | gives the slice of the file's bytes for every position, length and alignment, nothing for an empty request or one behind the end, and touches nothing else in the buffer |
| OpenFiles.OpenFile.WriteAt | filesys/openfile.cc:143-183 | replaces exactly the clipped range of the file's bytes, nothing for an empty request or one behind the end, and changes no sector outside the file |
| OpenFiles.WrittenBack | filesys/openfile.cc:154-180 | writing whole sectors from a buffer whose edges were read first is the same as splicing the bytes |
| OpenFiles.OpenFile.Read | filesys/openfile.cc:71-77 | reads from the seek position and moves it by what was read |
| OpenFiles.OpenFile.Write | filesys/openfile.cc:79-85 | writes at the seek position and moves it by what was written |
| OpenFiles.OpenFile.Seek | filesys/openfile.cc:52-56 | only the seek position changes |
| Directories.StrNEqualIffSameKey | filesys/directory.cc:90-98 | comparing nine characters of two C strings is comparing their keys, up to the terminator |
| Directories.StoredKey | filesys/directory.cc:138-140 | the name stored in an entry has the key of the name given, whatever the field held before |
| Directories.TableRoundTrip | filesys/directory.cc:64-81 | a directory table is read back from its byte image |
| Directories.Directory.FetchFrom | filesys/directory.cc:64-67 | the table is the one in the directory file |
| Directories.Directory.WriteBack | filesys/directory.cc:77-80 | the directory file becomes the image of the table |
| Directories.Directory.FindIndex | filesys/directory.cc:90-98 | the first used entry with the name's key, or -1 when there is none |
| Directories.Directory.Find | filesys/directory.cc:108-115 | the sector of that entry, or -1 |
| Directories.Directory.Add | filesys/directory.cc:129-145 | fails exactly when the name is present or no entry is free; otherwise the first free entry gets the name and the sector |
| Directories.Directory.Remove | filesys/directory.cc:153-162 | fails exactly when the name is absent; otherwise only that entry becomes free |
| FileSystems.FileSystem.constructor | filesys/filesys.cc:80-154 | formatting gives the formatted disk; opening an existing disk changes nothing on it, and gives a valid file system if the disk holds one |
| FileSystems.FormattedValid | filesys/filesys.cc:83-142 | a formatted disk satisfies the invariant: sectors 0 and 1, the map's and the directory's data, and nothing else |
| FileSystems.FileSystem.Create | filesys/filesys.cc:174-216 | created, refused or overrun exactly as the directory, the map and the size decide; created keeps the invariant and disturbs no other file; refused leaves every sector as it was |
| FileSystems.FileSystem.Open | filesys/filesys.cc:227-242 | null exactly when the name is absent; otherwise a valid handle on the file's header |
| FileSystems.FileSystem.Remove | filesys/filesys.cc:257-288 | fails exactly when the name is absent; keeps the invariant; frees exactly the header and data sectors of that file |
| FileSystems.FileMarked | filesys/filehdr.cc:61-69 | the assertion in Deallocate never fails on a valid disk: header and data sectors of a file in use are marked and distinct |
| Volumes.CreateKeepsValid | filesys/filesys.cc:174-216 | after a Create every sector again has exactly the owner that the map says, all owners being distinct |
| Volumes.RemoveKeepsValid | filesys/filesys.cc:257-288 | the same after a Remove |
| VolumeWrites.CreatedOnDisk | filesys/filesys.cc:200-211 | writing back header, directory and map through the file layer gives the intended disk and disturbs no other file |
| VolumeWrites.RemovedOnDisk | filesys/filesys.cc:274-285 | the same for the two write-backs of Remove |
| VolumeRuns.WriteKeepsView | filesys/openfile.cc:143-183 | writing a live file changes neither directory nor map nor any header |
| VolumeRuns.StepKeepsValid | filesys/filesys.cc:174-288 | every Create, Remove and write keeps the invariant |
| VolumeRuns.RunKeepsValid | filesys/filesys.cc:80-288 | the invariant holds throughout every run from a formatted disk |
| VolumeRuns.StepRefines | filesys/filesys.cc:174-288 | each operation does to the disk what the same operation does to a map from names to byte strings |
| VolumeRuns.RunRefines | filesys/filesys.cc:80-288 | every run refines the map of names to byte strings, from the empty map on |
| VolumeRuns.CreateIff | filesys/filesys.cc:184-199 | Create succeeds exactly when the name is absent, an entry is free, the file fits a header and enough sectors are clear |
| VolumeRuns.OverrunIff | filesys/filehdr.cc:41-53 | exactly when a Create runs over the sector table of the header |
| VolumeRuns.OverrunHappens | filesys/filehdr.cc:44-50 | it does on a formatted disk for a file one byte too long |
| VolumeRuns.CreateThenRemove | filesys/filesys.cc:174-288 | Remove after Create restores the marked sectors, every look-up and every other entry |
| Lists.List.Append | threads/list.h:126-138 | the item is added at the end of the linked list |
| Lists.List.Prepend | threads/list.h:153-165 | the item is added at the front |
| Lists.List.SortedInsert | threads/list.h:231-255 | the item is inserted by its key, behind equal keys |
| Lists.List.SortedRemove | threads/list.h:271-290 | the first item and its key are taken off, or nothing from an empty list |
| Lists.List.Remove | threads/list.h:176-180 | the first item is taken off, or nothing from an empty list |
| Lists.InsertSplits | threads/list.h:231-255 | insertion stands between the last key not above and the first key above |
| Lists.InsertKeepsSorted | threads/list.h:231-255 | insertion keeps the list sorted |
| Lists.InsertKeepsItems | threads/list.h:231-255 | insertion adds exactly the one item |
| Interrupts.Interrupt.Schedule | machine/interrupt.cc:264-275 | exactly one entry, for the time of the call plus the delay, is added to the linked list; this is the queue operation of the clock model, on a list whose nodes are its own or new |
| Interrupts.Interrupt.CheckIfDue | machine/interrupt.cc:290-336 | taking the first node off the linked list and firing it, with the handler's own requests, or putting it back, is the check of the clock model |
| Interrupts.Interrupt.DrainDue | machine/interrupt.cc:169-170 | the loop over CheckIfDue terminates and is the drain of the clock model |
| Interrupts.Interrupt.OneTick | machine/interrupt.cc:150-179 | one tick of the clock model, and whether the thread has to yield |
| Interrupts.Interrupt.SetLevel | machine/interrupt.cc:114-127 | enabling interrupts ticks the clock, disabling does not; the old level is returned |
| Interrupts.Interrupt.Idle | machine/interrupt.cc:210-234 | advances to the next interrupt, or halts when there is none but a timer |
| Clocks.ScheduleKeepsValid | machine/interrupt.cc:264-275 | scheduling keeps the queue sorted, in the future, and everything else |
| Clocks.CheckKeepsValid | machine/interrupt.cc:290-336 | checking keeps the invariant, the clock does not go back and the log only grows |
| Clocks.FiredOneLess | machine/interrupt.cc:290-336 | each firing leaves one fewer interrupt due now, although its handler schedules more |
| Clocks.DrainEnds | machine/interrupt.cc:169-170 | the loop ends, with every pending interrupt in the future unless nothing may run |
| Clocks.OneTickFiresAll | machine/interrupt.cc:150-179 | after a tick every pending interrupt is strictly in the future, and the clock has moved by the tick of the mode |
| Clocks.IdleFires | machine/interrupt.cc:210-234 | halts exactly without pending interrupts or with a lone timer; otherwise fires the first one |
| Clocks.RunIsFair | machine/interrupt.cc:114-336 | in every run no handler fires early, due times fired never decrease, the clock never goes back and total = idle + system + user ticks |
| Clocks.RunConserves | machine/interrupt.cc:264-336 | through every part of every run the handlers called and the interrupts pending stay one for each request of an action or a handler |
| Clocks.RunFromStart | machine/interrupt.cc:60-336 | in every run from the start of the machine, whatever the handlers do, all of this holds, and the handlers called and the interrupts pending are exactly one for each request made by a device or by a handler, for the time of the call plus its delay; so no handler runs before its delay is over |
| Clocks.YieldIff | machine/interrupt.cc:150-179 | a tick ends in a yield exactly when one was asked for before or by a handler called in this tick |
| Clocks.LevelTicks | machine/interrupt.cc:114-127 | enabling interrupts that were off takes one tick and leaves nothing due; any other change of the level takes no time and calls no handler |
| Schedulers.Scheduler.ReadyToRun | threads/scheduler.cc:60-72 | appending to the linked list of the thread's priority is MakeReady of the kernel; the other lists keep their nodes |
| Schedulers.Scheduler.FindNextToRun | threads/scheduler.cc:79-98 | the downward search over the linked lists and the removal of the first node are the dispatch of the kernel |
| Kernels.DispatchTakesHighest | threads/scheduler.cc:79-98 | dispatch takes the first of the highest queue that is not empty, and idles exactly when all are empty |
| Schedulers.Scheduler.ChangeQueuePriority | threads/scheduler.cc:182-217 | the loop of Remove, Append and Prepend on the linked lists: fails exactly on an empty queue; otherwise the ready threads are the same exactly when the thread was at the head, and else exactly the head is gone |
| Kernels.ChangeIff | threads/scheduler.cc:182-217 | the same for all queues of the kernel: the multiset of ready threads is kept exactly when the thread is at the head of its queue, and otherwise loses exactly the head |
| Kernels.DonateIff | threads/synch.cc:116-134 | a donation keeps every thread in its one place exactly when the holder is at the head of its ready queue; otherwise exactly the head of that queue is in none |
| Kernels.NextKeepsValid | threads/thread.cc:93-249 | every fork, yield, P, V, finish, creation and donation keeps counts right, and places but for the thread that a donation loses |
| KernelRuns.RunKeepsValid | threads/thread.cc:93-249 | they are right throughout every run, the lost threads being those named by the donations |
| KernelRuns.ExactlyOnePlace | threads/thread.cc:93-249 | at all times of every run a thread is in exactly one of: just created, finished, running, ready, asleep, and stands once, in the queue of its priority or of the semaphore of its P; a thread that a donation has lost is in none of them |
| KernelRuns.OnePlaceIff | threads/synch.cc:116-134 | at any time of any run all threads are in exactly one place each exactly when every donation so far found the holder at the head of its queue |
| KernelRuns.LostForGood | threads/scheduler.cc:182-217 | a thread that a donation has lost never runs and is never queued again |
| KernelRuns.DonationLoses | threads/synch.cc:116-134 | a run from the start of the kernel in which a donation loses a thread |
| KernelRuns.DonationFails | threads/scheduler.cc:182-217 | a run from the start of the kernel in which the holder's ready queue is empty at a donation |
| KernelRuns.RunIsAtomic | threads/synch.cc:64-98 | every run of P, its wake-ups and V acts on the semaphores' values as P and V taken as single steps, each P at its return and only when the value is positive |
| KernelRuns.ValueIsBalance | threads/synch.cc:64-98 | at all times of every run a semaphore's value is its initial value plus the Vs in the run less the Ps that have returned |
| KernelRuns.NoLostWakeup | threads/synch.cc:64-98 | at all times of every run, while threads sleep at a semaphore, at least `value` woken threads have yet to look at it, each of them running or ready exactly when no donation has lost it |
| KernelRuns.FinishedForGood | threads/thread.cc:161-183 | in every run a finished thread never runs again |
| KernelOrder.FirstToSleepFirstToWake | threads/synch.cc:64-98 | in every run the threads that the Vs on a semaphore made ready are the first of those that went to sleep in a P on it, in their order, and the others are its queue |
| KernelOrder.FirstComeFirstServed | threads/scheduler.cc:60-98 | in every part of every run without a donation the threads of a priority get the processor in the order in which they became ready |
| KernelOrder.ProcessorGoesToNext | threads/thread.cc:161-249 | in every run the processor changes hands exactly when its thread finishes, goes to sleep or yields to a ready thread, or an idle machine looks again; it goes to the first ready thread of the highest priority and idles exactly without one |
| Locks.MoveKeepsValid | threads/synch.cc:116-156 | every statement of Acquire and Release by any thread keeps the lock's invariant |
| Locks.RunKeepsValid | threads/synch.cc:103-156 | the lock's invariant holds throughout every interleaving of calls from a new lock on |
| Locks.MutualExclusion | threads/synch.cc:116-156 | in every interleaving of any number of threads two are never inside together |
| Locks.ReleaseAssertion | threads/synch.cc:150-156 | in every interleaving the assertion in Release holds for a caller exactly when it is inside |
| Locks.LockNotLost | threads/synch.cc:116-156 | in every interleaving whoever waits for the lock can take it, or somebody who has it can go on; and whoever waits before the donation can begin it, or somebody in it can go on |
| Puertos.NextKeepsValid | threads/synch.cc:169-238 | every statement of Send, Receive, Wait and Signal by any thread keeps the port's invariant |
| Puertos.RunIsSafe | threads/synch.cc:150-186 | in every run whoever executes Wait, Signal or Release in the port holds the lock |
| Puertos.WaitDoesNotWait | threads/synch.cc:169-176 | the P of Wait never blocks |
| Puertos.NothingLost | threads/synch.cc:211-238 | in every run the messages that receivers have taken are those that Send was called with, in the order in which they were put into the buffer, and the one in a full buffer |
| SynchLists.NextKeepsValid | threads/synchlist.h:81-114 | every statement of Append and Remove by any thread keeps the list's invariant |
| SynchLists.RunIsSafe | threads/synchlist.h:81-114 | in every run no assertion fails and Remove takes only from a list that is not empty, with the lock held |
| SynchLists.FirstInFirstOut | threads/synchlist.h:81-114 | in every run the items that Remove gave out are those that Append was called with, in the order of the appending, none lost or doubled |
| SynchDisks.AssertionsHold | machine/disk.cc:115-166 | whatever step a thread can take, the disk's assertion that it is not active and the lock's ownership assertion hold for it |
| SynchDisks.OwnCompletion | filesys/synchdisk.cc:72-109 | a caller's P passes exactly after the interrupt for its own request, the only one outstanding |
| SynchDisks.NextKeepsValid | filesys/synchdisk.cc:72-109 | every step of every thread and the interrupt keep the driver's invariant |
| SynchDisks.RunIsSafe | filesys/synchdisk.cc:72-109 | in every run no assertion fails and at most one request is outstanding |
| SynchDisks.Linearizable | filesys/synchdisk.cc:72-109 | in every run the calls behave as one atomic array of sectors: in the order of their returns each finds in its sector what the calls before it have left there, a call made after another has returned comes after it, and the disk holds what they have left |
| Senders.NextKeepsValid | network/post.cc:280-285 | every statement of any sender and the completion interrupt keep the handshake's invariant, and the assertion of Release holds |
| Senders.OneAtATime | network/post.cc:280-285 | in every run of any number of senders at most one packet is outstanding and none when one is handed to the network; a sender's P passes exactly after the interrupt for its own packet; calls return in the order of their packets |
| Packets.HeaderRoundTrip | machine/network.cc:71-74 | a packet or mail header is read back from its bytes |
| Packets.WireHolds | network/post.cc:272-284 | the packet on the wire carries the message, whatever the buffers held |
| Packets.CopyKeepsMail | machine/network.cc:127-136 | copying a payload over another one keeps the message and nothing of what was there matters |
| Packets.OpenedMail | network/post.cc:227-242 | the worker takes exactly that message out of its buffer |
| PostOffices.AssertionsHold | network/post.cc:219-244 | no assertion of CheckPktAvail, PostalDelivery or Receive fails |
| PostOffices.NeverEmpty | network/post.cc:226-230 | the postal worker never receives an empty inbox |
| PostOffices.PollDelivers | machine/network.cc:57-84 | a poll takes the oldest packet into an empty device and announces it, and otherwise does nothing |
| PostOffices.PutDelivers | network/post.cc:97-105 | the mail put into a box is the oldest in transit, unchanged |
| PostOffices.NextKeepsValid | machine/network.cc:57-136 | every arrival, poll, worker step and Get keeps the invariant of a machine |
| PostOffices.RunIsSafe | network/post.cc:219-314 | in every run of any number of machines no assertion of the network or the post office fails, Network::Send's included |
| PostOffices.MailArrivesInOrder | network/post.cc:219-314 | in every run what a mailbox gave out stands at increasing places in what Send was called with for it: in order, uncorrupted, no duplicates |
| PostOffices.NothingElseLost | network/post.cc:219-314 | what the link kept is obtained, in its mailbox or on its way, in this order, and what is on its way is in the worker's buffer, the device and the socket byte for byte |
| MailLogs.SubsequencePlaces | machine/network.cc:110-124 | messages with some left out stand at strictly increasing places of the original |
| Disks.Disk.TimeToSeek | machine/disk.cc:179-194 | one SeekTime a track, and then exactly the wait for the first sector boundary after the seek |
| Disks.Disk.ComputeLatency | machine/disk.cc:232-253 | one sector time for a buffered read; otherwise the transfer starts the first time after the seek at which the target begins; at least one sector time and below the seek plus 33 |
| Disks.Disk.UpdateLast | machine/disk.cc:261-271 | a seek starts the buffer at the first boundary on the new track, otherwise it goes on; it always starts at a boundary |
| Latencies.RoundUpIsNext | machine/disk.cc:185-194 | the rotation of TimeToSeek leads to the next sector boundary and is less than one sector |
| Latencies.ModuloDiffIsFirst | machine/disk.cc:203-209 | the least number of sectors after which the target is under the head |
| Latencies.EarliestStart | machine/disk.cc:232-253 | without a buffer hit the transfer starts at the first boundary after the seek at which the target begins |
| Latencies.HitIff | machine/disk.cc:239-248 | a buffer hit happens exactly for a read on the current track whose sector has gone by between loading and the next boundary |
| Latencies.HitTooEarly | machine/disk.cc:239-248 | the first request of a machine can be a hit although its sector has not gone by |
| Latencies.HitInTimeIff | machine/disk.cc:239-248 | exactly when a hit comes after the sector has gone by |
| Latencies.TransferComplete | machine/disk.cc:232-253 | when the request completes the whole sector has been under the head |
| Latencies.LatencyBounds | machine/disk.cc:232-253 | the latency is at least one sector time and below the seek plus 33 sector times |
| Latencies.BufferIsLoaded | machine/disk.cc:261-271 | in every run of requests the buffer started at a boundary, not later than now, and the head has not left the track since |
| Words.LogicBits | machine/mipssim.cc:153-159 | the logical operations act bit by bit |
| Multiplier.ShiftAndAdd | machine/mipssim.cc:657-678 | the loop with its early exit gives the exact product of two 32-bit numbers |
| Multiplier.Mult | machine/mipssim.cc:634-692 | HI and LO hold the exact 64-bit product, signed and unsigned, for all operands |
| Instructions.DecodeR | machine/mipssim.cc:588-626 | decoding gives back the fields of a register-format word |
| Instructions.DecodeI | machine/mipssim.cc:588-626 | decoding gives back the fields of an immediate-format word, with the sign of the immediate |
| Instructions.DecodeJ | machine/mipssim.cc:588-626 | decoding gives back the target of a jump |
| Encodings.DecodeAssembled | machine/mipssim.h:117-159 | every instruction is decoded from the word with its numbers and fields |
| Encodings.AssembleDecoded | machine/mipssim.cc:588-626 | every word that is decoded to a known instruction is the word of that instruction, bit for bit |
| Instructions.OverflowIff | machine/mipssim.cc:125-465 | ADD, ADDI and SUB trap exactly when the true result is not a 32-bit int, and otherwise give it |
| Instructions.DivisionLaw | machine/mipssim.cc:195-203 | quotient and remainder of DIV give back the dividend, the remainder having its sign and being smaller than the divisor |
| Instructions.OrIff | machine/mipssim.cc:375-377 | OR copies rs, and is the bitwise or exactly when rt adds no bit to rs |
| Instructions.SrlIff | machine/mipssim.cc:445-455 | SRL and SRLV are the logical shift exactly when rt is not negative or is not shifted |
| Instructions.JumpTarget | machine/mipssim.cc:219-223 | a jump goes to the named word in the 256-megabyte region of the instruction after it |
| Shifts.ShlBits | machine/mipssim.cc:394-401 | shifting left moves every bit up and brings in zeros |
| Shifts.SarBits | machine/mipssim.cc:436-443 | shifting right moves every bit down and repeats the sign |
| Instructions.DelayedLoad | machine/mipssim.cc:574-582 | the pending load goes to its register, the next one becomes pending, R0 is zero and nothing else changes |
| Instructions.ExecuteKeepsPipeline | machine/mipssim.cc:123-549 | no instruction writes the program counters or the pending load by itself |
| InstructionLaws.BranchLaw | machine/mipssim.cc:161-193 | BEQ, BNE, BGEZ, BGTZ, BLEZ and BLTZ go by their offset from the next instruction exactly on their condition, and else on |
| InstructionLaws.LinkLaw | machine/mipssim.cc:166-188 | BGEZAL and BLTZAL leave the return address in R31 and branch on their condition, which on R31 is one on that address |
| InstructionLaws.JumpLaw | machine/mipssim.cc:219-229 | where J, JAL, JR and JALR go and which register holds the return address |
| InstructionLaws.ArithmeticLaw | machine/mipssim.cc:145-469 | ADDU, ADDIU and SUBU are sums and differences modulo 2^32, LUI a shift by 16, SLT, SLTI, SLTU and SLTIU are 1 exactly when less, MFHI, MFLO and OR copy |
| InstructionLaws.LogicLaw | machine/mipssim.cc:153-544 | AND, NOR, XOR and their immediate forms act on every bit, an immediate having 16 |
| InstructionLaws.ShiftLaw | machine/mipssim.cc:395-455 | where every bit of a shift comes from |
| InstructionLaws.CheckedLaw | machine/mipssim.cc:125-465 | ADD, ADDI and SUB write the exact result, or trap and change nothing when it is not an int |
| InstructionLaws.MoveLaw | machine/mipssim.cc:353-359 | MTHI and MTLO copy rs to HI or LO |
| InstructionLaws.ProductLaw | machine/mipssim.cc:361-369 | HI and LO are the exact product after MULT and MULTU |
| InstructionLaws.QuotientLaw | machine/mipssim.cc:195-203 | LO and HI are quotient and remainder of rs by rt after DIV, both 0 for a zero divisor; the host fails for the most negative int by -1 |
| InstructionLaws.UnsignedQuotientLaw | machine/mipssim.cc:205-217 | the same for the unsigned numbers after DIVU |
| InstructionLaws.LoadLaw | machine/mipssim.cc:231-343 | the address, size, alignment and exception of every load, and what it makes of the bytes there for rt one instruction later |
| InstructionLaws.StoreLaw | machine/mipssim.cc:383-532 | the address, size, alignment and exception of every store, which bytes it writes, and that no other byte changes |
| InstructionLaws.KernelLaw | machine/mipssim.cc:534-549 | a system call and an unknown instruction trap |
| Translations.InsideFrame | machine/translate.cc:186-255 | a translated access stays inside one valid, permitted frame and inside memory |
| Translations.TableTranslates | machine/translate.cc:186-255 | for every address, size and page table: the physical address exactly when the access is aligned, its page is in the table and valid, it is not a write to a read-only page and the frame exists; otherwise the exception of the first of these that fails |
| Translations.BufferTranslates | machine/translate.cc:186-255 | the same through the first valid entry of the translation buffer for the page, and a page fault without one |
| Translations.SameTranslation | machine/translate.cc:248-250 | the use and dirty bits change no translation |
| Translations.CoherentHit | machine/translate.cc:209-236 | with a coherent buffer whatever is not a miss is what the page table gives |
| Translations.FetchPut | machine/translate.cc:87-169 | a value written is read back, as far as its size goes |
| Translations.PutFrame | machine/translate.cc:151-167 | a write changes its own bytes and no others |
| Machines.InstructionBehaves | machine/mipssim.cc:93-565 | every instruction keeps R0 zero and the pending load in range, and writes only mapped frames; one that traps leaves registers, HI, LO, PC, NextPC and memory as they were, with the pending load in place |
| Machines.StoreThenLoad | machine/translate.cc:87-169 | a load from where a store has been gives back what was stored, signed or not, as far as its size goes |
| Machines.LoadDelay | machine/mipssim.cc:555-582 | a loaded value is in its register after the next instruction, whatever that is, and not before |
| Machines.InstructionSeesOnlyMapped | machine/mipssim.cc:93-565 | what an instruction does depends only on registers, mapping and mapped bytes |
| Machines.ReadKeeps | machine/translate.cc:87-122 | a read changes neither memory nor mapping; a failed one retires the pending load |
| Machines.WriteKeeps | machine/translate.cc:137-169 | a write changes only mapped frames; a failed one nothing but for retiring the pending load |
| Hardware.Machine.Translate | machine/translate.cc:186-255 | on the arrays, the model's translation; on success the entry's use bit is set, after a write its dirty bit as well, and no other bit changes |
| Hardware.Machine.SearchTlb | machine/translate.cc:223-227 | the loop finds the first valid entry for the page |
| Hardware.Machine.ReadMem | machine/translate.cc:87-122 | on the arrays, the model's read |
| Hardware.Machine.WriteMem | machine/translate.cc:137-169 | on the arrays, the model's write |
| Hardware.Machine.RaiseException | machine/machine.cc:100-111 | the faulting address is recorded and the pending load retired |
| Hardware.Machine.OneInstruction | machine/mipssim.cc:93-565 | on the arrays, exactly the step of the processor |
| Hardware.Machine.Multiply | machine/mipssim.cc:361-369 | MULT and MULTU by the multiplier's loop are exactly the step of the processor |
| Hardware.Machine.WriteRegister | machine/machine.cc:208-213 | exactly the named register changes |
| Loader.LoadLoopAt | userprog/addrspace.cc:112-133 | which part of the file each page holds after a loading loop |
| Loader.HeaderRoundTrip | userprog/addrspace.cc:69-73 | a header written at the beginning of a file is the one that is read |
| Loader.PagesEnough | userprog/addrspace.cc:76-80 | the pages hold code, data and the stack, and one page fewer would not |
| Loader.PagesFit | userprog/addrspace.cc:76-84 | the space fits into memory exactly when these bytes do, and has no page exactly for sizes that add up to nothing |
| Loader.InBoundsIff | userprog/addrspace.cc:109-133 | every round of the two loops takes a page of the table and reads inside the file exactly when the segments fit the table and what is loaded has no negative offset |
| Loader.ContiguousInBounds | userprog/addrspace.cc:76-130 | for contiguous segments the loops stay inside the page table |
| Loader.ImageRight | userprog/addrspace.cc:76-133 | every byte of code and data is the file's and every other byte is zero |
| Loader.ImageWrong | userprog/addrspace.cc:112-133 | otherwise there is an object file with this very header that is loaded wrongly |
| Loader.ImageIff | userprog/addrspace.cc:76-133 | all object files with a given acceptable header are loaded correctly exactly when the code does not end at a page boundary or there is at most one page of data |
| AddrSpaces.NewAddrSpace | userprog/addrspace.cc:63-137 | for every file: an assertion fails exactly for a wrong magic number or too few frames; otherwise the loops run, page by page, until the first page that is outside the table or read before the file, and that decides how it ends; when all pages are good the lowest clear frames hold the pages of the file and no other frame changes |
| AddrSpaces.AddrSpace.CleanMyBitmap | userprog/addrspace.cc:212-217 | exactly the frames of the space become clear |
| AddrSpaces.AddrSpace.RestoreState | userprog/addrspace.cc:205-209 | the machine translates by this space's table; registers and memory stay |
| AddrSpaces.AddrSpace.InitRegisters | userprog/addrspace.cc:164-184 | PC is 0, NextPC 4, the stack pointer 16 below the end of the pages, and every other register 0 |
| AddrSpaces.UserThread.SaveUserState | threads/thread.cc:316-321 | the thread's copy becomes the machine's registers |
| AddrSpaces.UserThread.RestoreUserState | threads/thread.cc:332-337 | the machine's registers become the thread's copy |
| Isolation.StepKeepsValid | userprog/addrspace.cc:79-217 | after every creation, deletion, switch, also to a thread without a space, and instruction live spaces own disjoint frames and the bitmap is their union |
| Isolation.RunKeepsValid | userprog/addrspace.cc:79-217 | so throughout every run |
| Isolation.StepIsolated | threads/thread.cc:316-337 | no step changes registers, page table or mapped bytes of a process it does not belong to |
| Isolation.RunIsolated | threads/thread.cc:316-337 | they stay through any part of any run in which no step belongs to the process |
| Isolation.InstructionIsOwn | machine/mipssim.cc:93-565 | what an instruction of a process does depends only on what belongs to it |
| Isolation.StepIsOwn | machine/mipssim.cc:93-565 | after an instruction, a kernel access or an interrupt the current process finds the processor, its memory and its page table exactly as that left them |
| Isolation.SwitchRestores | threads/thread.cc:316-337 | a process that gets the processor finds the registers it had, its pages and its page table |
| Starts.FirstRegisters | userprog/addrspace.cc:164-184 | in every run a new process that gets the processor for the first time finds these registers, whatever others did in between |
| Starts.FirstInstructions | userprog/addrspace.cc:164-184 | in every run its first instruction is the word at virtual address 0, as loaded, and its second the one at 4 when the first completes |
| Starts.FirstOfCode | userprog/addrspace.cc:109-120 | for an object file that is loaded right that word is the first of its code |
| Starts.StackPointer | userprog/addrspace.cc:180-183 | in every run the word at its stack pointer can be read and written in the frame of its last page; a space without pages has none |
| UserBuffers.WriteBuffToUsr | userprog/user.cc:84-97 | the bytes up to the first address that faults are in the program's memory, across frames, and nothing else in memory changes |
| UserBuffers.ReadBuffFromUsr | userprog/user.cc:54-67 | the buffer holds the program's bytes up to the first address that faults, and memory does not change |
| UserBuffers.RoundTrip | userprog/user.cc:54-97 | what was written is read back unchanged, exactly when every address can be written |
| UserBuffers.SpaceIsOneToOne | userprog/addrspace.cc:91-103 | the table of an address space maps no two pages to one frame |

## Left out

- Schedulers.Scheduler.ChangeQueuePriority: requires that the new priority is not the old one, for which the loop need not end; its only caller, the donation, raises a priority.
- Locks.LockNotLost: a holder can go on as far as the lock is concerned; the lock's runs have no ready queues, so a holder that a donation has lost (`KernelRuns.LostForGood`) counts as able to.
- KernelOrder.FirstComeFirstServed: is about parts of runs without a donation, which takes a thread out of its order on purpose; what a donation does to the queues is in `Kernels.ChangeIff`.
- Liveness of conditions, ports and synchronised lists: Wait does not wait, so only safety means anything.
- Semaphores inside locks, ports, lists, senders and the disk driver: P and V are single steps there, which `KernelRuns.RunIsAtomic` justifies for the values; the two layers are not composed into one run.
- PostOffice::Send's handshake in the runs of the post office: a packet may be handed to the network there at any time, which includes what the handshake allows.
- Mailboxes of the post office: Put and Get are single steps, which the synchronised list justifies.
- Post offices with different numbers of boxes: every machine has the ten that threads/system.cc gives it.
- Threads sharing the file system classes: they work on one array of sectors at a time; that the driver gives concurrent callers such an array is the driver's theorem.
- Sockets: a packet for a machine that does not exist is not modelled.
- FileSystems.FileSystem.Create: promises nothing after a header overrun, because the code has then written outside the object.
- FileHeaders.FileHeader.Allocate: promises nothing about the object and the map after an overrun, for the same reason.
- FileHeaders.FileHeader.Deallocate: requires what its assertion demands; on a valid disk that is shown.
- OpenFiles.OpenFile.ReadAt: requires, of a request that transfers something, a position that is not negative and an end that is an int; the code's sum and its table index are undefined otherwise.
- OpenFiles.OpenFile.WriteAt: requires the same of its request.
- OpenFiles.OpenFile.Read: requires the same of the request at the seek position.
- OpenFiles.OpenFile.Write: requires the same of the request at the seek position.
- An OpenFile used after its file was removed: a write in a run is through a live file.
- AddrSpaces.NewAddrSpace: promises nothing about memory when a loop leaves the page table or reads before the file, because the code then indexes outside an array or reads at an undefined place.
- UserBuffers.WriteBuffToUsr: ends at the first address that faults, where the kernel's handler fails its assertion; a table with two pages in one frame is excluded, which no address space has.
- UserBuffers.ReadBuffFromUsr: ends at the first address that faults, for the same reason.
- Hardware.Machine.RaiseException: does not include the change of the machine's status and the kernel's handler.
- Interrupts.Interrupt.CheckIfDue: does not include the call of Machine::DelayedLoad, which touches no state of the clock; it is a step of the processes.
- Interrupts.Interrupt.OneTick: says that the thread has to yield and does not yield; the yield is an event of the kernel model.
- Big-endian hosts and the swapping of object file headers.
- Overflow of the tick counters.
- Syscall dispatch, the process table, the console, the timer device's randomness, debugging output and statistics.
- switch.s, stack allocation and preemption by ptrace: a context switch is one abstract step.
- The tools under bin and the variants of the file system over UNIX files.
