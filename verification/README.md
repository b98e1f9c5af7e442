# A model of the VirtIO-OS kernel

This project models the parts of a small AArch64 kernel that carry deep invariants, and proves them.

* **Memory** (`Pmm`, `PageTable`, `Mmu`, `TaskMemory`, `UserTasks`).  The bitmap page allocator refines a set of free
  pages.  Page tables are words in raw memory; every page of RAM that serves somebody has one *role* (the level 1, 2 or
  3 table of a task, or one virtual page of it), and that map of roles is what makes each set of tables an unshared
  tree.  On top of both, exec, fork and sbrk keep the tasks isolated over any run, and a store by one task is seen
  nowhere else.
* **Virtqueue** (`DescriptorQueue`, `Virtqueue`, `VirtioNet`).  `DescriptorQueue` is a split virtqueue without its
  rings: unbounded sequences, with driver and device as two actors whose steps interleave freely.  `Virtqueue` is the
  driver over the descriptor array and the two 16-bit rings, together with the device's half, and refines it.
  `VirtioNet` is a client: which receive buffer each posted descriptor carries.
* **Descriptors and pipes** (`Pipe`, `PipeTraffic`, `FdTables`, `Pipeline`).  `Pipe` has a pipe as a sequence of
  bytes, what one pass of a read or a write between two yields makes of it, and the kernel's ring buffer, which
  refines that.  `PipeTraffic` is all the calls on one pipe, each anywhere between two of its yields.  In `FdTables`
  open files are shared by the tables of all tasks; reference counts, the open flags of pipes and the freeing of both
  are exact, and pipes are the same sequences.  `Pipeline` runs the shell's launch loop, the set-up of the children
  it forks, and their reads and writes, system call by system call in any interleaving.
* **Tasks** (`Sched`, `Signal`).  The scheduler is a state machine over the task table; signal delivery pushes frames
  on the user's stack and sigreturn pops them, to any depth.
* **Heap** (`Kmalloc`).  First fit with split and coalesce over a list of headers in memory that tiles the heap.
* **FAT16** (`Fat16`).  8.3 names, listing and opening, chain following, sequential reads.
* **Checksum** (`Checksum`).  One's-complement sums, and the echo request whose two checksums must verify.

What a class in C keeps in `static` variables is a Dafny class here; its methods are proved against functions and
predicates on values, and the main results are lemmas about those.  Task limit, pipe size, page count, queue size and
the number of descriptors are parameters.  A page or object that is freed disappears from its map, so that a use after
free would be a missing key.  What the page allocator, the disk or the heap answer to a caller that may fail comes in
as a parameter where the caller is modelled apart from them (`allocs` of `MakePipe`, `allocOk` of `Open`, `ok` of `Add`,
`bufferOk` of `Read`, the disk of `Volume`).

Where code and documentation disagree, the model follows the code:

* `sched_wait` comes back "target is finished" (sched.c:350), but a signal also wakes the waiter, and task 0 may not
  wait at all (`IdleMayNotWait`).
* `fat16_list_root` skips "LFN, volume label, directories" (fat16.c:187), but the mask drops every read-only, hidden or
  system file as well, and `fat16_open` finds directories that the listing leaves out.
* `fat83_to_str` drops all spaces, not only trailing ones (fat16.c:147).
* `kmalloc` does not return NULL when the heap cannot grow (kmalloc.h:20); it calls itself again without end.  Nor is
  one growth always enough: `pages * PAGE_SIZE` is a 32-bit product, and a 4 GB request grows the heap by one page
  (`FourGigabytes`, `RetryExactly`).
* `fd_read` and `fd_write` never look at which end of a pipe a descriptor is, so an end of file is final only while
  nobody writes through the read end (`NotFinal`, `EofFinal`).

## Model

| member | source | states |
|---|---|---|
| BitmapByte.SetClearBit | pmm.c:16-22 | setting or clearing bit k of a byte changes that bit and no other |
| PageAllocator.SetBitRemoves | pmm.c:16-18 | setting a page's bit takes exactly that page out of the set of free pages |
| PageAllocator.ClearBitAdds | pmm.c:20-22 | clearing a page's bit adds exactly that page to the set of free pages |
| PageAllocator.FreeSetDeterminesBitmap | pmm.c:10-11 | two bitmaps with the same free set are equal byte for byte, so restoring the set restores the bitmap |
| PageAllocator.Pmm.constructor | pmm.c:36-63 | exactly the pages at or above the end of the kernel start free, and both counters count them |
| PageAllocator.Pmm.PageAddrRoundTrip | pmm.c:28-34 | any address inside page p of RAM converts back to p |
| PageAllocator.Pmm.BitTest | pmm.c:24-26 | true exactly when the page is not in the free set |
| PageAllocator.Pmm.BitSet | pmm.c:16-18 | the free set loses exactly that page |
| PageAllocator.Pmm.BitClear | pmm.c:20-22 | the free set gains exactly that page |
| PageAllocator.Pmm.AllocPage | pmm.c:65-76 | takes the lowest free page; 0 exactly when there is none; counters stay the sizes of the two sets |
| PageAllocator.Pmm.FreePage | pmm.c:78-86 | adds the page of the address, if it is in RAM, however often it is called |
| PageAllocator.Pmm.AllocPages | pmm.c:88-114 | takes the lowest run of n free pages; 0 exactly when no such run exists or n is 0, and then nothing changes |
| PageAllocator.Pmm.FindRun | pmm.c:92-109 | the scan ends at the lowest run of n free pages, or there is none |
| PageAllocator.Pmm.SetRun | pmm.c:48-50 | the free set loses exactly the run |
| PageAllocator.Pmm.FreePages | pmm.c:116-119 | adds exactly the pages of RAM that the n addresses land on |
| PageAllocator.Pmm.CoveredRun | pmm.c:116-119 | the addresses freed from the start of a run are the pages of that run |
| PageAllocator.Pmm.AllocThenFree | pmm.c:88-119 | freeing the run just allocated restores the bitmap byte for byte and both counters |
| PageAllocator.Pmm.MarkUsed | pmm.c:121-135 | exactly the pages the range touches become used, clipped to RAM |
| PageAllocator.Pmm.TouchedPages | pmm.c:122-128 | the rounded-out page numbers are the pages that hold an address of the range |
| PageAllocator.RoomLeft | sched.c:151-193 | with both runs taken, a task can be launched exactly if four pages are left for its tables |
| PageTable.EntryBits | mmu.c:155-156 | a table descriptor reads back as a table at the address it was made from |
| PageTable.LeafBits | mmu.c:179-181 | a page descriptor decodes to its page address, valid and accessible to user mode |
| PageTable.WalkOwned | mmu.c:149-181 | a walk of a task's tables ends in a fault or in the page whose role is this task's virtual page |
| PageTable.WalkIsLeaf | mmu.h:22-42 | the architectural walk of a well-formed tree is its level 3 word, decoded |
| PageTable.LeafFrame | mmu.c:149-181 | no store outside a task's own table pages changes any of its translations |
| PageTable.SetTableOk | mmu.c:162-175 | linking a table made for that entry keeps every tree unshared and well formed |
| PageTable.LinkEmpty | mmu.c:157-163 | linking an empty table changes no translation of any task |
| PageTable.SetLeaf | mmu.c:178-181 | a level 3 store changes one virtual page of one task |
| PageTable.SetLeafOk | mmu.c:178-181 | and keeps every tree well formed |
| AddressSpaces.VaIndex | mmu.c:152-178 | the three shift-and-mask index fields are the digits of the page number |
| AddressSpaces.Mmu.ZeroTable | mmu.c:28-31 | the page becomes 512 zero words and no other page changes |
| AddressSpaces.Mmu.NewTable | mmu.c:157-163 | a free page becomes an empty table with the given role; 0 exactly when no page is left |
| AddressSpaces.Mmu.Descend | mmu.c:155-163 | returns the table below an entry, making it if missing; no translation changes; fails only with no page left |
| AddressSpaces.Mmu.FillCode | mmu.c:97-102 | each slot of the code table holds the last code page that lands in it, modulo 512 |
| AddressSpaces.Mmu.FillStack | mmu.c:123-129 | the top slots hold the stack pages in order |
| AddressSpaces.Mmu.BuildCode | mmu.c:71-105 | fails exactly with fewer than three free pages; otherwise three fresh tables with the code mapped |
| AddressSpaces.Mmu.BuildStack | mmu.c:107-129 | the stack's level 3 table, linked and filled; 0 exactly when no page is left |
| AddressSpaces.Mmu.CreateUserPgd | mmu.c:69-143 | 0 exactly with fewer than four free pages; otherwise a new tree of fresh tables that maps code and stack and nothing else |
| AddressSpaces.FreshWalk | mmu.c:86-129 | what each virtual page of a fresh tree translates to, faults included |
| AddressSpaces.Mmu.FreePage | syscall.c:149-150 | a page without a role goes back to the free set |
| AddressSpaces.Mmu.FindLevel3 | mmu.c:152-176 | the path to the level 3 table, made where missing, with every translation as before |
| AddressSpaces.Mmu.WriteLeaf | mmu.c:178-181 | one level 3 word changes, for one virtual page of one task |
| AddressSpaces.Mmu.MapUserPage | mmu.c:149-193 | success updates the translation of exactly one page of one task; failure changes none and means no page was left |
| AddressSpaces.OneTranslation | mmu.c:178-181 | one changed leaf word is one changed walk |
| TaskMemory.CodePages | sched.c:147-150 | the pages hold the image and at least 16 KB more |
| TaskMemory.FreshTaskOk | sched.c:178-210 | a fresh task maps exactly code start to break plus the stack if and only if it has at most 512 code pages |
| TaskMemory.LongCodeWraps | mmu.c:97-102 | with 513 code pages the last takes the place of the first and the last virtual page of the layout is unmapped |
| TaskMemory.GrownExact | syscall.c:133-161 | mapping the pages up to the new break makes an exact map exact for the new break |
| TaskMemory.HeapStep | syscall.c:141-154 | one round of the sbrk loop maps one more zeroed page and changes no other translation of any task |
| TaskMemory.TasksSurvive | sched.c:151-192 | work on fresh pages leaves every existing task's address space as it was |
| TaskMemory.LoadedPages | sched.c:156-161 | the code pages hold the image, then zeros |
| TaskMemory.ForkCopies | sched.c:391-418 | at the end of a fork the child's code and stack pages hold what the parent's held |
| TaskMemory.Isolation | sched.c:138-208 | no physical page is mapped twice, no table page is mapped, no guard page is mapped, read off the memory alone |
| TaskMemory.StoreIsolated | mmu.h:22-42 | a store through one task's map changes the one word it names and no load of any other page or task |
| UserTasks.Tasks.constructor | sched.c:68-82 | no user task at first |
| UserTasks.Tasks.NewPages | sched.c:151 | a run of free pages that is nobody's, the lowest one; 0 exactly when there is none |
| UserTasks.Tasks.FreeRun | sched.c:178 | the run is free again |
| UserTasks.Tasks.CopyImage | sched.c:156-161 | memory holds the image in these pages and is otherwise unchanged |
| UserTasks.Tasks.CopyPages | sched.c:396-399 | memory holds copies of the pages and is otherwise unchanged |
| UserTasks.Tasks.NewSpace | sched.c:181-193 | a new tree with an unmapped guard page below the stack; 0 exactly with fewer than four free pages |
| UserTasks.Tasks.AddTask | sched.c:195-212 | one more task, whose map is the fresh map |
| UserTasks.Tasks.LoadCode | sched.c:151-161 | fresh pages that hold the image; 0 exactly when there is no run |
| UserTasks.Tasks.NewStack | sched.c:172-180 | stack and guard pages apart from the code; without them the code pages go back |
| UserTasks.Tasks.Launch | sched.c:181-212 | a task with these pages and exactly this map; -1 exactly with fewer than four free pages |
| UserTasks.Tasks.Exec | sched.c:138-210 | the new task's image of codeSize bytes, then zeros; its break and map; -1 exactly when the table is full or memory for code, stack or tables is missing; earlier tasks untouched |
| UserTasks.Tasks.CopyCode | sched.c:391-399 | fresh pages with the parent's code; 0 exactly when there is no run |
| UserTasks.Tasks.CopyStack | sched.c:410-418 | the fresh stack pages hold the parent's stack |
| UserTasks.Tasks.Fork | sched.c:379-448 | the child's code and stack are copies, its break the parent's, its map fresh; -1 exactly when the table is full or memory is missing |
| UserTasks.Tasks.MapFresh | syscall.c:141-154 | one zeroed page mapped at one address, or no translation changed and at most one page left |
| UserTasks.Tasks.GrowHeap | syscall.c:140-154 | every page of the range is mapped to a fresh zeroed page, or those below the first failure; other tasks unchanged |
| UserTasks.Tasks.Sbrk | syscall.c:113-164 | result, break and map of every case of the call; past the guard check it fails only with at most one page left |
| UserTasks.Tasks.UserStore | mmu.h:22-42 | a store faults exactly where nothing is mapped, and otherwise one word of one task changes |
| UserTasks.Tasks.RunAll | sched.c:138-445 | after any run of exec, fork, sbrk and stores, succeeding or failing, the tasks are isolated and no mapped page is free; by the results of the calls, each task exec'd within 512 code pages whose sbrks all succeeded without lowering the break maps exactly code start to rounded-up break plus the stack |
| DescriptorQueue.InitialInv | virtqueue.c:47-54 | all descriptors start on the free list, once each |
| DescriptorQueue.AddInv | virtqueue.c:88-111 | adding a chain keeps free list and unreclaimed chains a partition of the descriptors |
| DescriptorQueue.GetInv | virtqueue.c:132-152 | so does reclaiming one, and the chain reclaimed was live and is so no more |
| DescriptorQueue.FetchInv | virtqueue.c:106-112 | so does the device's fetch |
| DescriptorQueue.CompleteInv | virtqueue.c:127-135 | so does a completion, in any order |
| DescriptorQueue.RunInv | virtqueue.c:74-154 | the partition holds after every interleaving of driver and device |
| DescriptorQueue.Covered | virtqueue.c:47-54 | the numbers below num are exactly those on the free list or in a live chain, never both |
| DescriptorQueue.DescriptorsConserved | virtqueue.c:88-150 | free descriptors and descriptors in flight always add up to num |
| DescriptorQueue.InFlight | virtqueue.c:107-152 | submitted minus reclaimed is the number of live chains and at most num |
| DescriptorQueue.CompletedBelow | virtqueue.c:129-135 | no more completions than fetched chains |
| RingIndex.SlotOfWrapped | virtqueue.c:107-132 | the slot of a wrapped 16-bit index is the slot of the unbounded counter |
| RingIndex.SlotsDiffer | virtqueue.c:107-108 | two counters less than num apart use different slots |
| RingIndex.NextWrapped | virtqueue.c:110-111 | incrementing a 16-bit index wraps the incremented counter |
| Virtqueues.AddTable | virtqueue.c:88-104 | filling the first free descriptors keeps the free list linked and every live chain stored |
| Virtqueues.GetTable | virtqueue.c:137-150 | so does threading a reclaimed chain back |
| Virtqueues.AvailAdded | virtqueue.c:106-112 | the new head overwrites no slot the device has not consumed |
| Virtqueues.UsedCompleted | virtqueue.c:132-135 | a completion overwrites no slot the driver has not taken |
| Virtqueues.CountersMeet | virtqueue.c:129-130 | the 16-bit comparison of the two indices is the comparison of the counters |
| Virtqueues.Virtqueue.IndexDifference | virtqueue.c:107-152 | avail_idx minus last_used_idx mod 2^16 is the number of unreclaimed chains and at most num |
| Virtqueues.Virtqueue.constructor | virtqueue.c:25-59 | an empty queue whose free list runs 0 to num-1 and ends in 0xFFFF, num cut at the maximum |
| Virtqueues.Virtqueue.EnoughFree | virtqueue.c:77-86 | true exactly when the free list has count entries |
| Virtqueues.Virtqueue.FillChain | virtqueue.c:88-104 | the first descriptors of the free list become the chain, in order, and no other word changes |
| Virtqueues.Virtqueue.AddChain | virtqueue.c:74-115 | 0xFFFF and nothing changed exactly when the free list is shorter than the request; else the queue has one more submission at the returned head |
| Virtqueues.Virtqueue.Publish | virtqueue.c:106-112 | the head is in the available ring at the unbounded counter's slot and the index is that counter wrapped |
| Virtqueues.Virtqueue.ReleaseChain | virtqueue.c:137-150 | following NEXT, every descriptor of the chain goes on the front of the free list |
| Virtqueues.Virtqueue.GetUsed | virtqueue.c:127-154 | takes the oldest completion, if there is one, with its head and length, and frees its chain |
| Virtqueues.Virtqueue.Advance | virtqueue.c:152-153 | one more reclaimed, and the rings still read right |
| Virtqueues.Virtqueue.DeviceFetch | virtqueue.c:106-114 | the device sees the submissions in order, each once |
| Virtqueues.Virtqueue.DeviceRead | virtqueue.c:88-104 | until a chain is reclaimed, following NEXT from its head gives exactly the submitted buffers, in order |
| Virtqueues.Virtqueue.DeviceComplete | virtqueue.c:127-135 | a fetched chain is returned once, in any order, and the driver's invariant holds |
| VirtioNet.PostMore | virtio_net.c:33-54 | posting one more slot keeps every slot posted once under the descriptor that carries it |
| VirtioNet.PostBack | virtio_net.c:190-191 | so does posting the slot just received |
| VirtioNet.TakeBack | virtio_net.c:171-176 | the table names the slot whose buffer the reclaimed chain carried |
| VirtioNet.DeviceKeepsPosted | virtio_net.c:167-195 | nothing the device does in between takes a slot off the queue |
| VirtioNet.NetRx.constructor | virtio_net.c:44-54 | every slot up to the ring size is posted exactly once |
| VirtioNet.NetRx.PostRxBuffer | virtio_net.c:33-42 | the slot is on the queue, entered under its descriptor |
| VirtioNet.NetRx.Receive | virtio_net.c:167-195 | the frame length of the oldest completion, cut to the caller's buffer, and its slot posted again; 0 and nothing changed when there is none |
| FdTables.RefsStore | fd.c:57-59 | a store to one slot moves one reference |
| FdTables.CloseCounts | fd.c:91-110 | closing keeps every reference count equal to the number of slots that point at the file |
| FdTables.LastClose | fd.c:97-107 | the last close of one end clears its flag, and frees the pipe exactly when the other end is gone |
| FdTables.FileLives | fd.c:109-110 | a file exists exactly while some slot of some table points at it |
| FdTables.PipeLives | fd.c:97-107 | a pipe exists exactly while one of its ends does; each flag is set exactly while that end exists |
| FdTables.ReferenceOk | fd.c:318-319 | one more slot, one more reference |
| FdTables.NewPipe | fd.c:277-300 | two fresh files with one slot each keep the counts exact |
| FdTables.Fds.constructor | fd.c:12-17 | the console alone, no tables, no pipes |
| FdTables.Fds.FindFree | fd.c:29-35 | the lowest empty descriptor; -1 exactly when there is none |
| FdTables.Fds.Close | fd.c:87-113 | -1 and nothing changed exactly for a descriptor that is not open; else its slot is empty and counts and flags are exact again |
| FdTables.Fds.Unreference | fd.c:94-110 | count, flags and freeing of one dropped reference |
| FdTables.Fds.Reference | fd.c:318-319 | an empty slot points at the file, which has one more reference |
| FdTables.Fds.TableInit | fd.c:37-46 | a table with the console on 0, 1 and 2 |
| FdTables.Fds.TableDup | fd.c:55-61 | the copy equals the parent's table, every count is exact, no file appears or goes |
| FdTables.Fds.TableDestroy | fd.c:48-53 | the table is empty and no other table changes |
| FdTables.Fds.Open | fd.c:63-85 | the lowest descriptor for a fresh file at position 0; -1 exactly when none is free, the path is not found, or there is no memory for the file |
| FdTables.Fds.MakePipe | fd.c:265-305 | the two lowest descriptors for the two ends of a fresh pipe; -1 and nothing changed exactly when two are not free or an allocation fails |
| FdTables.Fds.Dup2 | fd.c:307-322 | newfd refers to oldfd's file; the call meets a null pointer exactly when an open descriptor is duplicated onto itself |
| FdTables.Fds.ReadPipe | fd.c:150-171 | the pipe of the descriptor becomes what one pass of the ring buffer's read makes of it, with the same outcome; no other pipe changes |
| FdTables.Fds.WritePipe | fd.c:239-259 | the pipe becomes what one pass of the ring buffer's write makes of it, whichever end the descriptor is; no other pipe changes |
| Pipeline.ChildCalls | uprogs/shell.c:243-257 | each of a child's five calls takes its table to the next stage of its set-up |
| Pipeline.ForkedTable | uprogs/shell.c:239-240 | a child starts from the shell's table |
| Pipeline.ChildDone | uprogs/shell.c:243-257 | after them its table is the shell's own but for its two pipe ends on 0 and 1 |
| Pipeline.ShellCalls | uprogs/shell.c:267-273 | the shell's closes leave it with the read end for the next segment alone |
| Pipeline.RoomForPipe | uprogs/shell.c:232-237 | with three free descriptors every pipe call finds two |
| Pipeline.NextPipe | uprogs/shell.c:232-237 | the descriptors of the next pipe clash with no earlier one still open |
| Pipeline.PipeWired | uprogs/shell.c:232-237 | a pipe call keeps every table what its program counter says |
| Pipeline.EndsHeld | uprogs/shell.c:228-274 | at every moment, who holds each end of a pipe |
| Pipeline.ShellEnds | uprogs/shell.c:228-274 | which ends the shell holds in each phase of each iteration |
| Pipeline.ChildWrites | uprogs/shell.c:243-257 | of all children only child j ever holds the write end of pipe j, until it exits |
| Pipeline.ChildReads | uprogs/shell.c:243-257 | the read end is child j's until its last set-up call and child j+1's until its exit, nobody else's |
| Pipeline.StreamsMove | fd.c:164-169 | bytes put into or taken from one pipe keep every pipe's log of writes equal to its log of reads and its contents |
| Pipeline.PipeFlags | fd.c:97-107 | so the flags of a pipe are whether its two files are held |
| Pipeline.Shell.constructor | uprogs/shell.c:224-226 | the launch starts with no pipe and no child |
| Pipeline.Shell.ParentStep | uprogs/shell.c:228-274 | one system call of the shell, at any moment, keeps the wiring |
| Pipeline.Shell.MakeNext | uprogs/shell.c:229-237 | the next pipe, except after the last segment |
| Pipeline.Shell.ForkChild | uprogs/shell.c:239-264 | the child has the shell's table and its own copies of the variables |
| Pipeline.Shell.DropPrevious | uprogs/shell.c:266-268 | the previous read end leaves the shell's table |
| Pipeline.Shell.DropWrite | uprogs/shell.c:269-273 | the write end leaves it, and the read end is kept for the next segment |
| Pipeline.Shell.ChildStep | uprogs/shell.c:243-257 | one set-up call of any child, at any moment, keeps the wiring |
| Pipeline.Shell.SetUpCall | uprogs/shell.c:243-257 | the call made is the one for the child's program counter, with the child's own descriptors, and succeeds |
| Pipeline.Shell.ChildExit | sched.c:317-320 | an exit empties the child's table and keeps the wiring |
| Pipeline.Shell.Run | uprogs/shell.c:224-274 | after any interleaving of the shell, the children's calls, reads, writes and exits the tables are what the program counters say, of every pipe the bytes accepted are those read and those in it, and the bytes accepted from a stage that has exited never change |
| Pipeline.Shell.Make | uprogs/shell.c:224-274 | one move of such a run |
| Pipeline.Shell.Streams | fd.c:164-169 | over every run, what stage j+1 has read, then what is in the pipe, is what stage j has had accepted |
| Pipeline.Shell.StaysAtEof | fd.c:158-160 | an end of file is final: no later move brings the reader another byte |
| Pipeline.Shell.ChildOnPipe | uprogs/shell.c:243-257 | descriptors 0 and 1 of a child that has made its calls are the ends of its two pipes |
| Pipeline.Shell.WriteStdout | fd.c:239-259 | stage j writes: what there is room for is accepted, in order; it yields exactly on a full pipe with a reader and fails exactly without one |
| Pipeline.Shell.OpenEnds | fd.c:97-107 | at every moment exactly which ends of a pipe are open and whether it still exists; once the shell is past it the write end is open exactly until its one writer exits |
| Pipeline.Shell.ShellRestored | uprogs/shell.c:266-278 | after the loop the shell's table, and everyone else's, is what it was before |
| Pipeline.Shell.Launched | uprogs/shell.c:224-274 | stage j has exactly its two neighbours on standard input and output |
| Pipeline.Shell.ReadStdin | fd.c:150-171 | stage j+1 gets the next bytes of the stream; end of file exactly when stage j has exited and everything it had accepted has been read; waits exactly when all has been read and it has not |
| Pipeline.Shell.Drain | uprogs/shell.c:96 | reading until 0 after stage j has exited gets exactly the bytes of stage j still to be read, then end of file, and terminates |
| Pipes.WindowFront | fd.c:165-169 | the byte at the read position is the first of the contents |
| Pipes.WindowBack | fd.c:251-255 | a byte at the write position is the last of the contents |
| Pipes.Ring.constructor | fd.c:277-281 | an empty pipe, both ends open |
| Pipes.Ring.ReadPass | fd.c:157-170 | the ring buffer refines the pipe as a sequence: end of file when empty without a writer, a yield when empty with one, else the first min(count, available) bytes, which leave |
| Pipes.Ring.Get | fd.c:166-168 | one byte leaves at the front |
| Pipes.Ring.WriteCall | fd.c:239-258 | a write from its start: -1 at once exactly when the read end is closed, else the loop |
| Pipes.Ring.WritePass | fd.c:246-258 | the ring buffer refines the pipe as a sequence: as many bytes as fit are appended; done when all are in, else a yield or, without a reader, a broken pipe |
| Pipes.Ring.Put | fd.c:252-254 | one byte goes in at the back |
| PipeTraffic.OwnAppend | fd.c:239-259 | bytes logged for one call add to that call's bytes and no other's |
| PipeTraffic.StepInv | fd.c:150-259 | every step of every call, through either end, keeps: bytes returned, then bytes in the buffer, are the bytes accepted; and each call's own bytes |
| PipeTraffic.RunInv | fd.c:150-259 | so over all interleavings at yields |
| PipeTraffic.Finished | fd.c:239-259 | a finished write's bytes are in the stream in order, and what was delivered is a prefix of it |
| PipeTraffic.EofExactly | fd.c:157-160 | a read of at least one byte returns none exactly if at that moment the write end is closed and everything accepted has been delivered |
| PipeTraffic.OnlyReadEnd | fd.c:239-241 | after the write end has closed only a descriptor of the read end can begin a write |
| PipeTraffic.EofFinal | fd.c:239-258 | after an end of file nothing more is accepted if and only if nobody writes through a descriptor of the read end and no write left inside its call goes on |
| PipeTraffic.NotFinal | fd.c:239-241 | with the write end closed and an end of file read, one byte written through the read end is accepted and read |
| PipeTraffic.Traffic.constructor | fd.c:277-281 | no calls yet |
| PipeTraffic.Traffic.StartWrite | fd.c:239-258 | a write call on the ring buffer is that step of the stream; it needs its own end open, not the write end |
| PipeTraffic.Traffic.GoOnWriting | fd.c:246-258 | so is a write going on from its yield |
| PipeTraffic.Traffic.StartRead | fd.c:150-170 | so is a read call |
| PipeTraffic.Traffic.GoOnReading | fd.c:158-170 | so is a read going on from its yield |
| PipeTraffic.Traffic.CloseEnd | fd.c:98-101 | so is the close of an end, whatever calls there are |
| PendingSignals.SetAndClear | signal.c:25-94 | the two mask operations add and remove one signal |
| PendingSignals.TakenOnce | signal.c:83-94 | over any run, a signal is taken at most once per time it was sent, and never lost |
| PendingSignals.OrderAscending | signal.c:83-91 | pending signals are taken lowest number first, all of them, once each |
| Signals.FrameAddress | signal.c:127-129 | the frame starts 288 bytes down, rounded down to 16 |
| Signals.PushPop | signal.c:125-167 | while the frame is left alone, popping it gives back all 34 words and memory from the old stack pointer up |
| Signals.RunKeeps | signal.c:76-167 | however deliveries nest, a run leaves memory at and above its entry stack pointer alone |
| Signals.Restores | signal.c:76-167 | a delivery, its handler, all deliveries nested in it and the return restore all 34 words exactly, and memory at and above the stack pointer |
| Signals.Task.constructor | signal.c:12-16 | nothing pending, all handlers default |
| Signals.Task.Send | signal.c:18-25 | adds exactly the signal; -1 and nothing for a number outside 1 to 31 |
| Signals.Task.SetHandler | signal.c:169-179 | returns the old handler and replaces one; never SIGKILL's |
| Signals.Task.Deliver | signal.c:76-153 | takes the least pending signal, once, and does what its handler says: kill, ignore, or push a frame |
| Signals.Task.PushFrame | signal.c:125-149 | registers and memory are those of a pushed frame, nothing else changes |
| Signals.Task.Return | signal.c:155-167 | registers are those of the frame at the stack pointer, memory is unchanged |
| Scheduler.PlaceIsMod | sched.c:241 | going round by subtraction is the source's remainder |
| Scheduler.DistanceIsMod | sched.c:241 | distance is (t - current) mod num_tasks |
| Scheduler.Next | sched.c:239-248 | the READY task nearest going round, else the running one, else task 0 |
| Scheduler.RescheduleRunning | sched.c:250-271 | a yield or tick keeps exactly one task RUNNING, the current one, and brings every READY task nearer |
| Scheduler.RescheduleStopped | sched.c:250-271 | when the current task has stopped, the switch is right if and only if some task is READY |
| Scheduler.LeftStopped | sched.c:317-332 | what an exit wakes, and that no blocked task is left waiting for a finished one |
| Scheduler.WaitingStopped | sched.c:345-347 | a task that blocks waits for one that has not finished |
| Scheduler.SentOk | signal.c:18-34 | a signal wakes a blocked task and keeps the invariant |
| Scheduler.StepSafe | sched.c:239-352 | every call keeps the invariant and revives no finished task if and only if, when the current task stops, another can run |
| Scheduler.ReadyMoves | sched.c:239-306 | a READY task stays READY until chosen; each hand-over brings it nearer, nothing else moves it |
| Scheduler.ExitWakes | sched.c:326-332 | whoever waits for the exiting task can run again |
| Scheduler.RunSafe | sched.c:239-352 | over any run one task is RUNNING and it is current, blocked tasks wait for unfinished ones, finished tasks never run again |
| Scheduler.IdleRun | sched.c:245-247 | any run in which task 0 neither waits nor exits is safe |
| Scheduler.IdleMayNotWait | sched.c:337-352 | with task 0 waiting it is not: the wait returns with nothing finished and no task RUNNING |
| Scheduler.PatienceFalls | sched.c:268-306 | (free task slots, distance) falls with every hand-over and never rises |
| Scheduler.Bypass | sched.c:268-306 | so a READY task gets its turn within that many hand-overs, whatever is created |
| Scheduler.BypassOthers | sched.c:268-306 | and within num_tasks - 1 if nothing is |
| Scheduler.Sched.constructor | sched.c:68-82 | task 0 runs and is the only one |
| Scheduler.Sched.PickNext | sched.c:239-248 | the loop finds that task |
| Scheduler.Sched.SwitchTo | sched.c:250-266 | the two tasks trade states and current moves |
| Scheduler.Sched.DoYield | sched.c:268-271 | is one rescheduling |
| Scheduler.Sched.SignalSend | signal.c:18-34 | is the Send step; -1 exactly for a bad signal, a bad task or a finished one |
| Scheduler.Sched.DoExit | sched.c:308-335 | is the Exit step, and keeps the invariant if somebody can run |
| Scheduler.Sched.WakeAll | sched.c:326-332 | wakes exactly those blocked on this task |
| Scheduler.Sched.DoWait | sched.c:337-352 | is the Wait step; -1 exactly for a bad task number |
| Scheduler.Sched.Add | sched.c:84-105 | is the Create step; -1 exactly when the table is full or memory was missing |
| KernelHeap.LivePayloads | kmalloc.c:84-109 | payloads are 16-aligned, inside the heap, apart from each other and from every header |
| KernelHeap.SpanIsExtent | kmalloc.c:67 | headers and sizes add up to the distance from the first block to the end of the last |
| KernelHeap.AllFreed | kmalloc.c:141-161 | with nothing live, one free block is the whole heap |
| KernelHeap.SplicedTiles | kmalloc.c:93-161 | replacing a piece of the list by one over the same addresses keeps it tiling the heap |
| KernelHeap.SplicedLinked | kmalloc.c:93-161 | and the headers in memory are the list's, next pointers included |
| KernelHeap.CutTable | kmalloc.c:91-108 | handing out a block adds one live block and leaves every other as it was, tiled and with no two free neighbours |
| KernelHeap.FreedTable | kmalloc.c:138-139 | freeing one removes exactly that live block |
| KernelHeap.MergedTable | kmalloc.c:141-161 | joining two free neighbours changes no live block and no total |
| KernelHeap.JoinedApart | kmalloc.c:149-161 | after the joins no two neighbours are both free |
| KernelHeap.GrownTable | kmalloc.c:38-67 | growth adds its bytes at the end as free space and touches no live block |
| KernelHeap.PagesEnough | kmalloc.c:38-117 | up to 0xFFFFEFE0 bytes the growth, a 32-bit product, holds the request and a header |
| KernelHeap.GrowSizeWhole | kmalloc.c:38 | the 32-bit product of pages and page size is a whole number of pages, exact below 2^20 pages |
| KernelHeap.SmallRetries | kmalloc.c:114-120 | for such a request the retry always succeeds |
| KernelHeap.FourGigabytes | kmalloc.c:38-120 | a request of 4 GB grows the heap by a single page, so behind a used block the retry fails |
| KernelHeap.NowFits | kmalloc.c:41-120 | what fits after a growth of any number of bytes, if nothing did before |
| KernelHeap.RetryExactly | kmalloc.c:38-120 | for a request of any size: growth adds its bytes to the heap and the retry succeeds if and only if the last block, or the new one, is then large enough |
| KernelHeap.AllocatedLive | kmalloc.c:84-109 | the caller gets a block nobody had, at least as large as asked for and at most 47 bytes larger |
| KernelHeap.Heap.constructor | kmalloc.c:70-82 | one free block, the whole heap, of the 32-bit product's bytes |
| KernelHeap.Heap.HeapGrow | kmalloc.c:30-68 | a free last block is longer by the 32-bit product, else there is a new free block; heap_end and heap_size follow |
| KernelHeap.Heap.Kmalloc | kmalloc.c:84-121 | first fit, split where 48 bytes more are there; grows exactly when nothing fits, and then once, recursion at most one deep, for every request that fits or whose retry does |
| KernelHeap.Heap.Take | kmalloc.c:91-109 | the block is cut in place and its counter kept |
| KernelHeap.Heap.Kzalloc | kmalloc.c:123-131 | the payload is zero and no other byte changes; null exactly for size 0 |
| KernelHeap.Heap.Kfree | kmalloc.c:133-162 | exactly that live block goes, both neighbours are joined, totals are exact |
| KernelHeap.Heap.SetFree | kmalloc.c:138-139 | marks the block and counts it |
| KernelHeap.Heap.MergeNext | kmalloc.c:141-147 | after it only the block before may be a free neighbour |
| KernelHeap.Heap.FindPrevious | kmalloc.c:149-155 | the walk ends at the block before, null for the first |
| KernelHeap.Heap.MergePrevious | kmalloc.c:149-161 | after it no two neighbours are both free |
| FatNames.ToFat83 | fat16.c:102-129 | stem and extension, upper case, cut to 8 and 3 and filled with spaces |
| FatNames.CopyStem | fat16.c:109-115 | up to 8 characters before the first dot |
| FatNames.CopyExtension | fat16.c:121-128 | up to 3 characters |
| FatNames.Fat83ToStr | fat16.c:144-163 | both parts without their spaces, a dot between them exactly if the extension's first byte is no space; fits 13 bytes |
| FatNames.Refilled | fat16.c:147-159 | dropping spaces and filling up again gives a part back if and only if its spaces were at the end |
| FatNames.PackedClean | fat16.c:102-129 | packed names have no lower case, no terminator, and no dot in the stem |
| FatNames.RoundTrip | fat16.c:102-163 | packing the shown name gives the entry's 11 bytes back if and only if the name is well formed |
| FatNames.InnerSpaceLost | fat16.c:147-151 | a name with an inner space does not come back |
| FatDirectory.ListableOpens | fat16.c:187-223 | every entry the listing shows is one that opening looks at |
| FatDirectory.ListRoot | fat16.c:165-201 | reports exactly the listable entries before the end mark or the first unreadable sector, in order |
| FatDirectory.Fat83Cmp | fat16.c:134-139 | equality of the 11 bytes |
| FatDirectory.Open | fat16.c:203-239 | the first entry it may open with these 11 bytes; -1 exactly when the scan meets none |
| FatDirectory.OpensItself | fat16.c:165-239 | the name reported for an entry opens that entry if and only if it is well formed and no earlier entry has it |
| FatDirectory.ReportsOpen | fat16.c:165-239 | in a directory of well-formed, distinct names every reported name opens its own entry |
| FatDirectory.ReportedFrom | fat16.c:187-197 | every report is the name and size of a listable entry |
| FatDirectory.ListedOpens | fat16.c:165-239 | in such a directory, opening the k-th reported name returns the entry it was reported for, its size included |
| FatFiles.ReadFile | fat16.c:241-277 | the chain's bytes up to min(file_size, buf_size), their number as an int; -1 exactly when a sector they come from cannot be read; terminates on any chain |
| FatFiles.ReadLess | fat16.c:244-269 | reading less gives a prefix of reading more, and fails no oftener |
| FatFiles.OneCluster | fat16.c:249-269 | sector by sector is cluster by cluster |
| FatFiles.ChainData | fat16.c:249-276 | on a chain that ends the result is its bytes, cut at the shorter length |
| FatFiles.EndlessData | fat16.c:249-276 | on one that does not end every read is as long as asked for |
| FatFiles.SharedFile.constructor | fd.c:75-81 | an open file at position 0 |
| FatFiles.SharedFile.Read | fd.c:173-218 | the next min(count, what is left) bytes, for whichever descriptor; in call order all reads make a prefix of the file; fails exactly on an unreadable sector, from 2 GB up, or without a buffer |
| InternetChecksum.FoldLess | main.c:103-104 | one fold makes the sum smaller and keeps it modulo 65535 |
| InternetChecksum.FoldKeeps | main.c:103-104 | so does the whole loop, and only 0 folds to 0 |
| InternetChecksum.Checksum | main.c:97-106 | 0 exactly if the sum is a positive multiple of 65535 |
| InternetChecksum.StoredSum | main.c:143-145 | a word stored at an even position replaces its share of the sum |
| InternetChecksum.StoreVerifies | main.c:143-150 | zeroing the field, storing the checksum and summing again gives 0 |
| InternetChecksum.ChangeSeen | main.c:97-106 | a changed word goes unnoticed exactly if one zero replaced the other |
| InternetChecksum.SumBound | main.c:98-102 | the sum of n bytes fits 32 bits up to 128 KB |
| InternetChecksum.IpChecksum | main.c:97-106 | within the 32-bit bound the loops compute the checksum, odd lengths included |
| InternetChecksum.Folded | main.c:103-105 | the folding loop and the complement |
| InternetChecksum.Write16 | main.c:63-66 | the two bytes of the word, high first |
| InternetChecksum.StoreChecksum | main.c:143-145 | the stretch of the frame verifies and only the field changed |
| InternetChecksum.WriteFields | main.c:114-138 | every field of the frame is in its place |
| InternetChecksum.BuildIcmpEcho | main.c:108-153 | a 74-byte echo request with its fields in place and both checksums verifying |

## Left out

- Pmm: page counts above 2^20 and `pmm_mark_used` of a range wholly outside RAM (the 32-bit page number wraps), and `pmm_free_pages` with a count whose byte offset does not fit 32 bits.
- UserTasks.Tasks.Exec: the program image is modelled in 64-bit words, the last filled with zero bytes, page by page, and its size is below 4 GB less a page; the copy loop itself is one assignment a page.
- UserTasks.Tasks.Sbrk: a break that wraps downwards is followed as the code does it, but such a task no longer counts as mapping exactly its layout, and neither does one with a failed call behind it.
- UserTasks.Tasks.Fork: says nothing of the parent's heap pages, which the source does not copy; a forked child maps code and stack only.
- Page leaks: `mmu_create_user_pgd` and a failed sbrk keep pages, and remapping a page drops the old one; no claim is made that they come back, and no task is torn down.
- AddressSpaces.Mmu.CreateUserPgd: the stack is always four pages, as both callers pass.
- TLB, caches, barriers, the context switch itself, and interrupts inside kernel code: every modelled call is atomic, and pipe calls interleave at `sched_yield` only.
- Virtqueues.Virtqueue.constructor: the queue size is a power of two, and the table of queue slots never runs out; notification of the device is left out.
- Virtqueues.Virtqueue.AddChain: buffers carry no NEXT flag of their own; a caller may set WRITE only (virtqueue.h:73).
- VirtioNet.NetRx.Receive: the copying of the frame's bytes.
- FdTables.Fds.Open: the path lookup is its parameter `found` with the entry's cluster and size; `FatDirectory.Open` models the lookup.
- FdTables: console input and output.
- Pipeline: all calls of the launch succeed, three descriptors are free in the shell's table, and a table once emptied by an exit is not used again. Stages read descriptor 0 and write descriptor 1, as the shell's built-in commands do; a program the shell execs has the console, not the pipe. Splitting the line and the final waits are left out.
- Signals.Task.Deliver: where a frame is pushed the user's stack has room for it and is mapped; an overflowing stack would fault in the kernel.
- Signals.Task.Return: the stack pointer is 8-byte aligned and the frame is mapped, as after any delivery.
- Scheduler: names, tick counts, page tables and kernel stacks of tasks.
- KernelHeap.Heap.HeapGrow: growth always succeeds and is contiguous; `kfree` joins list neighbours without comparing addresses, so without this the list would not tile the heap, and when growth fails `kmalloc` never returns.
- KernelHeap.Heap.Kmalloc: requests that neither fit nor are met by one growth (`RetryExactly` says which; none below 4 GB less two pages), and those within 4128 bytes of 2^64, where the rounding and the page count wrap.
- KernelHeap.Heap.Kfree: only null or a payload that is live, as the caller must promise.
- FatFiles.ReadFile: lengths above 2^32 - 512, where `bytes_done + chunk` wraps; mounting and the boot sector; the table is total, so a cluster number past the end of the cached table reads some entry.
- FatFiles.SharedFile.Read: the first of the two reads, which fills position + count bytes of the caller's buffer; only the final contents are modelled, and the disk answers both reads alike.
- InternetChecksum.IpChecksum: sums of 2^32 and more, where the accumulator wraps and the value modulo 65535 is lost.
- Drivers, interrupt controller, timer, boot code, graphics, input, `user.c`, the demos, and the other user programs: no deep invariant.
