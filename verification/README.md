# ESPOS kernel algorithms

ESPOS is a bare-metal kernel for the ESP32-C6. This project models the stateful algorithms under its
drivers and proves what they promise: the first-fit heap, the RAM filesystem, the cooperative scheduler
with its context switch, the boot image loader and its CRC, SLIP and the Internet checksum, line drawing,
the `calc` evaluator and the passwd text editor.

`dafny verify dfyconfig.toml` checks everything.

## How it is laid out

Each algorithm that updates state in place is a class or a method over arrays, maps and fields, and its
contract equates the new state with a function of the old one. The theorems are lemmas about those
functions, over every input, every run or every reachable state.

| file | what it holds |
|---|---|
| Word32.dfy, KMemory.dfy | 32-bit rounding; `k_memcpy` |
| Heap.dfy | the block list as values, its canonical form, and `KernelHeap`, linked headers in a RAM map |
| VfsModel.dfy, VfsTree.dfy, VfsPaths.dfy, VfsInit.dfy, VfsTable.dfy | the node table as values; the map from paths to entries it refines; path round trips; what `vfs_init` leaves and runs from it; `FileSystem`, the table as an array |
| ContextSwitch.dfy, SchedModel.dfy, SchedRuns.dfy, SchedTable.dfy | `ctx_switch` on registers and RAM; the task state machine and its invariant; theorems over whole runs from `mm_init`; `Scheduler`, the task table as an array |
| Kernel.dfy | one heap shared by files, task stacks and other borrowers, over whole runs from `mm_init` |
| Bytes.dfy, Crc32.dfy, BootLoader.dfy | the nibble-table CRC, the loader's checks and copy loop, the packer |
| Slip.dfy, InetChecksum.dfy, IcmpEcho.dfy | framing, checksums in both byte orders, the echo request and reply |
| Bresenham.dfy | the ideal line, the 16-bit loop that draws it |
| Calc.dfy, CalcCursor.dfy | grammar, meaning and printer; the evaluator with its cursor |
| PasswdText.dfy, Passwd.dfy, PasswdEditor.dfy | the user list as text; the list over the filesystem; the editing loops over their buffers |

## Findings about the code

- A task that is alone yields to itself and passes `ctx_switch` its own stale stack pointer.
  `SchedModel.LoneYieldExactly` and `ContextSwitch.SelfSwitchExactly` give the exact condition under which
  it goes on as it was: it yields from the same stack depth as the time before.
  `SchedRuns.LoneYieldGoesAstray` is a run from boot in which it does not.
- `mm_alloc` rounds a request in 32 bits. `Heap.RoundUpCovers` shows that requests above 0xFFFFFFFC are
  the ones whose rounded size does not cover them.
- `build_pwd` copies the path through a `tmp` of 128 bytes, whatever the size of the caller's buffer, and
  writes "/..." into any buffer. `VfsModel.PwdFits` is the exact condition under which the copies fit,
  `VfsPaths.PwdFitsInside` covers the callers in the tree, which pass 128, and
  `VfsInit.PathOverrunsTmp` is a state ten operations from `vfs_init`'s empty table, with a path of 155
  characters, in which a larger buffer does not fit.
- `split_path` stores 30 characters of a name and `resolve_path` reads 31 at a time.
  `VfsPaths.CreatedIsFoundExactly` and `VfsPaths.RenamedIsFoundExactly` show for which names a new or
  renamed entry can be found again; `VfsInit.CreatedAndLost` creates ".." and a 31-character name that cannot.
- `vfs_rename` compares the whole new name and stores 30 characters of it. `VfsPaths.RenameCollides` gives
  two siblings of one name, `VfsPaths.RenameKeepsSiblingsExactly` the exact condition.
- `draw_line` fits in 16 bits for coordinate differences up to 10923, and `Bresenham.ReachIsTight` is a line
  with a difference of 10924 that does not.
- The comment on `crc32` asks for a byte count that is a multiple of 4; the code computes the CRC of any
  number of bytes (`Crc32.Compute`).
- The loader's guard against wrapping never has anything to catch (`BootLoader.CheckExactly`): the sums it
  guards cannot wrap once the size and the load address have passed the checks before it.
- The comment on `slip_recv` promises 0 on a timeout; the code has none and waits for ever. In the model
  `Slip.Recv` is then `Waiting`, and `Slip.Uart.Receive` returns 0 where the kernel would wait.
- `slip_recv` never finds its way back into step. A frame ends and the next begins with an END each, and the
  receiver tells them apart by counting only: `Slip.JoinedLate` shows that one that starts inside a frame gets
  none of the packets that follow, however many. A bad escape is not discarded either, as its comment says:
  `Slip.BadEscapeLosesAll` shows that the offending octet arrives as a packet and then nothing else does.
- `user_del` and `user_set_perm` answer E_OK without looking at the result of their write
  (`Passwd.ServeExact`: the list is then unchanged). `Passwd.SilentFailure` is such a call, right after
  `vfs_init` in a heap that its one file fills.

## Model

| member | source | states |
|---|---|---|
| Heap.FirstFit | kernel/src/mm.cpp:30-32 | the block taken fits and no block before it does; none fits when the scan runs off the list |
| Heap.BlocksDisjoint | kernel/src/mm.cpp:5-9 | headers and payloads of different blocks never overlap and stay inside the heap |
| Heap.CanonicalForm | kernel/src/mm.cpp:49-64 | the block list equals the list rebuilt from the live blocks alone, one free block for every maximal gap |
| Heap.SameLiveSameList | kernel/src/mm.cpp:49-64 | two heaps with the same live blocks have the same block list |
| Heap.MergeCanonical | kernel/src/mm.cpp:54-63 | one coalescing pass leaves no two adjacent free blocks, tiles the same range and keeps every live block |
| Heap.FreeEffect | kernel/src/mm.cpp:49-64 | a release keeps the list canonical and takes exactly the released block off the live ones, and none for null |
| Heap.FreePointers | kernel/src/mm.cpp:49-64 | a release removes one pointer from the live pointers and no other |
| Heap.FreeKeepsBlock | kernel/src/mm.cpp:49-64 | every other block in use keeps its place and size across a release |
| Heap.FreesCommute | kernel/src/mm.cpp:49-64 | releasing a set of blocks in any order gives the same block list |
| Heap.FreeEverything | kernel/src/mm.cpp:15-24 | releasing all live blocks restores the list that `mm_init` made |
| Heap.RoundUpCovers | kernel/src/mm.cpp:29 | a request is covered by its rounded size if and only if it is at most 0xFFFFFFFC |
| Heap.AllocEffect | kernel/src/mm.cpp:27-47 | null leaves the list as it was; otherwise exactly one new live block, of at least the rounded size, inside the heap, the list canonical |
| Heap.AllocExactly | kernel/src/mm.cpp:27-47 | the block taken is the lowest free one of at least the rounded size, 12 bytes before the pointer; a free remainder is split off exactly when 28 bytes or more are left over; every other block stays; null exactly when no free block is large enough |
| Heap.LiveBlocksKept | kernel/src/mm.cpp:27-47 | an allocation keeps every block in use and returns none of them |
| Heap.AllocBlocks | kernel/src/mm.cpp:27-47 | the new block has at least the rounded size and was no block before; every other block keeps its place and size |
| Heap.FreeBlocks | kernel/src/mm.cpp:49-64 | every block but the released one keeps its place and size |
| Heap.BlocksApart | kernel/src/mm.cpp:27-47 | the bytes of different live blocks do not overlap each other or the header between them |
| Heap.AllocFreeRestores | kernel/src/mm.cpp:27-64 | allocating and releasing the result restores the block list exactly |
| Heap.ClearRunInsideOneBlock | kernel/src/mm.cpp:54-63 | a run of bytes that no live block covers lies inside a single free block |
| Heap.AllocFailsExactly | kernel/src/mm.cpp:27-47 | null if and only if no run of bytes clear of live blocks can hold a header and the rounded request |
| Heap.EveryRunCanonical | kernel/src/mm.cpp:15-64 | after every run of allocations and releases of live pointers the list is the canonical one |
| Heap.BytesConserved | kernel/src/mm.cpp:66-74 | free payload, live payload and headers add up to the heap |
| Heap.KernelHeap.constructor | kernel/src/mm.cpp:15-24 | one free block over the whole range |
| Heap.KernelHeap.Allocate | kernel/src/mm.cpp:27-47 | the linked headers in RAM become the list that allocation gives, and the pointer returned is the one it gives (`Heap.AllocExactly` says which) |
| Heap.KernelHeap.TakeBlock | kernel/src/mm.cpp:33-43 | splitting rewrites the headers so that the chain is the carved list |
| Heap.KernelHeap.Release | kernel/src/mm.cpp:49-64 | marking and coalescing in place give the released list |
| Heap.KernelHeap.Coalesce | kernel/src/mm.cpp:54-63 | the loop over linked headers computes the merged list |
| Heap.KernelHeap.CountFree | kernel/src/mm.cpp:66-74 | the loop returns the free payload, which is less than the heap |
| VfsModel.NoOrphans | kernel/src/vfs.cpp:162-168 | past the emptiness scan nothing has the deleted node as its parent |
| VfsModel.CreateCodes | kernel/src/vfs.cpp:76-120 | every code of mkdir and mkfile, for any path: NOSPC exactly with 128 nodes, INVAL exactly for a last slash at 128 or later or an empty last part in an existing directory, and so on; a node is added exactly on OK |
| VfsModel.RenameCodes | kernel/src/vfs.cpp:149-156 | every code of rename, for any name; on OK exactly one name changes, cut to 30 characters |
| VfsModel.Survivor | kernel/src/vfs.cpp:181-189 | after compaction every other node keeps name, type and data, and its parent's new number |
| VfsModel.DeleteKeepsStructure | kernel/src/vfs.cpp:158-197 | deletion keeps the table's structure; reparenting to the root and the last cwd guard never fire; the cwd follows its directory or becomes the root |
| VfsModel.StepKeepsStructure | kernel/src/vfs.cpp:104-246 | every operation, with any path and name, keeps parents before children and directories, each buffer a distinct live block with room for the file and its NUL, and other blocks live |
| VfsModel.RunKeepsOwnership | kernel/src/vfs.cpp:104-246 | the same over every run; no buffer is lost or released twice |
| VfsModel.CompactBuffers | kernel/src/vfs.cpp:170-179 | deleting a file releases its buffer and leaves the other files theirs |
| VfsModel.ReplaceBuffer | kernel/src/vfs.cpp:199-214 | rewriting a file trades its old block for the new one and leaves the other files theirs |
| VfsModel.BuffersApart | kernel/src/vfs.cpp:204-213 | the bytes written for one file, its NUL included, lie inside its block and overlap no other file's bytes and no header |
| VfsTree.PathOfInjective | kernel/src/vfs.cpp:57-74 | different nodes have different absolute paths |
| VfsTree.WalkFollows | kernel/src/vfs.cpp:35-55 | walking the table component by component is following the map from paths to entries |
| VfsTree.ResolveLocates | kernel/src/vfs.cpp:35-55 | a path resolves to a node if and only if the map has the entry it denotes, with the node's type and bytes |
| VfsTree.EntryCount | kernel/src/vfs.cpp:105 | the map has one entry a node, so the table is full exactly when the map is |
| VfsTree.CreateRefines | kernel/src/vfs.cpp:104-120 | mkdir and mkfile add exactly one entry, or none with the code the map's state calls for |
| VfsTree.PathOfRenamed | kernel/src/vfs.cpp:149-156 | each node's path after a rename is its path before, re-keyed at the renamed directory |
| VfsTree.RenameEntries | kernel/src/vfs.cpp:149-156 | a rename re-keys exactly the subtree, contents and cwd included |
| VfsTree.RenameRefines | kernel/src/vfs.cpp:149-156 | rename, with its refusals, is the re-keying of the map |
| VfsTree.PathOfSurvivor | kernel/src/vfs.cpp:181-189 | deletion leaves every other node's absolute path as it was |
| VfsTree.DeleteEntries | kernel/src/vfs.cpp:158-197 | the map loses exactly the deleted path; types and contents of the rest stay |
| VfsTree.OccupiedMeansChild | kernel/src/vfs.cpp:162-168 | the emptiness scan finds a child if and only if some entry lies below the path |
| VfsTree.DeleteRefines | kernel/src/vfs.cpp:158-197 | delete, with its refusals, removes one entry, and moves the cwd to the root only when it was the one removed |
| VfsTree.WriteEntries | kernel/src/vfs.cpp:199-214 | filling a new buffer changes one file's contents and no other's |
| VfsTree.WriteRefines | kernel/src/vfs.cpp:199-214 | write replaces the bytes of one file, or nothing when the heap has no room |
| VfsTree.ReadRefines | kernel/src/vfs.cpp:216-226 | read gives the bytes of the map's entry, cut to maxlen, or the code for a missing path or a directory |
| VfsTree.WriteThenRead | kernel/src/vfs.cpp:199-226 | reading gives back what was just written, and for any other path what it gave before |
| VfsTree.ChdirRefines | kernel/src/vfs.cpp:239-246 | chdir moves the cwd to the directory the path denotes |
| VfsTree.StepRefines | kernel/src/vfs.cpp:104-246 | every operation does to the table what it does to the map, with the same code |
| VfsTree.RunRefines | kernel/src/vfs.cpp:104-246 | every step of every run does to the map what its description says, with the same code, a save succeeding exactly when the heap of that moment has room; sibling names stay unique |
| VfsPaths.ComponentsJoin | kernel/src/vfs.cpp:37-52 | the components of two joined paths are those of the first, then those of the second |
| VfsPaths.NameComponents | kernel/src/vfs.cpp:41-43 | a name of up to 31 characters is one component; a longer one is cut every 31 |
| VfsPaths.FullPathComponents | kernel/src/vfs.cpp:57-74 | a full path splits into exactly the names on the way down |
| VfsPaths.FullPathSpells | kernel/src/vfs.cpp:62-70 | the path built is each name on the way down after a slash |
| VfsPaths.ResolveFullPath | kernel/src/vfs.cpp:35-74 | the full path of a node resolves to that node, from any cwd |
| VfsPaths.PathRoundTrip | kernel/src/vfs.cpp:57-74 | building the path stays inside its buffers and the path leads back to its node if and only if the node is the root or its full path has fewer than maxlen and fewer than 128 characters, or is "/..." itself |
| VfsPaths.PwdFitsInside | kernel/src/vfs.cpp:248-251 | with a buffer of 5 to 128 bytes every path can be built |
| VfsPaths.CreateAt | kernel/src/vfs.cpp:76-120 | in any existing directory whose path has fewer than 128 characters a new well-formed name can be created while there are fewer than 128 entries, and the map gains that entry alone |
| VfsPaths.CreatedIsFoundExactly | kernel/src/vfs.cpp:76-120 | what was created is found under its path if and only if the name is well formed |
| VfsPaths.RenamedIsFoundExactly | kernel/src/vfs.cpp:149-156 | a node renamed to a name without '/' is found under its new path if and only if the name is well formed |
| VfsPaths.RenameKeepsSiblingsExactly | kernel/src/vfs.cpp:149-156 | siblings stay distinct if and only if the stored, cut name is free or the node's own |
| VfsPaths.RenameCollides | kernel/src/vfs.cpp:149-156 | a 31-character name gives two siblings of one name |
| VfsInit.EveryRunRefines | kernel/src/vfs.cpp:122-144 | every step of every run from the root alone, with well-formed names, is the map's |
| VfsInit.InitOpsWellFormed | kernel/src/vfs.cpp:130-143 | the operations of `vfs_init` are among those runs' |
| VfsInit.InitLeaves | kernel/src/vfs.cpp:122-144 | `vfs_init` leaves exactly eleven entries, listed, the cwd at the root and one allocation of 11 bytes; the passwd file has its line if and only if the heap has 24 bytes |
| VfsInit.CreatedAndLost | kernel/src/vfs.cpp:76-120 | `mkdir` of ".." or of a 31-character name succeeds and the directory is not found again |
| VfsInit.PathOverrunsTmp | kernel/src/vfs.cpp:57-74 | five nested directories give a path of 155 characters that does not fit through the 128-byte copy, whatever larger buffer is passed |
| VfsTable.FileSystem.constructor | kernel/src/vfs.cpp:122-128 | a table holding the root, cwd at the root |
| VfsTable.FileSystem.FindNamed | kernel/src/vfs.cpp:27-33 | the scan returns the first child of that name, or -1 |
| VfsTable.FileSystem.ResolvePath | kernel/src/vfs.cpp:35-55 | the loop over characters computes the walk over components |
| VfsTable.FileSystem.BuildPath | kernel/src/vfs.cpp:57-74 | whenever the copies fit, the buffer, written backwards and then moved through `tmp`, holds the shown path and a NUL; the parent walk ends |
| VfsTable.FileSystem.PathOfIndex | kernel/src/vfs.cpp:265-268 | a valid index gives the shown path, any other an empty string |
| VfsTable.FileSystem.SplitPath | kernel/src/vfs.cpp:76-102 | parent node, stored name and code are those of the split |
| VfsTable.FileSystem.CreateNode | kernel/src/vfs.cpp:104-120 | the array and count become those of the creation, with its code |
| VfsTable.FileSystem.RenameNode | kernel/src/vfs.cpp:149-156 | one name in the array changes, or none, with the code |
| VfsTable.FileSystem.ShiftDown | kernel/src/vfs.cpp:181-183 | the shifting loop moves every later node down by one |
| VfsTable.FileSystem.FixParents | kernel/src/vfs.cpp:184-189 | the renumbering loop lowers each parent number past the gap by one |
| VfsTable.FileSystem.DeleteNode | kernel/src/vfs.cpp:158-197 | shifting, renumbering and the cwd fix-up give the compacted state, the buffer released |
| VfsTable.FileSystem.WriteFile | kernel/src/vfs.cpp:199-214 | the new buffer is allocated before the old one is released, and the state is the written one |
| VfsTable.FileSystem.ReadFile | kernel/src/vfs.cpp:216-226 | the bytes read are the file's contents cut to maxlen |
| VfsTable.FileSystem.ChangeDirectory | kernel/src/vfs.cpp:239-246 | the cwd becomes the directory found, or stays, with the code |
| ContextSwitch.SaveElsewhere | kernel/asm/ctxsw.S:13-26 | saving writes the 52 bytes of the frame and no others |
| ContextSwitch.FrameLayout | kernel/asm/ctxsw.S:11-51 | ra is at 48, s0 to s11 at 44 down to 0, sp is 52 above, saving and restoring |
| ContextSwitch.SaveThenRestore | kernel/asm/ctxsw.S:11-51 | restoring from a saved frame gives back ra, s0 to s11 and sp |
| ContextSwitch.SaveZeros | kernel/src/sched.cpp:40-52 | zeroing a frame and storing the entry is saving a context of zeros with that ra |
| ContextSwitch.FrameElsewhere | kernel/asm/ctxsw.S:13-26 | a save leaves what a disjoint frame restores as it was |
| ContextSwitch.SelfSwitchExactly | kernel/asm/ctxsw.S:28-32 | a switch to oneself restores the caller if and only if the stale sp is where the frame goes |
| ContextSwitch.Cpu.Switch | kernel/asm/ctxsw.S:11-51 | memory gets the caller's frame, and the registers what the other frame restores |
| SchedModel.NextReadyNearest | kernel/src/sched.cpp:97-106 | the scan succeeds whenever some task is READY and finds the nearest round the table |
| SchedModel.SwitchExact | kernel/src/sched.cpp:115-125 | the task switched to has exactly the registers it was last seen with, and the invariant holds on |
| SchedModel.YieldExact | kernel/src/sched.cpp:109-126 | a yield with another task READY goes to the nearest one round the table, resumed exactly where it left off; the yielding one is READY with its frame below its sp; no other slot, stack or block changes |
| SchedModel.LoneYieldExactly | kernel/src/sched.cpp:109-126 | a yield alone goes on unchanged if and only if the recorded sp is where this frame goes; in the table only that sp changes |
| SchedModel.ExitExact | kernel/src/sched.cpp:131-150 | any task but idle exits to the nearest READY task, resumed exactly, is left ZOMBIE, and never reaches the endless wait; nothing else changes |
| SchedModel.IdleYield | kernel/src/sched.cpp:110-111 | before `task_start`, or with idle alone, a yield does nothing |
| SchedModel.ExitHaltsExactly | kernel/src/sched.cpp:131-142 | an exit waits for ever if and only if nobody runs or nobody else is READY |
| SchedModel.StartExact | kernel/src/sched.cpp:214-236 | the lowest READY task but idle starts, with the registers laid out for it, and only its state changes; with none nothing happens |
| SchedModel.WorkKeeps | kernel/src/sched.cpp:109-150 | execution between calls, with any writes outside the other tasks' stacks, keeps the invariant |
| SchedModel.CreateKeeps | kernel/src/sched.cpp:74-94 | a new task's stack is a fresh block no other task has; everything waiting is kept |
| SchedModel.InitExact | kernel/src/sched.cpp:55-71 | idle alone, READY, on 256 zeroed bytes with its entry frame at the top |
| SchedModel.CreateExact | kernel/src/sched.cpp:74-94 | -1 if and only if there are 16 tasks or the heap has no room for the stack; otherwise the next slot, READY, its size as asked or 2048 below 128, its stack zeroed with the entry frame at the top, memory outside it unchanged |
| SchedRuns.InitHolds | kernel/src/sched.cpp:55-71 | the invariant holds after `task_init` |
| SchedRuns.SweepEffect | kernel/src/sched.cpp:187-198 | the sweep releases the stacks of the waiting zombies, in order, and marks each slot |
| SchedRuns.ReclaimSafe | kernel/src/sched.cpp:187-198 | each stack swept is live, is released once, and belongs to no task that can run |
| SchedRuns.ReclaimKeeps | kernel/src/sched.cpp:187-198 | the sweep keeps the invariant and leaves nothing to sweep |
| SchedRuns.StepSafe | kernel/src/sched.cpp:54-236 | each event keeps the invariant, hands the CPU over exactly, and leaves waiting tasks' entries alone |
| SchedRuns.EveryStateSafe | kernel/src/sched.cpp:54-236 | every state of every run from `mm_init` is safe: exactly the current task is RUNNING, idle is READY or RUNNING, and every READY task's frame restores what it was last seen with |
| SchedRuns.RunsOn | kernel/src/sched.cpp:109-150 | once a task runs, one runs in every later state |
| SchedRuns.LastStays | kernel/src/sched.cpp:109-150 | what is remembered of a task changes only when it is the one switched out |
| SchedRuns.ResumedAsLeft | kernel/src/sched.cpp:109-150 | over any interleaving, a task switched out and next switched in finds ra, s0 to s11 and sp as they were |
| SchedRuns.StartsAtEntry | kernel/src/sched.cpp:40-94 | over any run from `mm_init`, the first resume of any task, idle and those made before `task_start` included, is at the entry it was made with, sp at its stack top |
| SchedRuns.StepTowards | kernel/src/sched.cpp:97-150 | a switch runs the waiting task or brings the turn strictly nearer to it |
| SchedRuns.RunsInTurn | kernel/src/sched.cpp:97-150 | from any moment of any run, with no creates, a READY task runs within Distance, at most task_count - 1, switches |
| SchedRuns.LoneYieldGoesAstray | kernel/src/sched.cpp:109-126 | a run from boot (one task made, started, exited and reclaimed) after which idle's yield goes on with other registers than it had |
| SchedTable.Scheduler.constructor | kernel/src/sched.cpp:55-71 | a table with the idle task alone, in its initial state |
| SchedTable.Scheduler.LayFrame | kernel/src/sched.cpp:40-52 | memory gets the initial frame and the recorded sp points to it |
| SchedTable.Scheduler.CreateTask | kernel/src/sched.cpp:74-94 | the table, heap and memory become those of the creation, with its id or -1 |
| SchedTable.Scheduler.ScanReady | kernel/src/sched.cpp:97-106 | the circular loop returns the slot of the scan |
| SchedTable.Scheduler.YieldFrom | kernel/src/sched.cpp:109-126 | for every state, lone yields included, the fields become those of the yield |
| SchedTable.Scheduler.YieldTask | kernel/src/sched.cpp:109-126 | the fields become those of the yield, and with another task READY, or nothing to switch to, the table stays valid |
| SchedTable.Scheduler.ExitTask | kernel/src/sched.cpp:131-150 | the exit always switches, and the table stays valid |
| SchedTable.Scheduler.StartTasks | kernel/src/sched.cpp:214-236 | the table and registers become those of the first switch |
| SchedTable.Scheduler.ReclaimZombies | kernel/src/sched.cpp:187-198 | the pass over the table releases and marks what the sweep does |
| Kernel.SchedOwnership | kernel/src/sched.cpp:54-236 | a scheduler event takes exactly new tasks' stacks from what was free, gives back exactly exited tasks' stacks, and carries every other owner's block over |
| Kernel.ReclaimOwnership | kernel/src/sched.cpp:187-198 | reclaiming releases stacks only |
| Kernel.FileOpSound | kernel/src/vfs.cpp:158-214 | a file operation keeps every stack and loan live and every live block owned once |
| Kernel.StepSound | kernel/src/vfs.cpp:158-214 | whatever acts, the live blocks stay the disjoint union of file buffers, stacks and loans |
| Kernel.EveryStateAccounted | kernel/src/sched.cpp:54-236 | in every state of every run from `mm_init`, through `vfs_init` and `task_init`, the live blocks are exactly the file buffers, stacks and loans, each once, each large enough: none is leaked, shared or released twice |
| Kernel.StackApartFromFile | kernel/src/vfs.cpp:204-213 | no stack shares a byte with a file or a file's header |
| Crc32.NibbleIsFourBits | boot/asm/start.S:586-599 | one table lookup is four single-bit steps with polynomial 0xEDB88320, for every state |
| Crc32.TableEntries | boot/asm/start.S:1188-1192 | each table entry is its index after four single-bit steps |
| Crc32.Compute | boot/asm/start.S:579-603 | the loop returns the bit-at-a-time reflected CRC-32 of any byte string |
| Crc32.CheckValue | boot/asm/start.S:579-603 | the CRC of "123456789" is 0xCBF43926 |
| Crc32.ShiftInvertible | boot/asm/start.S:586-599 | a single-bit step can be undone |
| Crc32.FoldInjective | boot/asm/start.S:579-603 | different states stay different over any common suffix |
| Crc32.FourBytesInjective | boot/asm/start.S:579-603 | from one state, different four-byte strings give different states |
| Crc32.BurstDetected | boot/asm/start.S:579-603 | images that differ only inside four consecutive bytes never have the same CRC |
| BootLoader.CheckExactly | boot/asm/start.S:310-341 | the 32-bit checks accept a header if and only if the padded image lies in [SRAM start, boot parameters) with its entry inside; no sum wraps |
| BootLoader.FirstChecks | boot/asm/start.S:309-323 | when the verdict is a missing kernel, one too big, or an empty one |
| BootLoader.BootsExactly | boot/asm/start.S:306-363 | an image boots if and only if its magic, size, place and entry are in range and its body has the CRC of its header; a bad CRC is exactly the case where only the last fails |
| BootLoader.Boot | boot/asm/start.S:306-387 | an image is booted if and only if it is sound, copied to its load address and nowhere else; otherwise RAM stays as it was; the result is that of the checks |
| BootLoader.Copy | boot/asm/start.S:372-382 | the word loop copies the padded size |
| BootLoader.Pack | kernel/tools/pack_kernel.py:12-27 | the padding loop and header give the packed image, or the error of a field over 32 bits |
| BootLoader.PackedImageReads | kernel/tools/pack_kernel.py:17-27 | the loader reads back the fields and the padded body that were packed |
| BootLoader.PackedImageBoots | kernel/tools/pack_kernel.py:17-27 | every packed non-empty body of at most 480 KB with its entry inside passes every check |
| BootLoader.PadZeros | kernel/tools/pack_kernel.py:19-20 | at most three zeros follow the body, to a whole number of words |
| BootLoader.DamageDetected | boot/asm/start.S:359-363 | a packed image changed inside at most four consecutive bytes of its body fails the CRC |
| BootLoader.DamageThenBoot | boot/asm/start.S:359-387 | booting it reports a bad CRC and leaves RAM as it was |
| BootLoader.PackThenBoot | kernel/tools/pack_kernel.py:17-27 | packing and booting leaves the padded body in RAM and the rest of RAM alone |
| Slip.FrameReceived | kernel/src/net.cpp:54-113 | a call on a frame returns its packet, cut to the buffer, and stops exactly at the closing END; an empty frame is passed over |
| Slip.StreamRoundTrip | kernel/src/net.cpp:54-113 | receiving a concatenation of sent packets gives the non-empty ones in order, each cut to the buffer |
| Slip.NoRoomNoPacket | kernel/src/net.cpp:72-113 | with a buffer of no bytes nothing is ever delivered, whatever arrives |
| Slip.BodyHasNoEnd | kernel/src/net.cpp:54-68 | END never occurs inside a frame |
| Slip.OctetsSent | kernel/src/net.cpp:54-68 | 0xC0 goes out as 0xDB 0xDC, 0xDB as 0xDB 0xDD, any other octet as itself, between two 0xC0 |
| Slip.NoisePassedOver | kernel/src/net.cpp:84-87 | octets between packets are passed over up to the next END |
| Slip.OutOfStep | kernel/src/net.cpp:72-113 | inside a frame at what is in fact a boundary, the receiver gets none of the packets that follow, ever |
| Slip.JoinedLate | kernel/src/net.cpp:72-113 | a receiver that starts inside a frame gets none of the packets that follow |
| Slip.BadEscapeLosesAll | kernel/src/net.cpp:89-97 | after a bad escape the octet that followed ESC arrives as a packet of one octet and nothing after it arrives |
| Slip.Uart.Send | kernel/src/net.cpp:54-68 | exactly the packet's frame goes out |
| Slip.Uart.Receive | kernel/src/net.cpp:72-113 | the buffer, the length and the bytes left unread are those of the call |
| InetChecksum.FoldsToOnes | kernel/src/net.cpp:46-51 | a sum complements to 0 if and only if it is a positive multiple of 65535 |
| InetChecksum.ExampleSums | kernel/src/net.cpp:46-51 | the example of section 3 of RFC 1071, in both byte orders |
| InetChecksum.OrderIndependent | kernel/src/net.cpp:46-51 | the check comes out the same summed in either byte order |
| InetChecksum.NativeFieldVerifies | kernel/src/net.cpp:141-164 | a zeroed field filled with the native checksum verifies, at even or odd length |
| InetChecksum.NetworkFieldVerifies | kernel/src/software.cpp:107-115 | a zeroed field filled with the big-endian checksum verifies natively |
| InetChecksum.ComputeChecksum | kernel/src/net.cpp:46-51 | the summing and folding loops return the checksum, with no 32-bit overflow |
| IcmpEcho.BuildPingHeader | kernel/src/software.cpp:87-115 | the buffer filled byte by byte starts with the header, and it verifies |
| IcmpEcho.PingHeaderVerifies | kernel/src/software.cpp:87-115 | for every destination the header passes the receiver's native check; version, length 84, 64 hops, protocol, source 192.168.5.1 and the destination are in their bytes |
| IcmpEcho.AnswersExactly | kernel/src/net.cpp:116-133 | which packets are answered, byte by byte: echo requests of at least 8 bytes to 192.168.5.1 behind a header whose sum checks; nothing else is |
| IcmpEcho.ReplyVerifies | kernel/src/net.cpp:116-170 | both checksums of a reply verify; addresses are exchanged, one hop is used, the type is 0; every byte other than those at 8, 10 to 19, ihl, ihl + 2 and ihl + 3 is the request's |
| IcmpEcho.HandleIp | kernel/src/net.cpp:116-170 | the reply goes out as one frame if and only if the packet is one to answer and the heap had room for the buffer; the heap is afterwards exactly as before |
| IcmpEcho.PingAnswered | kernel/src/net.cpp:116-170 | a ping to this host is answered and the answer verifies |
| IcmpEcho.NetRead | kernel/src/net.cpp:188-196 | one packet is taken from the link and answered on it if and only if it is one to answer and the heap had room; the heap is as before |
| IcmpEcho.PingOverTheWire | kernel/src/net.cpp:54-170 | a framed ping arrives whole, and its framed reply arrives whole and verifies |
| Bresenham.MinorNearest | kernel/src/gui/gui_draw.cpp:63-78 | the steps taken along the minor axis are the nearest integer to the ideal ones |
| Bresenham.MinorUnique | kernel/src/gui/gui_draw.cpp:63-78 | no other integer is as near |
| Bresenham.Ends | kernel/src/gui/gui_draw.cpp:63-78 | the line runs from the first point to the second |
| Bresenham.WithinHalfPixel | kernel/src/gui/gui_draw.cpp:63-78 | every point is within half a pixel of the ideal line, along the minor axis |
| Bresenham.TurnAdvances | kernel/src/gui/gui_draw.cpp:74-76 | one turn moves to the line's next point, and every intermediate fits in 16 bits |
| Bresenham.AfterTracks | kernel/src/gui/gui_draw.cpp:63-78 | after any number of turns in exact arithmetic, on any line, the variables are the line's point and its decision value |
| Bresenham.ReachIsTight | kernel/src/gui/gui_draw.cpp:74 | a line with a difference of 10924 on which `2 * err` leaves 16 bits |
| Bresenham.Advance | kernel/src/gui/gui_draw.cpp:74-76 | the 16-bit decisions are those of exact arithmetic |
| Bresenham.PlotElsewhere | kernel/src/gui/gui_draw.cpp:16-21 | a pixel that no visible point falls on keeps its color |
| Bresenham.PlotThere | kernel/src/gui/gui_draw.cpp:16-21 | a visible point's pixel is inside the buffer and has the color |
| Bresenham.PixelExactly | kernel/src/gui/gui_draw.cpp:16-21 | on a screen of up to 32768 by 32768 the pixel at y * width + x changes if and only if (x, y) was plotted; negative coordinates reach none |
| Bresenham.DrawLine | kernel/src/gui/gui_draw.cpp:63-78 | the loop ends after exactly max(dx, dy) + 1 points, the line's, each clipped and plotted |
| Bresenham.LinePixels | kernel/src/gui/gui_draw.cpp:63-78 | the buffer it leaves has the color on exactly the pixels of the line that are on the screen |
| Calc.QuotientTruncates | kernel/src/coreutils.cpp:246 | division truncates toward zero: the remainder is smaller than the divisor and has the dividend's sign |
| Calc.I32Wraps | kernel/src/coreutils.cpp:217-262 | results are in 32 bits and congruent to the exact ones |
| Calc.WrappedIsExact | kernel/src/coreutils.cpp:217-262 | with no zero divisor and no overflow the machine's value is the exact one |
| Calc.LiteralReads | kernel/src/coreutils.cpp:44-52 | a run of digits is read whole, as its decimal value |
| Calc.FactorRead | kernel/src/coreutils.cpp:217-235 | every written factor is consumed exactly, with its value, or flagged for a zero divisor |
| Calc.ProductRead | kernel/src/coreutils.cpp:237-249 | every written product is read left to right and leaves what follows |
| Calc.SumRead | kernel/src/coreutils.cpp:251-262 | every written sum is read left to right and leaves what follows |
| Calc.FactorWritten | kernel/src/coreutils.cpp:217-235 | what is read without error was a written factor of that value |
| Calc.SumWritten | kernel/src/coreutils.cpp:251-262 | what is read without error was a written sum of that value, then blanks |
| Calc.WrittenIsEvaluated | kernel/src/coreutils.cpp:264-276 | every text of the grammar is accepted with the value it means, or refused exactly when some divisor is zero |
| Calc.AcceptsExactly | kernel/src/coreutils.cpp:264-276 | a text is accepted with a value if and only if the grammar has it, with no zero divisor, with that value |
| Calc.EvaluatesExactly | kernel/src/coreutils.cpp:211-276 | with any blanks and any extra parentheses a computable expression evaluates to its exact value |
| Calc.SumOfMeans | kernel/src/coreutils.cpp:237-262 | printing with parentheses only where precedence needs them loses nothing |
| Calc.UndoesPrinter | kernel/src/coreutils.cpp:211-276 | evaluating a printed expression gives its value |
| CalcCursor.Evaluator.ParseInt | kernel/src/coreutils.cpp:44-52 | the digit loop returns the value, cut to 32 bits, and where the literal ends |
| CalcCursor.Evaluator.ReadFactorHere | kernel/src/coreutils.cpp:217-235 | value, cursor and flag are those of reading a factor; it ends on every text |
| CalcCursor.Evaluator.ReadProductHere | kernel/src/coreutils.cpp:237-249 | value, cursor and flag are those of reading a product, the early return on a zero divisor included |
| CalcCursor.Evaluator.ReadSumHere | kernel/src/coreutils.cpp:251-262 | value, cursor and flag are those of reading a sum |
| CalcCursor.Command | kernel/src/coreutils.cpp:264-276 | the command answers as the grammar decides, or shows its usage |
| PasswdText.LineOfUser | kernel/src/console.cpp:715 | a proper line matches a name if and only if it is that user's, whatever the name |
| PasswdText.TextDetermines | kernel/src/console.cpp:660-674 | a file is the file of one user list only |
| PasswdText.TextGrows | kernel/src/console.cpp:666-672 | a file has one line a user: the name, a colon, "root" or "user", a newline |
| PasswdText.DeleteEdits | kernel/src/console.cpp:709-723 | the rewriting loop removes the user's lines, keeps the rest in order, and never grows the file |
| PasswdText.PermissionEdits | kernel/src/console.cpp:740-761 | the rewriting loop changes the user's lines in place, keeps the rest, and the length stays |
| PasswdText.ListedMeansHas | kernel/src/console.cpp:742-761 | a line is found if and only if the list has the user |
| PasswdText.LevelRead | kernel/src/console.cpp:773-781 | the level read is that of the first user of the name |
| PasswdText.AppendEdits | kernel/src/console.cpp:666-672 | the bytes appended make the file of the list with one more user |
| PasswdText.LevelSet | kernel/src/console.cpp:729-793 | after a level has been set, switching gets it; other users keep theirs |
| PasswdText.LevelAfterDelete | kernel/src/console.cpp:696-793 | a deleted user is not found again; other users keep their level |
| PasswdText.LevelAfterAppend | kernel/src/console.cpp:660-793 | a new user gets the level given unless an earlier line has the name |
| Passwd.StoreExact | kernel/src/console.cpp:673 | a write replaces the list's file and nothing else in the filesystem, or changes nothing when there is no room |
| Passwd.ServeExact | kernel/src/console.cpp:660-793 | each request does to the file what it does to the list, with its code, keeps the file proper and below 256 bytes, leaves every other file alone, and logs in exactly on a successful switch |
| Passwd.NoList | kernel/src/console.cpp:660-793 | the codes when the file is missing, with nothing changed |
| Passwd.RootStays | kernel/src/console.cpp:697 | no request takes root off the list |
| Passwd.EveryRunKeeps | kernel/src/console.cpp:660-793 | at every step of every run the file is the file of the list, and the request is served as the list prescribes, with its code, given the room the heap has at that moment; root stays listed |
| Passwd.InitKeeps | kernel/src/vfs.cpp:142-143 | `vfs_init` leaves the list of root alone |
| Passwd.SilentFailure | kernel/src/console.cpp:763-764 | in a heap that file fills, setting root's level answers E_OK and changes nothing |
| PasswdEditor.RewriteLines | kernel/src/console.cpp:709-723 | the line loop over buffers writes the rewritten text and tells whether a line matched |
| PasswdEditor.FindLevel | kernel/src/console.cpp:773-791 | the line loop finds where the first matching line's level starts |
| PasswdEditor.EditsFit | kernel/src/console.cpp:704-725 | every edit of a user list's file fits in the 256-byte buffer |
| PasswdEditor.Accounts.Append | kernel/src/console.cpp:660-674 | disk and code become those of the append |
| PasswdEditor.Accounts.Delete | kernel/src/console.cpp:696-727 | disk and code become those of the deletion |
| PasswdEditor.Accounts.SetPermission | kernel/src/console.cpp:729-765 | disk and code become those of the change |
| PasswdEditor.Accounts.Switch | kernel/src/console.cpp:767-793 | the session globals and code become those of the switch |

## Left out

- Registers and ROM: UART, SPI, flash, Wi-Fi, LCD and touch. The UART is a sequence of input octets and one of output octets.
- The desktop, windows, fonts, widgets and the monitor; help text and command plumbing; `draw_circle`, `draw_hline` and partitions.
- `ctx_switch_full`, the spinlock, swap, zram and the BLOCKED state, which nothing here uses; task names.
- The message queue: a ring of fixed slots that would only add easy members.
- `vfs_list`, `vfs_exists` and the node accessors; they only read what the model already describes.
- SLIP: streams damaged otherwise than by noise between packets, a missing start or a bad escape.
- The ICMP checksum that the send loop of `cmd_ping` recomputes over its previous value.
- `mkkernel.py`, which writes another header; the loader's mailbox, console output and clearing of .bss.
- `user_add` beyond the line it appends: the home directories; the HOME and USER variables that `user_switch` sets.
- The bytes a heap block holds are kept per block (`Store`, `Memory`), not in the same RAM map as the block headers; headers and payloads are disjoint by `Heap.BlocksDisjoint`.
- Text is a sequence of characters; a C string is the part before its NUL.
- VfsTable.FileSystem.BuildPath: requires that its copies fit (`VfsModel.PwdFits`), which the code does not check.
- VfsTable.FileSystem.WriteFile: takes lengths that are `int`s, as the C parameter does; `VfsModel.Sized` says the same of runs.
- SchedModel.CreateKeeps: takes stack sizes of at most 0xFFFFFFFC, the ones that `mm_alloc` covers. Memory holds words by address; a stack of odd size is cleared by words here and by bytes in the kernel.
- SchedRuns.EveryStateSafe: in its runs a task yields only with another one READY, since a lone yield can leave the model's assumptions (`SchedRuns.LoneYieldGoesAstray`); tasks stay on their stacks; the boot stack is above the heap and the idle stack below it.
- SchedTable.Scheduler.ExitTask: idle does not exit; for any task the outcome is in `ExitFrom`.
- VfsTree.StepRefines: names of new entries are well formed; other names are covered by `VfsModel.StepKeepsStructure`, `VfsPaths.CreatedIsFoundExactly`, `VfsPaths.RenamedIsFoundExactly` and `VfsPaths.RenameKeepsSiblingsExactly`.
- Slip.Uart.Receive: returns 0 where the kernel goes on waiting for input.
- Slip.StreamRoundTrip: requires a buffer of at least one byte; the other case is `Slip.NoRoomNoPacket`.
- IcmpEcho.HandleIp: takes packets that fit in the receive buffer, as its caller provides.
- Bresenham.DrawLine: coordinate differences up to 10923, the largest for which no line leaves 16 bits.
- Calc.Wrapped: C leaves signed overflow undefined; it is taken as wrapping, as the target does.
- PasswdEditor.Accounts.Delete: requires that the new text fits in its buffer, which `PasswdEditor.EditsFit` gives for every user list's file.
- PasswdEditor.Accounts.SetPermission: requires the same.
- Passwd.ServeExact: names given to `Add` have no ':', newline or NUL.
- PasswdEditor.Accounts.Switch: does not model the 128-byte buffer for HOME, which takes names of up to 121 characters; the console passes at most 31.
- VfsPaths.RenamedIsFoundExactly: names with a '/' are not decided; cut to 30 characters, some of them can be found and some cannot.
