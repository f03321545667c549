# kOS: a verified model

kOS is a small microkernel in the style of MINIX. This project models the parts of it that keep state over unbounded
runs and proves, for every input and every run, what those parts promise. The sizes of the process table, of the inode,
descriptor and slot tables, of the maps, of the disk and its layout, and of the directory are parameters. Constants of the
source's data formats are kept: 512-byte sectors, 16-byte directory entries with 12-byte names, 32-byte inodes, the
2048-sector buffer, the 256-key ring, the 1 MB process block and the 1 KB argument block.

Where the source only computes, the model is made of functions. Where it updates tables, buffers and maps in place, a
class with the same loops is proved against a specification function, and the theorems are about that function.

| part | source | files |
|---|---|---|
| synchronous IPC | `kernel/ipc.c` | `Ipc`, `IpcHistory`, `IpcDeadlock`, `IpcSafety`, `IpcEffects`, `IpcQueues`, `IpcRuns`, `IpcTable` |
| scheduler | `kernel/process.c`, `device/timer.c` | `Scheduler` |
| file system | `task/fs` | `Bits`, `SectorMap`, `FsModel`, `FsSteps`, `FsFrames`, `FsCalls`, `FsNames`, `FsRuns`, `FsEffects`, `FsCompletes`, `FsMap`, `FsTables`, `ReadWrite`, `Directory` |
| process manager | `task/pm`, `kernel/descriptor.c` | `Pm`, `PmRuns`, `PmEffects`, `PmTable`, `Descriptor` |
| argument passing | `lib/pm/exec.c`, `task/pm/exec.c` | `ExecArgs` |
| terminal input | `task/task_tty.c` | `Tty` |

`dafny verify dfyconfig.toml` checks everything.

## How the parts are set up

**IPC.** A kernel call or an interrupt notification is one atomic step over the process table. A step completes, trips
one of the kernel's assertions (with its position), or follows a cyclic pointer chain for ever. A run carries the history
of sent and delivered messages and of notifications. The line of senders that each receiver *should* have is a function
of that history alone; the theorems compare it with the chain through `q_pending_proc`. That field is both the head of a
process's own queue and its link inside another's, so the comparison holds exactly as long as no process has waiting
senders while it is itself blocked sending. `RunQueuesExactly` proves that this condition is exact; `LostSender` and
`StrayedSender` are two short runs that break it.

**Scheduler.** Clock ticks, blocking and unblocking are steps; the waiting time of a process is a measure that no step
raises and every tick lowers.

**File system.** The bitmap code works on a byte array with a one-sector buffer, sector by sector, and is proved to set
and clear exactly one range of bits. The calls take paths and work on the entries of the root directory, the inode
cache, the descriptors, the process slots, and sets for the two bitmaps; lookups, creates and unlinks go through the
directory scan, insertion and removal of `DirectoryModel`, with the size kept in the root's inode. The invariant has
three layers.

- `CoreOk`: the cache equals the disk, the counts are accounted for, the maps are the live files. An inode's count is the
  number of process slots that lead to it plus its references in `held`, which starts as the root's own reference and
  grows by one at each refused unlink.
- `SafeDir`: the scan of the directory stays inside its sectors, and entries in use lead to live inodes, each to another
  one. Names may be lost.
- `DirectoryOk`: the entries are well formed and name exactly the live inodes.

`FsRuns.StepCore` says that every completed call from a safe state keeps `CoreOk`, and that it keeps `SafeDir` exactly
when it is not *wild*: an open whose 12-byte name leaves the next entry with the number of a dead or already named inode,
or an open or transfer that takes the root's size past its sectors. `FsRuns.StepNames` says exactly when a call keeps
`DirectoryOk`. `FsMap` carries a disk image along the run, from the bytes that `mkfs` writes, and proves that the bits of
both maps on disk are the sets the calls work with.

**Process manager.** Fork, exit and wait are steps over the table with a history of calls and replies. A reply is legal
only when the history before it justifies it: the slot had exited with that status, the addressee is its parent of that
moment, and a wait of the addressee is open.

## What the code does not keep

Each of these is proved, with the exact condition where there is one.

- A send by a process that has waiting senders forgets them, and a send to a blocked process puts the sender into a
  foreign queue (`IpcRuns.LostSender`, `IpcRuns.StrayedSender`).
- A refused unlink keeps the inode reference it took, which no close gives back; cache and maps stay right. Only the path
  "/" is turned away in time; the empty path and "." reach the root and leak too (`FsCalls.UnlinkCore`).
- Opening the root with O_RDWR and O_TRUNC sets its size to 0, and no file is found any more
  (`FsEffects.TruncatedRootLosesAll`).
- Reading past the end of the root makes the directory larger. Within its sectors that changes no lookup
  (`FsEffects.TransferKeepsLookups`); a read that ends beyond them makes later lookups take foreign sectors for entries
  (`FsEffects.StretchedRootReadsForeign`).
- `mkfs` writes one sector of the root directory; the new file system is well formed only if the others were zero
  (`FsMap.MkfsOk`); cache, counts and maps only need that no entry there was in use (`FsMap.MkfsSafe`).
- A write past the capacity of a file is clipped to whole chunks, not to the extent; it overruns by at most one buffer, a
  megabyte (`ReadWrite.OverrunBound`), and can overrun by that much (`ReadWrite.OverrunByAMegabyte`). A read past the end
  moves the position and grows the file in the same way (`ReadWrite.TransferExact`).
- A 12-byte name stores its terminator into the next entry's inode number (`DirectoryModel.InsertExact`). Most often that
  only loses a name; `FsCalls.AddSafe` says exactly when the entry then leads to a dead inode or to another entry's, and
  `FsEffects.DeadNameBreaksCache` what an unlink of such a name does.
- Removing the last directory entry loses files behind a hole (`DirectoryModel.RemoveExact`, `DirectoryModel.LostEntry`).
- `task/pm/README.md` promises an error to a process that waits without children. `do_wait` also counts free slots that
  were children once, so such a process can wait for nobody; a forked process then sleeps for ever, and when it is INIT no
  process is left to make any call (`PmRuns.HopelessExactly`, `PmRuns.HopelessForever`, `PmRuns.SecondWaitHopeless`).
- A terminal read of zero characters suspends its caller and never resumes it (`Tty.EmptyReadNeverResumes`).
- `schedule` loops for ever when every runnable process has priority 0 and no ticks (`Scheduler.ScheduleStuck`).

## Model

| member | source | states |
|---|---|---|
| IpcRuns.RunSafe | kernel/ipc.c:103-287 | In every run: fields are consistent, the "is sending to" graph has no cycle, what each process sent has been delivered in order except the one message it is blocked on, the processes SENDING to a receiver are its undelivered senders, and the interrupt latch is set exactly while a notification is unanswered, never on a task that would accept it; and after every step each message it counts as delivered lies in the buffer of its receiver, each notification it counts as answered has put HW_INT there, both parties are runnable, and nobody has woken without such an event |
| IpcSafety.StepBase | kernel/ipc.c:103-287 | Each completed send, receive, notification or buffer store keeps all of that |
| IpcEffects.SendDelivers | kernel/ipc.c:115-127 | A send to a process that waits for it always completes: the message, stamped with the sender's pid, is in the receiver's buffer, the receiver is runnable with nothing pending, the sender goes on, and no other process or message changes |
| IpcEffects.SendBlocks | kernel/ipc.c:128-150 | Any other completed send leaves the sender SENDING to that peer with that message, and changes nothing else but links |
| IpcEffects.ReceiveDoes | kernel/ipc.c:156-264 | Every completed receive answers a latched interrupt if one is asked for; otherwise it takes the message of the head of its chain, or of the named process if that is blocked sending to it, into its buffer and releases the sender; otherwise it sleeps on the peer it named, at its own buffer; and nothing else changes |
| IpcEffects.NotifyWakes | kernel/ipc.c:271-282 | A notification of a task that waits for it clears its wait and its latch, puts INTERRUPT and HW_INT into its buffer and leaves it runnable; nothing else changes |
| IpcEffects.NotifyLatches | kernel/ipc.c:284-286 | Any other notification sets the latch and nothing else |
| IpcEffects.StepReal | kernel/ipc.c:103-287 | The events of every completed step are real, and no process stops SENDING or RECEIVING without one |
| IpcDeadlock.DeadlockCheckExact | kernel/ipc.c:75-113 | In an acyclic table the deadlock walk ends, and says yes exactly when the new edge would close a cycle; otherwise the table stays acyclic |
| IpcDeadlock.RankedHasNoCycle | kernel/ipc.c:70-74 | The rank that the invariant keeps rules out every cyclic route |
| IpcQueues.StepExact | kernel/ipc.c:128-150 | A completed step keeps every link chain equal to the arrival order if and only if it is not a blocking send by a process with a queue or to a blocked process |
| IpcRuns.ClobberIsOverlap | kernel/ipc.c:128-150 | Such a send is exactly one that makes a process both blocked sending and waited for |
| IpcRuns.RunQueues | kernel/ipc.c:128-236 | In every run without that overlap each receiver's chain is finite, without duplicates, in arrival order, and holds exactly the processes SENDING to it, and no rendezvous is missed |
| IpcRuns.RunQueuesExactly | kernel/ipc.c:128-236 | The first state with an overlap is the first state with a wrong chain |
| IpcRuns.StepNoMissed | kernel/ipc.c:115-127 | With exact chains, no step leaves a process waiting for a message that another is blocked sending to it |
| IpcRuns.SendCompletes | kernel/ipc.c:103-153 | With exact chains a send never hangs, and it trips an assertion only for a bad peer, a null message or a deadlock |
| IpcRuns.ReceiveCompletes | kernel/ipc.c:156-264 | With exact chains a receive never hangs, and it trips an assertion only for a bad peer, a null buffer, or at position 8 when it blocks on one sender with an interrupt latched |
| IpcRuns.NotifyCompletes | kernel/ipc.c:267-287 | A notification trips no assertion |
| IpcRuns.ReceiveAnyTakesOldest | kernel/ipc.c:184-192 | A receive from ANY delivers the last message of the oldest waiting sender, releases that sender, and changes nothing else but links |
| IpcRuns.ReceiveFromTakesSender | kernel/ipc.c:193-236 | A receive from a blocked sender delivers that sender's message, wherever it stands in the queue, releases that sender, and changes nothing else but links |
| IpcRuns.ReceiveSleeps | kernel/ipc.c:250-261 | With nothing latched and nobody blocked sending it what it asks for, a receive completes by sleeping on the peer it named, at its own buffer |
| IpcRuns.InterruptNotLost | kernel/ipc.c:165-182 | An unanswered notification is answered with HW_INT by the next receive from ANY or INTERRUPT, at once and ahead of queued senders |
| IpcRuns.LostSender | kernel/ipc.c:145-145 | A run in which a process sleeps on ANY while another is blocked sending to it |
| IpcRuns.StrayedSender | kernel/ipc.c:135-145 | A run in which a sender lands in a foreign queue and a later receive trips position 5 |
| IpcHistory.InitialBase | kernel/process.c:81-88 | The state made at boot satisfies the invariant |
| IpcTable.ProcessTable.CheckDeadlock | kernel/ipc.c:75-100 | The pointer walk gives the specified answer |
| IpcTable.ProcessTable.KernelMsgSend | kernel/ipc.c:103-153 | The call in place, tail walk included, makes exactly the send step |
| IpcTable.ProcessTable.KernelMsgRcv | kernel/ipc.c:156-264 | The call in place, queue search and unlinking included, makes exactly the receive step |
| IpcTable.ProcessTable.HwIntNotification | kernel/ipc.c:267-287 | The notification in place makes exactly the notification step |
| Scheduler.ScheduleChooses | kernel/process.c:159-179 | If some runnable process has ticks, the table stays and the first one with the most ticks is chosen; if none has, every runnable process gets exactly its priority in ticks, no other process changes, and the first one with the greatest priority is chosen |
| Scheduler.ClockDoes | device/timer.c:13-26 | A tick takes exactly one tick from the running process; it goes on while it has ticks left, and otherwise schedule chooses as above |
| Scheduler.BlockDoes | kernel/process.c:159-179 | Blocking the running process chooses among the others; blocking or unblocking another changes that one only |
| Scheduler.ScheduleStuck | kernel/process.c:164-178 | With no ticks and no priority among runnable processes, a refill changes nothing and the loop goes on for ever |
| Scheduler.StepWaits | device/timer.c:13-26 | No step raises the waiting time of a runnable process that is not running, and a clock tick lowers it |
| Scheduler.NoStarvation | kernel/process.c:159-179 | In every run a process that stays runnable is selected within twice the sum of all priorities in clock ticks |
| Scheduler.ReadyTable.ScheduleNext | kernel/process.c:159-179 | The loops over the table end, make exactly that step, and satisfy the same description of the choice and of the refill |
| Scheduler.ReadyTable.ClockHandler | device/timer.c:13-26 | Whenever the running process keeps ticks, or some runnable process has ticks or priority, the handler makes the clock step and wraps the tick counter |
| Scheduler.ClockReady | device/timer.c:13-26 | In every well-formed state the handler can go on |
| Scheduler.InitialOk | kernel/process.c:17-98 | The state made at boot is well formed |
| SectorMap.FsDisk.AllocSectMapBit | task/fs/open_close.c:201-242 | Succeeds exactly when n bits are clear from the first clear bit b on; then exactly bits b to b+n-1 change, and the sector returned is b - 1 + the first data sector |
| SectorMap.FsDisk.ClearSectorMapBits | task/fs/unlink.c:69-111 | Succeeds exactly when all bits of the extent are set; then exactly those bits are cleared, across bytes and sectors |
| SectorMap.SetThenClear | task/fs/unlink.c:69-111 | Setting a clear range and clearing it again restores the disk byte for byte |
| SectorMap.FsDisk.AllocThenClear | task/fs/open_close.c:201-242 | Allocating and releasing an extent leaves the whole disk as it was |
| SectorMap.FsDisk.CreateSectorMap | task/fs/fs.c:124-140 | After mkfs's first pass exactly the lowest bits, for bit 0 and the root, are set |
| SectorMap.FsDisk.CreateCmdDotTar | task/fs/fs.c:142-165 | Sets exactly the bits of the install image |
| SectorMap.FsDisk.CreateInodeMap | task/fs/fs.c:106-122 | The inode map holds exactly the lowest numbers, and no other sector changes |
| SectorMap.FsDisk.AllocInodeMapBit | task/fs/open_close.c:168-198 | Takes the first clear bit of the inode map and changes no other bit of the disk; in a full map returns 0 and changes nothing |
| SectorMap.FsDisk.ClearInodeMapBit | task/fs/unlink.c:58-66 | Succeeds exactly when the number lies in the map and its bit is set; then exactly that bit is cleared |
| FsMap.RangeSetUsed | task/fs/open_close.c:222-233 | Setting or clearing a range of bits on disk adds or removes that range of the used set |
| FsMap.AllocRefines | task/fs/open_close.c:201-242 | The allocator's condition on the disk is the model's condition on the used set |
| FsMap.MkfsBits | task/fs/fs.c:124-165 | The bits mkfs writes are bit 0, the root's extent and the install image |
| FsMap.MkfsOk | task/fs/fs.c:46-57 | Whatever the inode sectors that mkfs does not write held, the file system it makes satisfies the whole invariant if and only if the sectors of the root behind the first held zeros |
| FsMap.MkfsSafe | task/fs/fs.c:46-57 | Cache, counts and maps are right and the directory is safe if and only if no entry in those sectors was in use |
| FsMap.MkfsNumbersMade | task/fs/fs.c:106-122 | The inode map that mkfs writes holds exactly the numbers 0 to 5, and writing the sector map leaves it alone |
| FsMap.DiskReady | task/fs/open_close.c:152-242 | Where a call of the model creates or removes a file, the allocators of both maps and the clearing code succeed on the disk |
| FsMap.WritesMissMap | task/fs/fs.c:318-333 | Writes to the inode array and from the start of any live file on never touch either map |
| FsMap.TransferMissesMap | task/fs/read_write.c:50-95 | The data of a read or write through any descriptor lies behind both maps, however far it overruns |
| FsMap.DiskFollows | task/fs/unlink.c:49-110 | From every state with right tables and a safe directory, any completed call whose bitmap code does to the disk what the loops do, and whose other writes go where the source puts them, keeps the set bits of the sector map equal to the used set and those of the inode map equal to the live numbers |
| FsMap.RunFromMkfs | task/fs/fs.c:46-57 | From the bytes mkfs writes on, in every run of open, close, stat, unlink, fork, exit and transfer steps that trip no assertion and are not wild, refused unlinks, hiding unlinks and truncations of the root included: the cache equals the disk, fd_cnt is exact, inode_cnt is exact up to the references held, these being the root's own and one for each refused unlink, the set bits of the sector map on disk are bit 0 plus the disjoint extents of live files, all in the data area, and those of the inode map are the live numbers |
| FsMap.NamesFromMkfs | task/fs/fs.c:46-57 | From mkfs on, the directory names exactly the live files in every state up to a point if and only if no call before it has damaged the directory |
| FsModel.GetInodeAgrees | task/fs/fs.c:268-309 | A cached lookup gives what a fresh read of the disk would give and keeps at most one slot per inode |
| FsModel.WriteThrough | task/fs/fs.c:318-333 | Changing an inode in its slot and writing it keeps cache and disk equal |
| FsModel.OpenCounts | task/fs/open_close.c:78-86 | Connecting a null slot to a new descriptor keeps fd_cnt and inode_cnt equal to the numbers of slots that reach them |
| FsModel.ShareCounts | task/fs/fs.c:335-345 | One round of fs_fork keeps the counts exact for the copied slot |
| FsModel.DropCounts | task/fs/open_close.c:110-119 | Closing one slot keeps the counts exact and frees the descriptor with its last slot |
| FsFrames.LookupFacts | task/fs/misc.c:3-34 | A path leads to the live file bound to its first 12 characters, to the root when it holds no name, and to nothing exactly when there is no such binding or the path is bad |
| FsFrames.LookupLive | task/fs/misc.c:3-34 | In a safe directory, names lost or not, a path leads to nothing but live files |
| FsCalls.OpenCore | task/fs/open_close.c:9-108 | Every completed open from a safe state keeps cache, counts and maps and leaves no extra reference, and leaves the directory safe if and only if it makes no entry stray and does not take the size past the root's sectors |
| FsCalls.AddSafe | task/fs/open_close.c:262-300 | A new entry leaves a safe directory safe if and only if its terminator does not leave the next entry with the number of a dead inode or of one that another entry names, and it stays inside the directory's sectors |
| FsNames.OpenDirectory | task/fs/open_close.c:9-108 | A completed open keeps the directory in order if and only if it does not truncate the root, create a name whose terminator falls on the next entry, or append an entry that takes the size past the root's sectors |
| FsCalls.CreateHolds | task/fs/open_close.c:152-165 | A new file gets a number that was free, its own cache slot and an extent of NR_FILE_SECTS sectors none of which was in use, exactly these becoming used, and the root inode is written through |
| FsCalls.CloseOk | task/fs/open_close.c:110-119 | A close empties that one slot, keeps cache, maps and directory, and leaves counts exact |
| FsNames.CreateDirectory | task/fs/open_close.c:262-300 | A create adds exactly its own binding if and only if the terminator of the name fits, and keeps the directory well formed if and only if, besides, the size stays within the root's sectors |
| FsCalls.ExitOk | task/fs/fs.c:347-359 | fs_exit trips no assertion, keeps cache, counts, maps and directory, empties the row of the process and no other, and leaves its table entry for a later child |
| FsCalls.ExitDropsAll | task/fs/fs.c:347-359 | It empties exactly the row of the process and leaves files, names and maps alone |
| FsCalls.ForkOk | task/fs/fs.c:335-345 | A fork to a table entry not in use, with its fs_fork, trips no assertion, keeps cache, counts, maps and directory, and gives the child its parent's row |
| FsCalls.ForkShares | task/fs/fs.c:335-345 | After a fork every entry of the child's row is the parent's, no other row changes, the child is in use, every descriptor keeps its inode and position, and beside that only counts change |
| FsCalls.StatOk | task/fs/stat.c:27-36 | stat's get and put leave cache, counts, maps and directory as they were |
| FsCalls.UnlinkCore | task/fs/unlink.c:10-55 | Every completed unlink, refused or not, keeps cache, counts and maps and a safe directory; it succeeds exactly for an idle regular file found under a path other than "/", changes nothing for "/" and for a missing file, and holds one more reference exactly when it refuses a file found under such a path |
| FsCalls.UnlinkLeaks | task/fs/unlink.c:36-47 | A refused unlink changes no inode, no name and no map, and the reference it keeps is to the cache slot of that file |
| FsNames.UnlinkExact | task/fs/unlink.c:10-55 | An unlink keeps the directory in order, and loses exactly its own name when it succeeds and none when it does not, if and only if no free entry precedes one in use when the last entry goes |
| FsCalls.TransferCore | task/fs/read_write.c:86-93 | A read or write that ends at any position keeps cache, counts and maps, and leaves the directory safe if and only if it does not take the size of the root past its sectors |
| FsNames.TransferDirectory | task/fs/read_write.c:86-93 | It keeps the directory in order under the same condition |
| FsRuns.StepCore | task/fs/open_close.c:9-119 | Every completed call from a safe state keeps cache, counts and maps, adds to the references held exactly the one of a refused unlink, and leaves the directory safe if and only if it is not wild |
| FsRuns.StepNames | task/fs/open_close.c:9-119 | A completed call keeps the directory in order if and only if it is not one of the damaging calls named in the rows above |
| FsRuns.RunSafe | task/fs/fs.c:268-359 | Every state of every run without wild calls has right cache, counts and maps and a safe directory |
| FsRuns.RunHeld | task/fs/unlink.c:36-47 | In such a run the references held are those of the start plus one for each refused unlink so far |
| FsRuns.RunNames | task/fs/unlink.c:123-160 | In such a run the directory names exactly the live files in every state up to a point if and only if no call before it damages it |
| FsEffects.OpenOpens | task/fs/open_close.c:9-108 | A completed open returns -1 and changes nothing for a missing file without O_CREAT or under a bad path, and for an existing one without O_RDWR or with O_CREAT and no O_TRUNC; any other takes a free slot of the caller that leads to the file of that path, created under a free number if missing and emptied under O_TRUNC, with no other slot or inode changed but the size of the root; the names come out as meant if and only if the open does not truncate the root or create a name that does not fit |
| FsEffects.TruncatedRootLosesAll | task/fs/open_close.c:64-68 | After an open of the root with O_RDWR and O_TRUNC from any safe state, no path with a file name is found, while cache, counts and maps stay right |
| FsEffects.DeadNameBreaksCache | task/fs/unlink.c:36-47 | Where a name leads to a dead inode, a completed unlink of it leaves that inode referenced in the cache |
| FsEffects.UnlinkRemoves | task/fs/unlink.c:49-54 | A successful unlink frees the number and exactly the sectors of its file and clears its inode; beside the directory and the root's size no other inode, descriptor, slot or count changes |
| FsEffects.StatLeaves | task/fs/stat.c:27-36 | stat succeeds exactly for a path that is found and changes no count and no table but the cache |
| FsEffects.TransferMoves | task/fs/read_write.c:86-93 | A read or write through any open slot leaves the descriptor at the new position and makes the file's size the larger of old size and position, on disk and in the cache; on a terminal it changes nothing; no other descriptor or inode changes |
| FsCompletes.OpenCompletes | task/fs/open_close.c:9-108 | An open stops exactly for want of a descriptor slot, of a descriptor or cache slot, or of a number, sectors or an entry for a new file, and, for a path without a file name under O_CREAT, with O_TRUNC or without a descriptor |
| FsCompletes.AllocateExactly | task/fs/open_close.c:152-165 | A create finds its number and sectors exactly when the first free number is an inode and the sectors from the first free one on suffice |
| FsCompletes.UnlinkCompletes | task/fs/unlink.c:10-55 | With the directory in order an unlink stops only for want of a cache slot |
| FsCompletes.StatCompletes | task/fs/stat.c:27-36 | stat stops only for want of a cache slot |
| FsEffects.TransferKeepsLookups | task/fs/misc.c:14-31 | A read of the root that ends anywhere within its sectors, on an entry boundary or not, leaves every name and every lookup as it was |
| FsEffects.StretchedRootReadsForeign | task/fs/misc.c:14-31 | After a read that ends beyond them, a lookup of a missing name finds an entry of that name in the sectors behind the directory |
| FsEffects.RoomForName | task/fs/open_close.c:290-293 | With no more inodes than directory entries a create never takes the directory past its sectors |
| FsEffects.ForkThenExit | task/fs/fs.c:335-359 | A fork followed by the child's exit gives back slots, processes, files, maps and directory, with exact counts |
| FsTables.FileSystem.GetFileInode | task/fs/fs.c:268-309 | The one-pass table search makes exactly the lookup step, or fails exactly when the table is full |
| FsTables.FileSystem.Drop | task/fs/open_close.c:110-119 | do_close on the tables makes exactly the drop step |
| FsTables.FileSystem.FsExit | task/fs/fs.c:347-359 | The loop drops every descriptor of the process |
| FsTables.FileSystem.FsFork | task/fs/fs.c:335-345 | The loop counts every descriptor of the process once more |
| FsTables.FileSystem.ConnectSlot | task/fs/open_close.c:70-105 | The descriptor search and the connection make exactly the last part of an open |
| ReadWrite.Device.DoReadWriteRegular | task/fs/read_write.c:50-95 | A write puts exactly the transferred bytes at the position and changes no other byte of the disk; a read returns exactly those bytes and changes none; the position advances by the transfer and the size becomes the larger of old size and new position |
| ReadWrite.TransferExact | task/fs/read_write.c:60-71 | All is transferred when it fits the limit, and the limit is passed exactly when the request passes it |
| ReadWrite.Device.WriteFile | task/fs/read_write.c:50-95 | A write within the capacity changes exactly [pos, pos+len) of its file and nothing of any file in a disjoint extent, and makes the size the larger of old size and pos+len |
| ReadWrite.Device.ReadFile | task/fs/read_write.c:50-95 | A read within the size returns exactly those bytes of the file and changes neither the disk nor the size |
| ReadWrite.Device.WriteThenRead | task/fs/read_write.c:50-95 | A read after a write within the capacity returns what was written |
| ReadWrite.OverrunBound | task/fs/read_write.c:60-88 | Whatever is asked for, a transfer passes the limit by at most one buffer |
| ReadWrite.OverrunByAMegabyte | task/fs/read_write.c:60-88 | That bound is reached: a full file written with twice its capacity is written one megabyte past its extent |
| DirectoryModel.LookupRefines | task/fs/misc.c:3-34 | The scan over entries, one past those the size in bytes allows unless it ends a sector, answers as the name map does |
| DirectoryModel.InsertKeeps | task/fs/open_close.c:262-300 | When the terminator fits, the directory stays well formed and gains exactly one binding |
| DirectoryModel.InsertExact | task/fs/open_close.c:262-300 | A create adds exactly one binding if and only if the terminator fits: a shorter name, or a next entry in another sector or with a zero low byte |
| DirectoryModel.RemoveExact | task/fs/unlink.c:123-160 | An unlink removes exactly one binding and keeps the directory well formed if and only if it does not remove the last entry while a free slot precedes an entry in use |
| DirectoryModel.CountsPrefix | task/fs/unlink.c:148-149 | Without a free entry before one in use, the entries in use are the first ones, as many as the loop has counted |
| DirectoryModel.HoleHides | task/fs/unlink.c:148-159 | With such an entry, one in use lies at or past the recomputed size |
| DirectoryModel.FoundByInode | task/fs/unlink.c:133-154 | The entry found by inode number is the entry of the name |
| DirectoryModel.InsertThenRemove | task/fs/unlink.c:123-160 | Creating a file and unlinking it gives back the map of names and a well-formed directory |
| DirectoryModel.LostEntry | task/fs/unlink.c:148-159 | A directory in which removing one file hides another |
| DirectoryModel.PadInjective | task/fs/misc.c:18-28 | Comparing 12 padded bytes tells names apart |
| DirectoryModel.ParsePath | task/fs/misc.c:36-59 | The character loop drops one leading slash and returns exactly the next characters, at most 12, or an error exactly when one of them is a slash |
| DirectoryModel.DirFile.Lookup | task/fs/misc.c:3-34 | The nested sector and entry loops find the first entry with the name |
| DirectoryModel.DirFile.MakeNewDirEntry | task/fs/open_close.c:262-300 | The loops and the byte copy make exactly the insertion |
| DirectoryModel.DirFile.ClearDirectoryEntry | task/fs/unlink.c:123-160 | The nested sector and entry loops make exactly the removal, and fails exactly when no entry has the inode number |
| PmRuns.RunOk | task/pm/exit.c:4-38 | In every run of fork, exit and wait: no WAITING process has a HANGING child, parents of forked processes in use are live, ranks fall towards INIT, the table agrees with the history, and every reply in the history is justified, an error reply only by the absence of children |
| PmRuns.ForkOk | task/pm/fork.c:10-22 | A fork keeps all of that |
| PmRuns.ExitOk | task/pm/exit.c:4-38 | An exit, with the handing over of all children to INIT, keeps all of that |
| PmRuns.WaitOk | task/pm/wait.c:4-28 | A wait keeps all of that |
| PmEffects.WaitDoes | task/pm/wait.c:4-28 | A wait with an exited child reports the first such child with its status and frees its slot; without one the caller waits, with no reply, if some slot names it as parent, and gets the error reply exactly if none does; no other slot changes |
| PmEffects.ForkDoes | task/pm/fork.c:10-22 | A fork fills the first free slot with a copy of the caller whose parent is the caller, and nothing else; without a free slot it changes nothing |
| PmEffects.ExitDoes | task/pm/exit.c:4-38 | An exit reports its status to a waiting parent and frees the slot, or leaves it hanging with the status; every child gets INIT as parent, and INIT, if it waits, is told about the first exited one; no other slot or reply changes |
| PmRuns.DescendsFromInit | task/pm/exit.c:28-30 | In every run the parent chain of every forked process in use reaches INIT through processes in use |
| PmRuns.SentOnce | task/pm/misc.c:3-8 | In every run, between two statuses sent for one slot lies the second one's exit with that very status, and between two replies to one process its next wait |
| PmRuns.SentToParent | task/pm/misc.c:3-8 | In every run a status goes to the parent of that moment, after an exit with that status and in answer to a wait |
| PmRuns.RefusedChildless | task/pm/wait.c:23-27 | In every run an error reply answers a wait of a process that had no child, live or exited, at that moment |
| PmRuns.HopelessExactly | task/pm/wait.c:11-27 | After a wait the caller waits for nobody if and only if it has no child in use and some free slot still names it as parent; with neither it gets the error reply at once |
| PmRuns.HopelessForever | task/pm/wait.c:21-23 | A forked process that waits for nobody does so for the rest of every run |
| PmRuns.InitHopelessEndsAll | task/pm/wait.c:21-23 | When INIT waits for nobody, no process can make any call |
| PmRuns.SecondWaitHopeless | task/pm/wait.c:11-23 | INIT gets there by forking one child, waiting for it, and waiting again |
| PmTable.ProcessManager.DoFork | task/pm/fork.c:10-22 | The slot search and the copy make exactly the fork step, and fail exactly when no slot is free |
| PmTable.ProcessManager.DoExit | task/pm/exit.c:4-38 | The call with its loop makes exactly the exit step |
| PmTable.ProcessManager.DoWait | task/pm/wait.c:4-28 | The scan with its counter and early return makes exactly the wait step |
| PmTable.ProcessManager.ProcCleanup | task/pm/misc.c:3-8 | The parent gets the status and the slot becomes free |
| Descriptor.DecodeEncoded | kernel/descriptor.c:135-173 | Encoding then decoding a descriptor returns base, 20-bit limit and attribute bits (section 3.4.5 of the Intel SDM Volume 3A) |
| Descriptor.EncodeDecoded | kernel/descriptor.c:135-173 | Decoding then encoding returns every descriptor |
| Descriptor.ForkOfForked | task/pm/fork.c:29-74 | A fork of a forked process asks for exactly PROC_SIZE, and succeeds if and only if the child's block ends below the end of memory |
| Descriptor.ForksPlaced | task/pm/fork.c:58-74 | Along every chain of forks each forked process has code and data segments over the 1 MB block of its slot |
| Descriptor.LinearRangesDisjoint | kernel/process.c:181-193 | Along every chain of forks each address of a forked process is the one at that offset in its own block, no two share a linear address, and none reaches below PROC_BASE |
| Descriptor.AllocFull | task/pm/misc.c:11-23 | A request for a full block fails exactly when memory ends within or right after it |
| ExecArgs.Execv | lib/pm/exec.c:26-62 | Succeeds exactly when the block ends below 1 KB, and then the block is a null-terminated pointer array followed by the strings of argv; no other memory changes |
| ExecArgs.DoExec | task/pm/exec.c:44-79 | argc is the index of the first null word; the block stands at the stack pointer with exactly the pointers before it rebased; no other memory changes |
| ExecArgs.RelocationKeeps | task/pm/exec.c:51-70 | The relocation carries an argument vector over: same argc, same strings, pointers inside the moved block |
| ExecArgs.ExecRoundTrip | lib/pm/exec.c:26-62 | For every argv that fits and every image that spares the block, after execv and do_exec the vector at the stack pointer is argv, inside the reserved 1 KB |
| ExecArgs.ArgVectorUnique | task/pm/exec.c:59-65 | A memory holds at most one argument vector at an address, so the program can read back nothing else |
| Tty.ReadServed | task/task_tty.c:138-173 | While a read goes on, transferred plus left equals the request and the buffer holds the backspace-edited keys; at the first newline or full buffer exactly one resume message is sent, with the edited length; later keys change nothing |
| Tty.InOrder | task/task_tty.c:121-146 | Under every interleaving of key presses and drains, the accepted keys are fed to the editor in order of arrival, the rest being in the ring |
| Tty.EditedKey | task/task_tty.c:141-160 | A printable ASCII key appends its own character to the line, a backspace rubs out the last one, any other key leaves it |
| Tty.PlainText | task/task_tty.c:141-160 | Typing printable ASCII keys yields exactly those characters |
| Tty.ReadSession | task/task_tty.c:138-187 | Both together: a read is served from the accepted keys in order and resumed at most once |
| Tty.EmptyReadNeverResumes | task/task_tty.c:147-181 | A read of zero characters is suspended and never resumed |
| Tty.TtyDevice.KeyEnqueue | task/task_tty.c:121-130 | The ring appends the key, and drops it exactly when all 256 slots are full |
| Tty.TtyDevice.TakeKey | task/task_tty.c:140-145 | The ring gives up its oldest key |
| Tty.TtyDevice.DevWrite | task/task_tty.c:138-173 | The loop empties the ring into the editor in order and leaves no key behind |
| Tty.TtyDevice.StartRead | task/task_tty.c:175-187 | Exactly one suspend message is sent, nothing is transferred yet, all that was asked for is left, the ring is untouched, and the keys in it will serve the read as specified |

## Left out

- Atomicity: kernel calls are single steps; the source runs them with interrupts enabled (kernel/kernel.asm:281), and what an interrupt in the middle of a call does is not modelled.
- Message memory: messages are looked up by process and address, so buffers of different processes are assumed not to overlap.
- A receive from INTERRUPT with nothing latched blocks, as from a sender that does not exist; the source reads table slot -10 there (kernel/ipc.c:195). A send to ANY or INTERRUPT counts as a bad peer.
- Ipc.Notify: the message of a waiting task is written at its address in the task's own space; the source writes through the untranslated pointer (kernel/ipc.c:273-274), which is the same place for native tasks only.
- The WAITING, HANGING and FREE bits stay as they are during IPC runs, and the scheduler sees only whether a process is runnable.
- The PRINTX shortcut, logging, disklog, printf and the console echo of typed keys.
- Boot code, assembly, the 8259, keyboard and disk drivers; the disk is an array of sectors and a transfer is one step.
- The scheduler's runs have no nested interrupts and no forks, and the clock handler does not wake the terminal.
- FsSteps: raw writes through a descriptor of the root directory, which the source allows, are not steps; reads through it are. Paths are C strings shorter than MAX_PATH, and FLAGS is three bits.
- FsSteps.Create: a full inode map makes the allocator return 0 and the source write through a null inode pointer; the model stops there. It also stops when the directory's sectors are full, which RoomForName shows cannot happen.
- The bytes of inodes and directory entries on disk are values; only the two bitmaps and file data are bytes.
- FsRuns.RunSafe: nothing is said of a run after a wild call, from which on lookups may take dead inodes or foreign sectors for files.
- There is one device, so `inode_dev` is not kept; descriptor modes, `do_lseek` and the data copied by stat are left out. A transfer on a descriptor opened without O_RDWR, which the source turns into nothing, is a step like any other.
- FsMap.DiskFollows: the disk image follows the calls through the contracts of the bitmap loops and of the data transfer; that every other write of a call goes to the inode array or a live file's sectors is read off the source, and the bytes written there are not modelled.
- FsSteps.DropSlot: closing a null descriptor stops the model; the source follows the null pointer without an assertion (task/fs/open_close.c:113).
- FsTables.FileSystem.FsExit: takes the row of the process as a range of one flat slot table.
- Tty.TtyDevice.StartRead: a read that arrives while another is outstanding replaces it, as in the source; who then resumes the first reader is not modelled.
- Descriptor.ForksPlaced: the copied memory contents are not modelled, only bases, sizes and ranges; the fields of a descriptor are written as one value.
- Descriptor.LinearRangesDisjoint: holds for up to 2037 forked slots, beyond which block addresses leave the positive range of a C int; the table has 28.
- ELF parsing: ExecArgs loads segments given as bytes and addresses; name copying and the register writes other than argc, argv and the stack pointer are left out.
- PmRuns.RunOk: a call to the process manager, with the file system calls inside it, is one step; replies are sent without modelling the IPC that carries them.
- The shell, untar, and the library wrappers around the system calls.
