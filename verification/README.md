# xv6, modelled and proved in Dafny

A model of the parts of an xv6 kernel (x86, with a student extension that stores files of up to 52
bytes inside the inode) and of two of its user programs where state, order and concurrency make the
code hard to get right, together with proofs of what that code promises.

`dafny verify dfyconfig.toml` checks the whole project.

| files | what they model |
|---|---|
| `LogSpec`, `LogProtocol`, `Log`, `LogWait` | the write-ahead log: one commit and its recovery block write by block write; all interleavings of operations, group commits, crashes and recoveries as a state machine; the code itself as a class that takes that machine's steps; begin_op's sleeping and waking |
| `BufferCache` | the buffer cache on its doubly linked list, against a store without a cache |
| `Bitmap`, `FsSpec`, `FileContent`, `FileSystem` | block bitmap, inodes, direct and indirect mapping, file contents in both representations |
| `Directory`, `Path` | directories as maps from names to inode numbers; path names |
| `Heap` | the user-level allocator's circular free list |
| `PageTable` | two-level page tables as a flat map from pages to frames, over the frame pool |
| `ProcTable` | the process table: fork, exit, wait, kill, sleep and wakeup |
| `Pipe`, `PipeProtocol`, `SleepLock` | the pipe's ring buffer; pipes and sleep locks as interleaved steps of any number of processes with both spin locks explicit |
| `ShellSyntax`, `ShellGrammar`, `ShellExact`, `ShellRoundTrip`, `ShellWords`, `ShellParser` | the shell's command parser as functions; the grammar it accepts exactly; printing and parsing; what accepted words are; the code with its cursor and its in-place termination |
| `Grep` | the regular-expression matcher |
| `Words`, `Wrappers` | bytes and words; optional results |

Code that updates fields in place is a class (or a method over an array) proved against a
specification function; `Valid()` is what holds between operations. The constructor establishes it and
every method keeps it, so it holds after every sequence of calls. Protocols are state machines whose runs are sequences of states,
and their theorems speak of every state of every run.

## Where the code does less than it seems to promise

- `log_write` panics on a transaction that is "too big". begin_op reserves MAXOPBLOCKS blocks per operation so
  that this does not happen. `LogProtocol.TooBigIff` shows what the reservation buys: operations never meet
  the panic exactly when they add no more blocks than they reserved and the log has more than LOGSIZE blocks.
  The source breaks both halves. mkfs gives the log LOGSIZE blocks, header included. filewrite sizes its
  chunks by LOGSIZE (file.c:133), so one chunk on a new file adds sixteen blocks;
  `LogProtocol.FilewriteOverruns` gives the run. The size test also comes before absorption:
  `LogProtocol.AbsorbedPanics` gives a run within all reservations that panics on a block already listed.
- `log_write` tests the size of the header (log.c:216) before it takes log.lock (log.c:221), so several
  operations can pass the test for the same last slot. `LogProtocol` has the test and the critical section as
  two steps. `LogProtocol.OverrunIff` shows when this is harmless: no run overruns the header or the log
  exactly when operations add no more blocks than they reserved and the log has more than LOGSIZE blocks (or
  just one). mkfs writes LOGSIZE: three operations at 10, 9 and 9 blocks, 28 of the 29 slots taken, can list 30,
  and write_log then copies the last one over the block after the log. `LogProtocol.OverrunDamages` gives that
  run; recovery does not undo it. Atomicity of operations and isolation of commits hold of all runs; crash
  safety and the rest of the invariant hold of every run whose header stays within its bounds, and
  `LogProtocol.ReservedRoomy` says which runs do.
- A writer killed while the pipe is full returns without waking readers, even if it has just filled an
  empty pipe. `PipeProtocol.KilledWriterLosesWakeup` gives the run; `PipeProtocol.ReadersHeardIff` shows
  that a run loses a wakeup for readers if and only if it has such a return while a reader waits.
- malloc serves a request faithfully exactly up to 0x7FFFFFF0 bytes; beyond that sbrk gets a negative count,
  or the 32-bit arithmetic wraps and the seven largest requests get a header with no room behind it
  (`Heap.UnitsFaithful`, `Heap.UnitsWrap`).
- kill looks for a pid, not for a process. Unused slots have pid 0, so kill(0) marks one of them as killed, and
  allocproc does not clear the mark: the next child is killed before it starts. `ProcTable.KilledBeforeBirth`
  gives the calls; `ProcTable.KillSpares` and `ProcTable.AbortSpares` say exactly which calls leave such a mark,
  and the contracts of all others that they do not.
- kill does not reach a process that has found reason to sleep on a pipe and not yet fallen asleep
  (`PipeProtocol.KillDooms`).
- The shell treats `>>` like `>`: both open for writing and creating at the start of the file.
- dirlink keeps the low sixteen bits of an inode number, so a multiple of 65536 leaves the map as it was.
- writei sends data blocks straight to disk, so crash atomicity is stated for `log_write` only.

## Model

| member | source | states |
|---|---|---|
| `Words.SetWord` | Assignment 4/xv6-Team-Assignment/log.c:107-110 | storing a 32-bit number in a little-endian byte array reads back as that number and leaves every other aligned number alone |
| `Words.LittleEndian` | Assignment 4/xv6-Team-Assignment/log.c:107-110 | the least significant byte comes first |
| `LogSpec.HeadRoundTrip` | Assignment 4/xv6-Team-Assignment/log.c:86-113 | read_head of what write_head wrote is the same block list, whatever the buffer held before |
| `LogSpec.HeadDisk` | Assignment 4/xv6-Team-Assignment/log.c:101-113 | writing the header changes one block, and that block decodes to the list |
| `LogSpec.LogDisk` | Assignment 4/xv6-Team-Assignment/log.c:174-188 | after k iterations the first k log blocks are the cached copies and nothing else has changed |
| `LogSpec.InstallDisk` | Assignment 4/xv6-Team-Assignment/log.c:68-82 | installing never touches the log region |
| `LogSpec.InstalledAt` | Assignment 4/xv6-Team-Assignment/log.c:68-82 | after k iterations listed home block i has its log copy exactly if i < k |
| `LogSpec.NotInstalledAt` | Assignment 4/xv6-Team-Assignment/log.c:68-82 | a block that is not listed is never written by install_trans |
| `LogSpec.CutRecovery` | Assignment 4/xv6-Team-Assignment/log.c:115-122 | recovery stopped after any number of block writes leaves a disk that recovers to the same home blocks |
| `LogSpec.CutRecoveryAt` | Assignment 4/xv6-Team-Assignment/log.c:115-122 | the same, block by block |
| `LogSpec.RecoveredAt` | Assignment 4/xv6-Team-Assignment/log.c:115-122 | recovery gives each block listed in the header its log copy |
| `LogSpec.RecoveredOther` | Assignment 4/xv6-Team-Assignment/log.c:115-122 | recovery leaves every other home block alone |
| `LogSpec.CrashesDuringRecovery` | Assignment 4/xv6-Team-Assignment/log.c:115-122 | any number of interrupted recoveries followed by a complete one ends in the same home blocks as one recovery |
| `LogSpec.CommitAtomic` | Assignment 4/xv6-Team-Assignment/log.c:190-200 | commit stopped after any block write and then recovered leaves the home blocks all new exactly when the first header write was made, all old otherwise |
| `LogSpec.BeforeHeader` | Assignment 4/xv6-Team-Assignment/log.c:174-188 | before the header is written recovery keeps the old home blocks |
| `LogSpec.AfterHeader` | Assignment 4/xv6-Team-Assignment/log.c:190-200 | from the header write until the header is cleared recovery gives the new home blocks |
| `LogSpec.AfterClear` | Assignment 4/xv6-Team-Assignment/log.c:190-200 | a finished commit has installed every block and left an empty header |
| `LogProtocol.Absorb` | Assignment 4/xv6-Team-Assignment/log.c:222-228 | log_write lists the block and grows the list by at most one |
| `LogProtocol.BeginKeeps` | Assignment 4/xv6-Team-Assignment/log.c:124-141 | begin_op keeps the protocol invariant: contents, membership, durability and history |
| `LogProtocol.LogTestKeeps` | Assignment 4/xv6-Team-Assignment/log.c:216-219 | passing log_write's tests, without log.lock, keeps the invariant |
| `LogProtocol.LogWriteKeeps` | Assignment 4/xv6-Team-Assignment/log.c:221-231 | log_write's critical section, entered any number of times by an operation and whenever after its test, keeps the invariant, distinct block numbers included, if the header stays within its array and the log |
| `LogProtocol.DirectWriteKeeps` | Assignment 4/xv6-Team-Assignment/fs.c:514-518 | a block sent straight home with bwrite keeps the invariant |
| `LogProtocol.EndKeeps` | Assignment 4/xv6-Team-Assignment/log.c:144-161 | end_op's first critical section keeps the invariant; the last operation out starts the commit |
| `LogProtocol.CommitStepKeeps` | Assignment 4/xv6-Team-Assignment/log.c:174-200 | each single block write of commit keeps the invariant |
| `LogProtocol.CommitDoneKeeps` | Assignment 4/xv6-Team-Assignment/log.c:163-171 | the end of a commit keeps the invariant |
| `LogProtocol.CrashKeeps` | Assignment 4/xv6-Team-Assignment/log.c:54-66 | power failure at any moment and rebooting keep the invariant |
| `LogProtocol.RecoverStepKeeps` | Assignment 4/xv6-Team-Assignment/log.c:115-122 | each single block write of recovery keeps the invariant |
| `LogProtocol.Recovers` | Assignment 4/xv6-Team-Assignment/log.c:115-122 | at every moment recovering from the disk as it stands restores the last commit point |
| `LogProtocol.NextOrders` | Assignment 4/xv6-Team-Assignment/log.c:124-231 | every step, with an overrun header too, keeps the order of operations and transactions: who belongs to which transaction, and which log_writes are durable |
| `LogProtocol.RunOrders` | Assignment 4/xv6-Team-Assignment/log.c:124-231 | that order holds in every state of every run |
| `LogProtocol.RunKeeps` | Assignment 4/xv6-Team-Assignment/log.c:124-231 | the whole invariant holds in every state of every interleaving of operations, commits, crashes and recoveries whose header stays within its bounds |
| `LogProtocol.CrashSafety` | Assignment 4/xv6-Team-Assignment/log.c:68-231 | cut any run whose header stays within its bounds anywhere, crash any number of times during recovery, then recover: each home block holds the data of the last committed log_write to it |
| `LogProtocol.OperationsAtomic` | Assignment 4/xv6-Team-Assignment/log.c:124-172 | in every run: the log_writes of one operation belong to one transaction, two of them are both durable or both not, and an unfinished operation has none durable |
| `LogProtocol.Isolation` | Assignment 4/xv6-Team-Assignment/log.c:124-172 | in every run: while a commit is writing no operation is outstanding, so no log_write happens and end_op's panic is out of reach |
| `LogProtocol.HeaderListsOnce` | Assignment 4/xv6-Team-Assignment/log.c:221-228 | a header that stays within its bounds lists distinct home blocks, fewer than the log has blocks |
| `LogProtocol.NextReserves` | Assignment 4/xv6-Team-Assignment/log.c:126-140 | a step of operations that keep to their reservations keeps header plus unused reservations within LOGSIZE |
| `LogProtocol.RunReserves` | Assignment 4/xv6-Team-Assignment/log.c:126-231 | over every run in which no operation adds more than MAXOPBLOCKS blocks, header plus unused reservations never exceed LOGSIZE |
| `LogProtocol.NeverTooBig` | Assignment 4/xv6-Team-Assignment/log.c:216-217 | with more than LOGSIZE log blocks, and no operation adding more blocks than the MAXOPBLOCKS it reserved, log_write never refuses an operation with some of its reservation left |
| `LogProtocol.TooBigIff` | Assignment 4/xv6-Team-Assignment/log.c:126-140 | the reservation is exact: if operations may add up to m >= MAXOPBLOCKS blocks, log_write never refuses one below its m exactly when m is MAXOPBLOCKS and the log has more than LOGSIZE blocks (mkfs writes LOGSIZE) |
| `LogProtocol.FillLog` | Assignment 4/xv6-Team-Assignment/log.c:126-140 | three operations within their reservations can list any number of blocks the log has room for |
| `LogProtocol.FilewriteOverruns` | Assignment 4/xv6-Team-Assignment/file.c:127-133 | a run in which filewrite's chunks, sized by LOGSIZE, reach the panic however large the log is |
| `LogProtocol.AbsorbedPanics` | Assignment 4/xv6-Team-Assignment/log.c:216-228 | a run within all reservations in which log_write panics on a block the header already lists, because the size test comes first |
| `LogProtocol.PanicsWhenUsedUp` | Assignment 4/xv6-Team-Assignment/log.c:216-217 | within reservations that panic needs every outstanding operation to have used up all it reserved |
| `LogProtocol.ReservedRoomy` | Assignment 4/xv6-Team-Assignment/log.c:216-231 | with more than LOGSIZE log blocks, operations within their reservations never overrun the header, although its size is tested without the lock: then crash safety holds of every run |
| `LogProtocol.RunBarren` | Assignment 4/xv6-Team-Assignment/log.c:216-217 | with a log of one block nothing is ever listed |
| `LogProtocol.OverrunIff` | Assignment 4/xv6-Team-Assignment/log.c:216-228 | if operations may add up to m >= MAXOPBLOCKS blocks, no run overruns the header or the log exactly when m is MAXOPBLOCKS and the log has more than LOGSIZE blocks, or the log has but one block |
| `LogProtocol.Overruns` | Assignment 4/xv6-Team-Assignment/log.c:216-228 | the run: two operations pass the test while there is room for one block, then both list one; with a log of at most LOGSIZE blocks all operations keep to their reservations |
| `LogProtocol.OverrunDamages` | Assignment 4/xv6-Team-Assignment/log.c:174-188 | what comes of it with mkfs's log of LOGSIZE blocks or a smaller one: write_log's last copy lands on the home block after the log, which no operation wrote, and recovery does not restore it |
| `Log.CommitPhases` | Assignment 4/xv6-Team-Assignment/log.c:190-200 | the disks commit passes through are those of write_log, the header, install_trans and the erasure, in this order |
| `Log.CommitRun` | Assignment 4/xv6-Team-Assignment/log.c:190-200 | the block writes of commit are the protocol's commit steps, one each, with the same disks |
| `Log.Log.constructor` | Assignment 4/xv6-Team-Assignment/log.c:53-66 | a disk that may have crashed at any moment is recovered, block write by block write, before the first operation |
| `Log.Log.BeginOp` | Assignment 4/xv6-Team-Assignment/log.c:124-141 | takes the protocol's Begin step exactly if there is one: no commit runs and the whole reservation fits |
| `Log.Log.LogTest` | Assignment 4/xv6-Team-Assignment/log.c:216-219 | takes the protocol's LogTest step, or refuses exactly on the source's panics |
| `Log.Log.LogWrite` | Assignment 4/xv6-Team-Assignment/log.c:221-231 | takes the protocol's LogWrite step; it reports, instead of writing past the array, a new block for a full array |
| `Log.Log.RecordBlock` | Assignment 4/xv6-Team-Assignment/log.c:221-228 | the loop lists the block once |
| `Log.InstallsCached` | Assignment 4/xv6-Team-Assignment/log.c:68-82 | installing what was copied to the log from the cache changes no cached home block |
| `Log.Log.EndOp` | Assignment 4/xv6-Team-Assignment/log.c:144-161 | takes the protocol's End step; a commit starts exactly when the last operation leaves |
| `Log.Log.ReadHead` | Assignment 4/xv6-Team-Assignment/log.c:84-96 | the in-memory header is the one on disk |
| `Log.Log.EncodeHead` | Assignment 4/xv6-Team-Assignment/log.c:105-110 | the loop lays the whole header over the buffer |
| `Log.Log.WriteHead` | Assignment 4/xv6-Team-Assignment/log.c:98-113 | one disk write, decoding to the in-memory header |
| `Log.Log.WriteLog` | Assignment 4/xv6-Team-Assignment/log.c:174-188 | the disks written are those of the specification, one by one, and no home block changes |
| `Log.Log.InstallTrans` | Assignment 4/xv6-Team-Assignment/log.c:68-82 | the disks written are those of the specification, one by one, and the cache follows |
| `Log.Log.Commit` | Assignment 4/xv6-Team-Assignment/log.c:190-200 | every disk it passes through is the one CommitAtomic speaks of; it ends with the listed blocks installed and an empty log |
| `Log.Log.FinishEndOp` | Assignment 4/xv6-Team-Assignment/log.c:163-200 | the commit and the clearing of log.committing are all commit steps of the protocol from the given state, with the same disks, and then its CommitDone step; the variables show the state it ends in |
| `Log.Log.RecoverFromLog` | Assignment 4/xv6-Team-Assignment/log.c:115-122 | ends in the recovered disk with an empty log, through the disks CutRecovery speaks of |
| `LogWait.TalliedKeeps` | Assignment 4/xv6-Team-Assignment/log.c:126-172 | log.outstanding counts the operations and log.committing says that one process commits, never both |
| `LogWait.SleepsForCause` | Assignment 4/xv6-Team-Assignment/proc.c:368-403 | a process on its way through sleep still has reason to sleep |
| `LogWait.WakeupReaches` | Assignment 4/xv6-Team-Assignment/proc.c:405-425 | wakeup(&log) reaches every waiting process |
| `LogWait.HeardKeeps` | Assignment 4/xv6-Team-Assignment/log.c:124-172 | no step loses a wakeup for begin_op |
| `LogWait.RunKeeps` | Assignment 4/xv6-Team-Assignment/log.c:124-172 | all this holds in every state of every run |
| `LogWait.ClearsEmpty` | Assignment 4/xv6-Team-Assignment/log.c:163-200 | from the end of commit() until log.committing is cleared the header stays empty |
| `LogWait.EmptiedKeeps` | Assignment 4/xv6-Team-Assignment/log.c:124-200 | without operations and a commit the header is empty |
| `LogWait.SleeperHasCause` | Assignment 4/xv6-Team-Assignment/log.c:124-141 | a process asleep in begin_op with log.lock free means a commit in progress or no room for one more reservation; either way another process is inside an operation or committing |
| `LogWait.CommitsAlone` | Assignment 4/xv6-Team-Assignment/log.c:144-172 | while somebody commits nobody is inside an operation; end_op's panic is out of reach |
| `Heap.UnitsFaithful` | Assignment 4/xv6-Team-Assignment/umalloc.c:69-69 | the unit count covers the request, and its byte count fits sbrk's int, exactly for requests up to 0x7FFFFFF0 bytes |
| `Heap.UnitsWrap` | Assignment 4/xv6-Team-Assignment/umalloc.c:69-69 | requests of the seven largest sizes wrap to a bare header; the byte count fits sbrk's int exactly for these and for those up to 0x7FFFFFF0 |
| `Heap.Partition` | Assignment 4/xv6-Team-Assignment/umalloc.c:24-90 | blocks that neither overlap nor leave gaps give each unit of memory exactly one owner |
| `Heap.Merge` | Assignment 4/xv6-Team-Assignment/umalloc.c:33-42 | joining two neighbours keeps the partition |
| `Heap.Split` | Assignment 4/xv6-Team-Assignment/umalloc.c:78-82 | cutting a block in two keeps the partition |
| `Heap.Grow` | Assignment 4/xv6-Team-Assignment/umalloc.c:46-61 | a region beyond the last block extends the partition |
| `Heap.InsertFree` | Assignment 4/xv6-Team-Assignment/umalloc.c:24-44 | a live block put behind its predecessor keeps the list one sorted cycle; only its two seams may touch |
| `Heap.MergeFree` | Assignment 4/xv6-Team-Assignment/umalloc.c:33-42 | a merge removes one seam and changes no other |
| `Heap.JoinNext` | Assignment 4/xv6-Team-Assignment/umalloc.c:33-37 | after joining upward only the lower seam may touch |
| `Heap.JoinPrev` | Assignment 4/xv6-Team-Assignment/umalloc.c:38-42 | joining downward restores the whole invariant |
| `Heap.TakeWhole` | Assignment 4/xv6-Team-Assignment/umalloc.c:76-77 | unlinking a block of the exact size keeps the invariant |
| `Heap.TakeTail` | Assignment 4/xv6-Team-Assignment/umalloc.c:78-82 | handing out the tail of a larger block keeps the invariant |
| `Heap.TakeRegion` | Assignment 4/xv6-Team-Assignment/umalloc.c:46-61 | a region from sbrk enters as a live block |
| `Heap.FullTurn` | Assignment 4/xv6-Team-Assignment/umalloc.c:74-89 | coming round to freep means every free block was too small |
| `Heap.StopsAt` | Assignment 4/xv6-Team-Assignment/umalloc.c:29-32 | the tests of free's search loop succeed at the right place in the list and nowhere else |
| `Heap.Allocator.constructor` | Assignment 4/xv6-Team-Assignment/umalloc.c:21-22 | nothing allocated, no list yet |
| `Heap.Allocator.FindPlace` | Assignment 4/xv6-Team-Assignment/umalloc.c:29-32 | the search ends at the last free block below the given one, wrap-around of the list included |
| `Heap.Allocator.Free` | Assignment 4/xv6-Team-Assignment/umalloc.c:24-44 | the block leaves the live set, every other live block keeps its size, and the free list is again one sorted cycle without adjacent blocks that partitions memory with the live blocks |
| `Heap.Allocator.MoreCore` | Assignment 4/xv6-Team-Assignment/umalloc.c:46-61 | memory grows by at least NALLOC units exactly if sbrk grants them, and then a block of the wanted size is free |
| `Heap.Allocator.Start` | Assignment 4/xv6-Team-Assignment/umalloc.c:70-73 | the list is the empty base block alone |
| `Heap.Allocator.Take` | Assignment 4/xv6-Team-Assignment/umalloc.c:75-85 | the caller gets a block of the exact size that was not live before |
| `Heap.Allocator.Search` | Assignment 4/xv6-Team-Assignment/umalloc.c:74-89 | one turn finds a large enough block exactly if there is one |
| `Heap.Allocator.Malloc` | Assignment 4/xv6-Team-Assignment/umalloc.c:63-90 | 0 only if sbrk refuses; otherwise a new block of the computed number of units; sbrk is asked at most once and exactly if no free block is large enough; every live block keeps its size |
| `Bitmap.ByteBits` | Assignment 4/xv6-Team-Assignment/fs.c:66-68 | setting or clearing one bit of a byte changes that bit only |
| `Bitmap.UsedDigit` | Assignment 4/xv6-Team-Assignment/fs.c:65-68 | block b has digit b % 8 of byte b / 8 of the bitmap, 512 bytes to a bitmap block |
| `Bitmap.MarkOne` | Assignment 4/xv6-Team-Assignment/fs.c:65-68 | marking a block changes its own bit and no other block's |
| `Bitmap.ClearOne` | Assignment 4/xv6-Team-Assignment/fs.c:88-93 | clearing a block changes its own bit and no other block's |
| `Bitmap.BitPosition` | Assignment 4/xv6-Team-Assignment/fs.c:63-68 | bit bi of the bitmap block read for block b belongs to block b + bi |
| `Bitmap.MarkFirst` | Assignment 4/xv6-Team-Assignment/mkfs.c:238-251 | exactly the first blocks are marked |
| `FsSpec.MarkedMore` | Assignment 4/xv6-Team-Assignment/fs.c:56-78 | marking one more owned block keeps the bitmap exact |
| `FsSpec.MarkedLess` | Assignment 4/xv6-Team-Assignment/fs.c:81-96 | clearing one owned block keeps the bitmap exact |
| `FsSpec.FillSlot` | Assignment 4/xv6-Team-Assignment/fs.c:361-389 | filling an empty pointer with an unowned block keeps every block owned once |
| `FsSpec.SlotsKept` | Assignment 4/xv6-Team-Assignment/fs.c:514-518 | writing a data block moves no pointer of any inode |
| `FsSpec.FillKeepsBytes` | Assignment 4/xv6-Team-Assignment/fs.c:361-389 | mapping a zeroed block changes no byte of any file |
| `FsSpec.RewriteKeepsSlots` | Assignment 4/xv6-Team-Assignment/fs.c:514-518 | rewriting a mapped data block keeps ownership and every pointer |
| `FsSpec.RewriteByte` | Assignment 4/xv6-Team-Assignment/fs.c:514-518 | rewriting a mapped data block changes that block of that file and nothing else |
| `FsSpec.MapInInode` | Assignment 4/xv6-Team-Assignment/fs.c:367-377 | a fresh block in an inode's own pointer keeps ownership, bytes and other pointers |
| `FsSpec.MapInIndirect` | Assignment 4/xv6-Team-Assignment/fs.c:378-385 | a fresh block in the indirect block keeps ownership, bytes and other pointers |
| `FsSpec.DropInode` | Assignment 4/xv6-Team-Assignment/fs.c:396-424 | an inode left without pointers gives up exactly its own blocks |
| `FsSpec.PassSlot` | Assignment 4/xv6-Team-Assignment/fs.c:403-420 | each pointer passed while truncating frees one block not freed before |
| `FsSpec.ByteStands` | Assignment 4/xv6-Team-Assignment/fs.c:361-389 | byte k of a file stands in the block that entry k / 512 of addrs names, or from the thirteenth block on in the one that entry k / 512 - 12 of the indirect block names |
| `FileContent.ReadChunk` | Assignment 4/xv6-Team-Assignment/fs.c:461-472 | the piece of a disk block readi copies is the matching piece of the file |
| `FileContent.WroteMore` | Assignment 4/xv6-Team-Assignment/fs.c:506-519 | one turn of writei's loop extends the written bytes by its chunk and changes nothing else |
| `FileContent.WroteSplice` | Assignment 4/xv6-Team-Assignment/fs.c:480-530 | the finished writes are one splice of the contents |
| `FileContent.OthersKept` | Assignment 4/xv6-Team-Assignment/fs.c:480-530 | files not written keep contents and mapping |
| `FileContent.BlockWriteDone` | Assignment 4/xv6-Team-Assignment/fs.c:505-529 | a block-mapped write leaves ownership, sizes and other files right and the file spliced |
| `FileContent.SmallWriteDone` | Assignment 4/xv6-Team-Assignment/fs.c:496-505 | a write into the inode does the same for a small file, without any block |
| `FileSystem.FileSystem.constructor` | Assignment 4/xv6-Team-Assignment/mkfs.c:94-115 | a formatted disk with free inodes is consistent: the bitmap marks the metadata blocks and nothing else |
| `FileSystem.FileSystem.Balloc` | Assignment 4/xv6-Team-Assignment/fs.c:56-78 | the lowest free block, zeroed and marked; a panic exactly when the disk is full |
| `FileSystem.FileSystem.Bfree` | Assignment 4/xv6-Team-Assignment/fs.c:80-96 | unmarks the block; a panic exactly when it was free |
| `FileSystem.FileSystem.Fresh` | Assignment 4/xv6-Team-Assignment/fs.c:56-78 | under the ownership invariant the block is unowned and outside the metadata |
| `FileSystem.FileSystem.MapSlot` | Assignment 4/xv6-Team-Assignment/fs.c:367-377 | an empty pointer of the inode gets a block of its own |
| `FileSystem.FileSystem.MapEntry` | Assignment 4/xv6-Team-Assignment/fs.c:378-385 | an entry of the indirect block is looked up, or gets a block of its own |
| `FileSystem.FileSystem.Bmap` | Assignment 4/xv6-Team-Assignment/fs.c:361-389 | the block of a file block; mapping one moves no set pointer and changes no byte; fails only on a full disk |
| `FileSystem.FileSystem.Readi` | Assignment 4/xv6-Team-Assignment/fs.c:437-476 | -1 exactly for a bad range, otherwise the slice of the file cut at its size; a device's own answer for a device; nothing is allocated or changed |
| `FileSystem.FileSystem.ReadBlocks` | Assignment 4/xv6-Team-Assignment/fs.c:461-472 | the block loop returns the slice and allocates nothing |
| `FileSystem.FileSystem.Writei` | Assignment 4/xv6-Team-Assignment/fs.c:478-530 | -1 exactly for a bad range, otherwise min(n, room) bytes are spliced in, for block files and small files alike; a device's own answer for a device; no other file changes; a panic only on a full disk and never for a small file |
| `FileSystem.FileSystem.WriteThenRead` | Assignment 4/xv6-Team-Assignment/fs.c:437-530 | reading where one wrote gives the bytes back |
| `FileSystem.FileSystem.WriteBlocks` | Assignment 4/xv6-Team-Assignment/fs.c:506-519 | the block loop writes exactly the given bytes and maps every block below them |
| `FileSystem.FileSystem.WriteChunk` | Assignment 4/xv6-Team-Assignment/fs.c:508-518 | one turn of that loop |
| `FileSystem.FileSystem.FreeSlot` | Assignment 4/xv6-Team-Assignment/fs.c:403-420 | freeing one pointer keeps the bitmap exact; bfree's panic is out of reach |
| `FileSystem.FileSystem.FreeDirect` | Assignment 4/xv6-Team-Assignment/fs.c:403-408 | the direct blocks are freed once each and their pointers cleared |
| `FileSystem.FileSystem.FreeIndirect` | Assignment 4/xv6-Team-Assignment/fs.c:410-420 | the indirect entries and the indirect block are freed once each |
| `FileSystem.FileSystem.Itrunc` | Assignment 4/xv6-Team-Assignment/fs.c:391-424 | the inode gives up exactly its own blocks and all its bytes, and the file system stays consistent |
| `FileSystem.FileSystem.Iput` | Assignment 4/xv6-Team-Assignment/fs.c:312-341 | dropping the last reference to an unlinked inode frees it and its blocks; small-file bytes are never taken for block numbers; otherwise nothing changes |
| `FileSystem.FileSystem.Ialloc` | Assignment 4/xv6-Team-Assignment/fs.c:180-205 | the first free inode starts empty and without blocks whatever its earlier life left; a panic exactly if there is none |
| `FileSystem.FileSystem.SetLinks` | Assignment 4/xv6-Team-Assignment/fs.c:207-224 | a link-count update changes nothing else |
| `Directory.StrNCmp` | Assignment 4/xv6-Team-Assignment/string.c:58-66 | 0 exactly when the names agree up to the NUL or the limit |
| `Directory.StrNCpy` | Assignment 4/xv6-Team-Assignment/string.c:68-79 | the name, then zeros to the end of the field |
| `Directory.Entry` | Assignment 4/xv6-Team-Assignment/fs.c:591-593 | an entry keeps its name and the low sixteen bits of its inode number |
| `Directory.DirMapAt` | Assignment 4/xv6-Team-Assignment/fs.c:541-567 | the map binds a name exactly if a live entry carries it, to that entry's number |
| `Directory.PlacedUnique` | Assignment 4/xv6-Team-Assignment/fs.c:569-597 | a new name in a free place keeps names unique |
| `Directory.PlacedInserts` | Assignment 4/xv6-Team-Assignment/fs.c:569-597 | a new entry in a free place is one insertion in the map |
| `Directory.PaddedKey` | Assignment 4/xv6-Team-Assignment/string.c:68-79 | the key of a padded name field is the key of the name |
| `Directory.ReadEntry` | Assignment 4/xv6-Team-Assignment/fs.c:552-554 | entry k comes back and the short-read panic is out of reach |
| `Directory.DirLookup` | Assignment 4/xv6-Team-Assignment/fs.c:541-567 | a name is found exactly if the map binds its first DIRSIZ bytes, with inode number and offset |
| `Directory.FindFree` | Assignment 4/xv6-Team-Assignment/fs.c:583-589 | the first free entry, or the end |
| `Directory.DirLink` | Assignment 4/xv6-Team-Assignment/fs.c:569-597 | -1 exactly if the name is bound; otherwise the map gains this binding in the first free slot or at the end and other files keep their contents; a panic only on a full disk or a directory of maximal size |
| `Directory.Insert` | Assignment 4/xv6-Team-Assignment/fs.c:583-597 | the same once the name is known to be new |
| `Directory.WriteEntry` | Assignment 4/xv6-Team-Assignment/fs.c:593-594 | one whole entry is spliced into the directory |
| `Directory.Links` | Assignment 4/xv6-Team-Assignment/fs.c:569-597 | the splice keeps the directory well-formed and is the insertion |
| `Path.ElementsJoined` | Assignment 4/xv6-Team-Assignment/fs.c:602-613 | taking apart a path made of given elements gives these elements |
| `Path.FirstElement` | Assignment 4/xv6-Team-Assignment/fs.c:624-627 | an element in front of a slash or the end is taken whole |
| `Path.SkipElem` | Assignment 4/xv6-Team-Assignment/fs.c:602-637 | 0 exactly if no element is left; otherwise the first element, cut to DIRSIZ, and a rest that starts without a slash and holds the other elements |
| `Path.NameX` | Assignment 4/xv6-Team-Assignment/fs.c:639-676 | a path that starts with a slash is followed from inode 1 whatever the current directory, any other from the current directory: to the inode its names lead to, or for nameiparent to the directory before the last name; ilock's panic on a free inode; nothing changes |
| `Path.Follow` | Assignment 4/xv6-Team-Assignment/fs.c:651-676 | the loop computes the walk |
| `Path.ResolveOne` | Assignment 4/xv6-Team-Assignment/fs.c:652-670 | one name is one lookup in the directory's map |
| `Path.ResolveSplit` | Assignment 4/xv6-Team-Assignment/fs.c:652-670 | a path can be cut anywhere and followed from where its first part leads |
| `Path.LinkThenLookup` | Assignment 4/xv6-Team-Assignment/fs.c:569-689 | a name linked in the root directory is found under / from every current directory |
| `Path.Link` | Assignment 4/xv6-Team-Assignment/fs.c:569-597 | dirlink of an inode that exists keeps every directory well-formed and every name leading to an inode, and the new name leads to it |
| `Path.WalkResolves` | Assignment 4/xv6-Team-Assignment/fs.c:639-689 | namei reaches what the names lead to one after the other; nameiparent reaches the directory before the last name |
| `BufferCache.Unlink` | Assignment 4/xv6-Team-Assignment/bio.c:132-133 | taking a buffer out leaves one list linked both ways |
| `BufferCache.LinkFront` | Assignment 4/xv6-Team-Assignment/bio.c:134-137 | putting it at the front leaves one list linked both ways |
| `BufferCache.CleanOnDisk` | Assignment 4/xv6-Team-Assignment/bio.c:62-93 | a block whose buffer is clean reads the same from disk and from a cacheless store |
| `BufferCache.Recycle` | Assignment 4/xv6-Team-Assignment/bio.c:81-90 | giving a clean buffer to a block nobody holds keeps the cache coherent and one buffer per block |
| `BufferCache.Fill` | Assignment 4/xv6-Team-Assignment/memide.c:38-60 | filling a buffer from disk shows what a cacheless store holds |
| `BufferCache.Store` | Assignment 4/xv6-Team-Assignment/bio.c:108-116 | new data, written through or kept dirty, keeps the cache coherent |
| `BufferCache.MovedToFront` | Assignment 4/xv6-Team-Assignment/bio.c:128-138 | moving the released buffer to the front keeps the list in order of release |
| `BufferCache.Cache.constructor` | Assignment 4/xv6-Team-Assignment/bio.c:38-56 | every buffer unused and on the list once |
| `BufferCache.Cache.InitList` | Assignment 4/xv6-Team-Assignment/bio.c:46-55 | binit links every buffer once |
| `BufferCache.Cache.FindCached` | Assignment 4/xv6-Team-Assignment/bio.c:68-76 | the buffer of the block, or none has it |
| `BufferCache.Cache.FindIdle` | Assignment 4/xv6-Team-Assignment/bio.c:78-91 | the idle buffer released longest ago, or none is idle |
| `BufferCache.Cache.BGet` | Assignment 4/xv6-Team-Assignment/bio.c:58-93 | the one buffer of the block, or the buffer released longest ago, never a referenced or dirty one; fails exactly if there is neither |
| `BufferCache.Cache.Lock` | Assignment 4/xv6-Team-Assignment/sleeplock.c:22-32 | taking the buffer's sleep lock |
| `BufferCache.Cache.BRead` | Assignment 4/xv6-Team-Assignment/bio.c:95-106 | the locked buffer shows what a cacheless store holds |
| `BufferCache.Cache.BWrite` | Assignment 4/xv6-Team-Assignment/bio.c:108-116 | store and disk both change at this block and nowhere else |
| `BufferCache.Cache.LogWrite` | Assignment 4/xv6-Team-Assignment/log.c:211-231 | the store changes at this block and the buffer is pinned dirty |
| `BufferCache.Cache.Unlock` | Assignment 4/xv6-Team-Assignment/bio.c:118-126 | releasing the sleep lock |
| `BufferCache.Cache.Put` | Assignment 4/xv6-Team-Assignment/bio.c:128-141 | the reference is dropped; the last one makes the buffer the most recently released |
| `BufferCache.Cache.MoveToFront` | Assignment 4/xv6-Team-Assignment/bio.c:131-137 | the pointer surgery is remove and insert at front |
| `BufferCache.Cache.BRelse` | Assignment 4/xv6-Team-Assignment/bio.c:118-141 | lock and reference given up, everything else kept |
| `PageTable.Translates` | Assignment 4/xv6-Team-Assignment/vm.c:41-64 | the entry of an address is the one the hardware finds: bits 31 to 22 choose in the directory, bits 21 to 12 in the table |
| `PageTable.SetEntryAt` | Assignment 4/xv6-Team-Assignment/vm.c:69-89 | writing one entry changes one page of one address space |
| `PageTable.MapUser` | Assignment 4/xv6-Team-Assignment/vm.c:69-89 | mapping a frame in hand at an empty page keeps every frame in one place |
| `PageTable.UnmapUser` | Assignment 4/xv6-Team-Assignment/vm.c:275-282 | unmapping gives exactly that frame back |
| `PageTable.AddTableKeeps` | Assignment 4/xv6-Team-Assignment/vm.c:44-64 | a new table page changes no mapping |
| `PageTable.SkipTable` | Assignment 4/xv6-Team-Assignment/vm.c:272-274 | jumping over a missing directory entry is the same as visiting its pages |
| `PageTable.SkipOwner` | Assignment 4/xv6-Team-Assignment/vm.c:272-274 | the same for who owns which frame |
| `PageTable.Jump` | Assignment 4/xv6-Team-Assignment/mmu.h:115-134 | the jump goes to the first page of the next table and does not wrap |
| `PageTable.VisitKeeps` | Assignment 4/xv6-Team-Assignment/vm.c:261-285 | deallocation unmaps the pages in range, in this address space only |
| `PageTable.VisitOwnerAt` | Assignment 4/xv6-Team-Assignment/vm.c:261-285 | exactly the frames of those pages become free |
| `PageTable.VisitView` | Assignment 4/xv6-Team-Assignment/vm.c:257-285 | visiting the pages from newsz to oldsz leaves an address space of size newsz and every other one as it was |
| `PageTable.VisitAll` | Assignment 4/xv6-Team-Assignment/vm.c:289-304 | deallocating the user half frees exactly its frames |
| `PageTable.Detach` | Assignment 4/xv6-Team-Assignment/vm.c:289-304 | a directory without user pages can be taken down |
| `PageTable.DistinctFrames` | Assignment 4/xv6-Team-Assignment/vm.c:225-255 | no two user pages, of one process or of two, share a frame |
| `PageTable.NewDir` | Assignment 4/xv6-Team-Assignment/vm.c:127-143 | a new directory starts with no user page |
| `PageTable.Vm.constructor` | Assignment 4/xv6-Team-Assignment/kalloc.c:45-52 | at boot every frame of the range is free once and there is no page directory |
| `PageTable.Vm.WalkPgdir` | Assignment 4/xv6-Team-Assignment/vm.c:41-64 | a table is found or made exactly if it is there, or may be made and memory is left; no mapping changes |
| `PageTable.Vm.MapPage` | Assignment 4/xv6-Team-Assignment/vm.c:66-89 | the page is mapped exactly if a table can be had; the remap panic is out of reach |
| `PageTable.Vm.DeallocUvm` | Assignment 4/xv6-Team-Assignment/vm.c:257-285 | the loop with its jump leaves the table and free list of the page-by-page version, frame order included; afterwards user page i is mapped iff i*PGSIZE < newsz, and no other address space has changed |
| `PageTable.Vm.DeallocPage` | Assignment 4/xv6-Team-Assignment/vm.c:275-282 | one page of that loop |
| `PageTable.Vm.AllocPage` | Assignment 4/xv6-Team-Assignment/vm.c:239-253 | one zeroed page is added, or what was taken is in hand; two free frames suffice |
| `PageTable.Vm.Undo` | Assignment 4/xv6-Team-Assignment/vm.c:241-252 | the failure path restores every user mapping and frees what it took |
| `PageTable.Vm.AllocUvm` | Assignment 4/xv6-Team-Assignment/vm.c:225-255 | user page i is mapped iff i*PGSIZE < sz afterwards, with zeroed new pages; failure returns 0, restores all mappings, and happens only with too few free frames |
| `PageTable.Vm.FreeVm` | Assignment 4/xv6-Team-Assignment/vm.c:287-304 | every frame of the address space, table pages and directory included, is freed exactly once, and no other frame |
| `PageTable.Vm.FreeTables` | Assignment 4/xv6-Team-Assignment/vm.c:297-303 | the loop frees each table page once, then the directory |
| `PageTable.Vm.SetupKvm` | Assignment 4/xv6-Team-Assignment/vm.c:126-143 | an address space without user pages and with the kernel's table pages; enough frames suffice; a failure leaves nothing, or one directory nobody uses with its table pages |
| `PageTable.Vm.CopyUvm` | Assignment 4/xv6-Team-Assignment/vm.c:319-349 | the child has the same size, flags and bytes in frames of its own, the parent keeps its pages; both panics are out of reach; failure happens only with too few free frames and gives back every frame but the one the source drops, or the directory setupkvm abandons |
| `PageTable.GivenBack` | Assignment 4/xv6-Team-Assignment/vm.c:346-348 | freevm on the unfinished copy gives back all it has taken, except for a frame already dropped |
| `PageTable.Vm.CopyPage` | Assignment 4/xv6-Team-Assignment/vm.c:332-342 | one page copied into a frame of its own |
| `ProcTable.ExitedEffect` | Assignment 4/xv6-Team-Assignment/proc.c:208-223 | what exit does to each slot: who is woken and adopted, and that nothing else changes |
| `ProcTable.ExitKeeps` | Assignment 4/xv6-Team-Assignment/proc.c:186-226 | exit keeps the protocol: live parents, no sleeper over an exited child, distinct pids |
| `ProcTable.ReapKeeps` | Assignment 4/xv6-Team-Assignment/proc.c:240-257 | wait's reaping keeps it, and the pid had not been returned before |
| `ProcTable.WaitSleepKeeps` | Assignment 4/xv6-Team-Assignment/proc.c:260-267 | going to sleep with a child and without an exited one keeps it |
| `ProcTable.WakeKeeps` | Assignment 4/xv6-Team-Assignment/proc.c:405-416 | wakeups keep it |
| `ProcTable.AllocKeeps` | Assignment 4/xv6-Team-Assignment/proc.c:34-77 | allocproc keeps it and hands out a new pid |
| `ProcTable.AbortKeeps` | Assignment 4/xv6-Team-Assignment/proc.c:152-157 | a failed fork keeps it |
| `ProcTable.ParentKeeps` | Assignment 4/xv6-Team-Assignment/proc.c:159-159 | fork's unlocked assignment of the parent keeps it |
| `ProcTable.PublishKeeps` | Assignment 4/xv6-Team-Assignment/proc.c:172-180 | letting the child loose keeps it |
| `ProcTable.KillKeeps` | Assignment 4/xv6-Team-Assignment/proc.c:427-448 | kill keeps it |
| `ProcTable.StateChange` | Assignment 4/xv6-Team-Assignment/proc.c:279-345 | scheduling and yielding keep it |
| `ProcTable.ExitedAreCollectable` | Assignment 4/xv6-Team-Assignment/proc.c:186-269 | whenever the lock is free every live or exited process but init has a live parent, and that parent is not asleep in wait over it once it has exited |
| `ProcTable.WaiterExpects` | Assignment 4/xv6-Team-Assignment/proc.c:231-269 | whenever the lock is free, a process asleep in wait has a child that is alive or being built |
| `ProcTable.KilledNeverWaits` | Assignment 4/xv6-Team-Assignment/proc.c:231-269 | a killed process does not sleep in wait |
| `ProcTable.KillSpares` | Assignment 4/xv6-Team-Assignment/proc.c:427-448 | kill marks a slot that holds no process exactly if the first slot with that pid is unused |
| `ProcTable.AbortSpares` | Assignment 4/xv6-Team-Assignment/proc.c:152-157 | a failed fork leaves an unused slot marked exactly if the embryo had been killed |
| `ProcTable.KilledBeforeBirth` | Assignment 4/xv6-Team-Assignment/proc.c:34-60 | the input: kill(0), then fork, whose child has been killed before it starts |
| `ProcTable.ProcTable.constructor` | Assignment 4/xv6-Team-Assignment/proc.c:80-115 | the table with the first process alone keeps the protocol |
| `ProcTable.ProcTable.Wakeup1` | Assignment 4/xv6-Team-Assignment/proc.c:405-416 | exactly the sleepers on the channel become runnable |
| `ProcTable.ProcTable.Wakeup` | Assignment 4/xv6-Team-Assignment/proc.c:418-425 | the same under the lock, keeping the protocol |
| `ProcTable.ProcTable.AllocProc` | Assignment 4/xv6-Team-Assignment/proc.c:34-77 | the first unused slot with a new pid, not marked as killed unless it was before; none exactly if no slot is unused |
| `ProcTable.ProcTable.AbortFork` | Assignment 4/xv6-Team-Assignment/proc.c:152-157 | the slot is unused again |
| `ProcTable.ProcTable.SetParent` | Assignment 4/xv6-Team-Assignment/proc.c:159-159 | one field of one slot |
| `ProcTable.ProcTable.Publish` | Assignment 4/xv6-Team-Assignment/proc.c:172-180 | the child is runnable under a pid wait has never returned |
| `ProcTable.ProcTable.Exit` | Assignment 4/xv6-Team-Assignment/proc.c:186-226 | the loop adopts every child, wakes parent and init where due, and leaves one zombie, keeping the protocol |
| `ProcTable.ProcTable.WaitPass` | Assignment 4/xv6-Team-Assignment/proc.c:228-269 | reaps an exited child exactly if there is one, returns its pid for the first time and leaves the slot without pid, parent and mark; gives up exactly without children or when killed; sleeps otherwise |
| `ProcTable.ProcTable.Sleep` | Assignment 4/xv6-Team-Assignment/proc.c:368-403 | one process sleeps on one channel |
| `ProcTable.ProcTable.Schedule` | Assignment 4/xv6-Team-Assignment/proc.c:279-310 | one runnable process runs |
| `ProcTable.ProcTable.Yield` | Assignment 4/xv6-Team-Assignment/proc.c:337-345 | the running process is runnable |
| `ProcTable.ProcTable.Kill` | Assignment 4/xv6-Team-Assignment/proc.c:427-448 | the first slot with the pid is marked as killed and made runnable if asleep, and nothing else changes; -1 exactly if there is none, and for every pid wait has returned |
| `Pipe.Tests` | Assignment 4/xv6-Team-Assignment/pipe.c:85-114 | the full and empty tests are about the bytes held, however often the counters have wrapped |
| `Pipe.SlotOf` | Assignment 4/xv6-Team-Assignment/pipe.c:93-93 | the write slot holds no unread byte: 512 divides 2^32 |
| `Pipe.PutContents` | Assignment 4/xv6-Team-Assignment/pipe.c:93-93 | a stored byte goes behind everything held |
| `Pipe.DropContents` | Assignment 4/xv6-Team-Assignment/pipe.c:116-116 | the byte taken is the oldest one held |
| `Pipe.Pipe.constructor` | Assignment 4/xv6-Team-Assignment/pipe.c:33-36 | a new pipe is empty with both ends open |
| `Pipe.Pipe.WriteSome` | Assignment 4/xv6-Team-Assignment/pipe.c:84-94 | between two sleeps the bytes go in, in order, until all are in or the pipe is full |
| `Pipe.Pipe.ReadSome` | Assignment 4/xv6-Team-Assignment/pipe.c:113-117 | min(n, held) of the oldest bytes come out in order |
| `PipeProtocol.LocksKeep` | Assignment 4/xv6-Team-Assignment/proc.c:370-403 | each lock has the holder the program text says, through sleep's hand-over |
| `PipeProtocol.FifoKeeps` | Assignment 4/xv6-Team-Assignment/pipe.c:78-121 | each step keeps accepted == delivered + held |
| `PipeProtocol.HolderKeeps` | Assignment 4/xv6-Team-Assignment/pipe.c:78-121 | what the lock's holder has tested stays true until it lets go |
| `PipeProtocol.RefsKeep` | Assignment 4/xv6-Team-Assignment/pipe.c:59-75 | an end stays open while a call uses it, and one process closes it |
| `PipeProtocol.FreedKeeps` | Assignment 4/xv6-Team-Assignment/pipe.c:70-74 | the page is freed only when no process is in the pipe code |
| `PipeProtocol.WakeupReaches` | Assignment 4/xv6-Team-Assignment/proc.c:405-425 | wakeup needs ptable.lock and so meets nobody between releasing the pipe's lock and sleeping |
| `PipeProtocol.GivingUp` | Assignment 4/xv6-Team-Assignment/pipe.c:86-88 | pipewrite's early return breaks the promise to readers exactly when one is waiting |
| `PipeProtocol.HeardKeeps` | Assignment 4/xv6-Team-Assignment/pipe.c:59-121 | every other step keeps both promises |
| `PipeProtocol.RunKeeps` | Assignment 4/xv6-Team-Assignment/pipe.c:59-121 | the invariants hold in every state of every run |
| `PipeProtocol.DeliversInOrder` | Assignment 4/xv6-Team-Assignment/pipe.c:78-121 | any number of readers and writers, any wrap-around: the bytes delivered are a prefix of the bytes accepted and the rest, at most 512, is what the ring holds |
| `PipeProtocol.OwnStep` | Assignment 4/xv6-Team-Assignment/pipe.c:78-121 | a step of a reader adds to its buffer what it takes out of the pipe, a step of a writer puts in the bytes its cursor passes, and no other step touches the call |
| `PipeProtocol.ReaderGets` | Assignment 4/xv6-Team-Assignment/pipe.c:100-121 | over every run: what a reader has in its buffer is exactly what its own steps took out of the pipe, in order |
| `PipeProtocol.WriterPuts` | Assignment 4/xv6-Team-Assignment/pipe.c:78-98 | over every run: what a writer's own steps have put in is its buffer up to its cursor, in order |
| `PipeProtocol.CopyRun` | Assignment 4/xv6-Team-Assignment/pipe.c:112-117 | while a reader copies it alone changes the pipe, oldest byte first |
| `PipeProtocol.ReadDelivers` | Assignment 4/xv6-Team-Assignment/pipe.c:100-121 | over every run: a read gets the oldest bytes held, as many as it wants or all there are, one contiguous piece of what was accepted; nothing only if no writer is left |
| `PipeProtocol.WriteCompletes` | Assignment 4/xv6-Team-Assignment/pipe.c:78-98 | over every run: pipewrite reaches its last wakeup only with its whole buffer put in |
| `PipeProtocol.WriterSleepsForCause` | Assignment 4/xv6-Team-Assignment/pipe.c:78-98 | a writer asleep with the pipe's lock free means the pipe is full and its read end open |
| `PipeProtocol.ReadersHeardIff` | Assignment 4/xv6-Team-Assignment/pipe.c:86-88 | over every run: no wakeup for readers is lost if and only if no step is an early return of pipewrite while a reader waits |
| `PipeProtocol.UnkilledNeverAbandon` | Assignment 4/xv6-Team-Assignment/pipe.c:86-88 | while nobody has been killed no step is one |
| `PipeProtocol.ReaderSleepsForCause` | Assignment 4/xv6-Team-Assignment/pipe.c:100-121 | a reader asleep with the pipe's lock free, and no early return of pipewrite behind it that left a reader waiting, means the pipe is empty and its write end open |
| `PipeProtocol.UnkilledReaderSleepsForCause` | Assignment 4/xv6-Team-Assignment/pipe.c:100-121 | with no process killed, a reader asleep with the pipe's lock free means the pipe is empty and its write end open |
| `PipeProtocol.FreedOnce` | Assignment 4/xv6-Team-Assignment/pipe.c:70-74 | once freed, the pipe is used by no one and never freed again |
| `PipeProtocol.ClosedIsFreed` | Assignment 4/xv6-Team-Assignment/pipe.c:59-75 | over every run: with both ends closed and nobody in the pipe code the page has been freed |
| `PipeProtocol.NeverSleepsAgain` | Assignment 4/xv6-Team-Assignment/pipe.c:78-121 | over every run: a killed process that is not on its way to sleep never sleeps on the pipe again |
| `PipeProtocol.KillDooms` | Assignment 4/xv6-Team-Assignment/proc.c:427-448 | kill makes that so exactly if its victim is not between finding reason to sleep and falling asleep |
| `PipeProtocol.KilledWriterLosesWakeup` | Assignment 4/xv6-Team-Assignment/pipe.c:86-88 | without the condition on killed processes the promise to readers is false: a run that leaves a reader asleep on a full pipe |
| `SleepLock.OwnedKeeps` | Assignment 4/xv6-Team-Assignment/sleeplock.c:22-42 | lock flag, owner and spin locks agree after each step |
| `SleepLock.WakeupReaches` | Assignment 4/xv6-Team-Assignment/sleeplock.c:34-42 | the wakeup of releasesleep reaches every waiter |
| `SleepLock.InvKeeps` | Assignment 4/xv6-Team-Assignment/sleeplock.c:22-42 | each step keeps ownership and the promise to sleepers |
| `SleepLock.RunKeeps` | Assignment 4/xv6-Team-Assignment/sleeplock.c:22-42 | both hold in every state of every run |
| `SleepLock.MutualExclusion` | Assignment 4/xv6-Team-Assignment/sleeplock.c:22-42 | at most one process has the lock, and it is the recorded one |
| `SleepLock.SleeperWaitsForOwner` | Assignment 4/xv6-Team-Assignment/sleeplock.c:22-42 | a process asleep with lk->lk free waits for another one that has the lock and has yet to release it |
| `ShellSyntax.GetToken` | Assignment 4/xv6-Team-Assignment/sh.c:265-308 | a token lies within the line, and every token but the end moves the cursor on |
| `ShellSyntax.Redirs` | Assignment 4/xv6-Team-Assignment/sh.c:374-397 | redirections move the cursor forward within the line |
| `ShellSyntax.Args` | Assignment 4/xv6-Team-Assignment/sh.c:429-445 | so does the argument loop |
| `ShellSyntax.ParseExec` | Assignment 4/xv6-Team-Assignment/sh.c:415-446 | terminates, remaining input being the measure, with the cursor forward within the line |
| `ShellSyntax.ParseBlock` | Assignment 4/xv6-Team-Assignment/sh.c:399-413 | the same, through the cycle back to parseline |
| `ShellSyntax.ParsePipe` | Assignment 4/xv6-Team-Assignment/sh.c:361-372 | the same |
| `ShellSyntax.ParseLine` | Assignment 4/xv6-Team-Assignment/sh.c:344-359 | the same |
| `ShellGrammar.WordCharacters` | Assignment 4/xv6-Team-Assignment/sh.c:262-263 | which characters a word is made of, one by one |
| `ShellGrammar.Lex` | Assignment 4/xv6-Team-Assignment/sh.c:265-308 | a token's kind follows from its text, and exactly the words have kind a |
| `ShellGrammar.PeekIs` | Assignment 4/xv6-Team-Assignment/sh.c:310-320 | peek looks at the first character of the next token |
| `ShellGrammar.RedirsDerive` | Assignment 4/xv6-Team-Assignment/sh.c:374-397 | the tokens parseredirs consumes are arrows and words, and what each redirection opens follows from its arrow: < is mode 0 and descriptor 0, > and >> are mode 0x201 and descriptor 1 |
| `ShellGrammar.ArgsDerive` | Assignment 4/xv6-Team-Assignment/sh.c:429-445 | the tokens of the argument loop are words and redirections in any order; the words become the arguments and the redirections wrap them, both in order |
| `ShellGrammar.ExecDerives` | Assignment 4/xv6-Team-Assignment/sh.c:415-446 | the tokens parseexec consumes are a sentence of the grammar for its tree |
| `ShellGrammar.BlockDerives` | Assignment 4/xv6-Team-Assignment/sh.c:399-413 | so are those of parseblock, both parentheses included |
| `ShellGrammar.PipeDerives` | Assignment 4/xv6-Team-Assignment/sh.c:361-372 | so are those of parsepipe |
| `ShellGrammar.BacksDerive` | Assignment 4/xv6-Team-Assignment/sh.c:350-353 | so are those of the loop over & |
| `ShellGrammar.LineDerives` | Assignment 4/xv6-Team-Assignment/sh.c:344-359 | so are those of parseline |
| `ShellExact.RedirsAccept` | Assignment 4/xv6-Team-Assignment/sh.c:374-397 | every sequence of arrows and words is accepted as these redirections |
| `ShellExact.ArgsAccept` | Assignment 4/xv6-Team-Assignment/sh.c:429-445 | every sequence of words and redirections with fewer than ten words is accepted |
| `ShellExact.ExecAccept` | Assignment 4/xv6-Team-Assignment/sh.c:415-446 | parseexec accepts every sentence at its level with its tree, up to a token that cannot continue it |
| `ShellExact.BlockAccept` | Assignment 4/xv6-Team-Assignment/sh.c:399-413 | so does parseblock |
| `ShellExact.PipeAccept` | Assignment 4/xv6-Team-Assignment/sh.c:361-372 | so does parsepipe |
| `ShellExact.BackAccept` | Assignment 4/xv6-Team-Assignment/sh.c:350-353 | so does the loop over & |
| `ShellExact.LineAccept` | Assignment 4/xv6-Team-Assignment/sh.c:344-359 | so does parseline |
| `ShellExact.ParsesExactly` | Assignment 4/xv6-Team-Assignment/sh.c:327-446 | a line is accepted with tree t if and only if its tokens are a sentence of the grammar for t |
| `ShellExact.AcceptsSentences` | Assignment 4/xv6-Team-Assignment/sh.c:327-446 | so exactly the sentences are accepted |
| `ShellExact.OneTree` | Assignment 4/xv6-Team-Assignment/sh.c:327-446 | and the tokens of a line have at most one tree |
| `ShellRoundTrip.LexOne` | Assignment 4/xv6-Team-Assignment/sh.c:265-308 | gettoken takes a token that stands in the line whole, and skips the blanks behind it |
| `ShellRoundTrip.LaidTokens` | Assignment 4/xv6-Team-Assignment/sh.c:265-308 | tokens laid out with any blanks, none where they cannot run together, are lexed to themselves |
| `ShellRoundTrip.TokensLaid` | Assignment 4/xv6-Team-Assignment/sh.c:265-308 | the same with blanks in front |
| `ShellRoundTrip.ExecMore` | Assignment 4/xv6-Team-Assignment/sh.c:374-397 | one more redirection at the end wraps the command built so far |
| `ShellRoundTrip.PlainDerives` | Assignment 4/xv6-Team-Assignment/sh.c:344-446 | a tree printed with parentheses only where needed is a sentence for it: / and ; nest to the right, & binds looser than / |
| `ShellRoundTrip.RoundTrip` | Assignment 4/xv6-Team-Assignment/sh.c:327-446 | every command tree, printed with > or >> for output and laid out with any blanks, is what the line parses to |
| `ShellRoundTrip.RenderBack` | Assignment 4/xv6-Team-Assignment/sh.c:327-446 | in particular with one blank behind every token |
| `ShellWords.TokenWhole` | Assignment 4/xv6-Team-Assignment/sh.c:295-299 | a word token is a maximal run of word characters |
| `ShellWords.RedirsSound` | Assignment 4/xv6-Team-Assignment/sh.c:374-397 | every redirection has a whole word for a file |
| `ShellWords.ArgsSound` | Assignment 4/xv6-Team-Assignment/sh.c:429-445 | argv never overflows and every argument is a whole word |
| `ShellWords.LineSound` | Assignment 4/xv6-Team-Assignment/sh.c:344-359 | every tree parseline builds is of that kind |
| `ShellWords.AcceptedSound` | Assignment 4/xv6-Team-Assignment/sh.c:327-342 | so is everything parsecmd accepts |
| `ShellWords.Reparse` | Assignment 4/xv6-Team-Assignment/sh.c:327-446 | for every accepted line, printing its tree and parsing again gives the same tree |
| `ShellParser.EndsOutside` | Assignment 4/xv6-Team-Assignment/sh.c:448-493 | no position nulterminate overwrites lies inside a word |
| `ShellParser.WordsExact` | Assignment 4/xv6-Team-Assignment/sh.c:448-493 | after terminating all words in place each one reads as exactly the token it was |
| `ShellParser.NulTerminate` | Assignment 4/xv6-Team-Assignment/sh.c:448-493 | exactly the end positions of the tree's words become NUL |
| `ShellParser.TerminateArgs` | Assignment 4/xv6-Team-Assignment/sh.c:463-467 | the loop over argv does so for the arguments |
| `ShellParser.Parser.GetToken` | Assignment 4/xv6-Team-Assignment/sh.c:265-308 | the loops compute the token of the grammar |
| `ShellParser.Parser.Peek` | Assignment 4/xv6-Team-Assignment/sh.c:310-320 | the loop computes the look-ahead of the grammar |
| `ShellParser.Parser.ParseRedirs` | Assignment 4/xv6-Team-Assignment/sh.c:374-397 | the loop wraps the command in the redirections of the grammar, or dies with its error |
| `ShellParser.Parser.ParseArgs` | Assignment 4/xv6-Team-Assignment/sh.c:429-445 | the loop builds the grammar's tree although arguments are added to a node already wrapped |
| `ShellParser.Parser.ParseExec` | Assignment 4/xv6-Team-Assignment/sh.c:415-446 | tree, cursor and error are the grammar's |
| `ShellParser.Parser.ParseBlock` | Assignment 4/xv6-Team-Assignment/sh.c:399-413 | tree, cursor and error are the grammar's |
| `ShellParser.Parser.ParsePipe` | Assignment 4/xv6-Team-Assignment/sh.c:361-372 | tree, cursor and error are the grammar's |
| `ShellParser.Parser.ParseBacks` | Assignment 4/xv6-Team-Assignment/sh.c:350-353 | the loop over & wraps as the grammar says |
| `ShellParser.Parser.ParseLine` | Assignment 4/xv6-Team-Assignment/sh.c:344-359 | tree, cursor and error are the grammar's |
| `ShellParser.ParseCmd` | Assignment 4/xv6-Team-Assignment/sh.c:327-342 | fails exactly if the tokens are no sentence of the grammar, with parsecmd's message and the buffer untouched; otherwise gives the sentence's tree, and every argument and file name in the buffer reads as its token |
| `Grep.CompileShow` | Assignment 4/xv6-Team-Assignment/grep.c:84-96 | an expression written for a list of items and an optional `$` is read as these, for every list that can be written |
| `Grep.ShowCompile` | Assignment 4/xv6-Team-Assignment/grep.c:84-96 | every expression is written that way, so the reading is the inverse of the writing |
| `Grep.WordMatches` | Assignment 4/xv6-Team-Assignment/grep.c:72-96 | a plain word is found exactly where it occurs, with `^` exactly at the start, with `$` exactly at the end, with both if it is the whole text |
| `Grep.GapMatches` | Assignment 4/xv6-Team-Assignment/grep.c:84-106 | u, c* and v are found exactly if u and v stand in the text with nothing but c between them, or with anything if c is `.` |
| `Grep.EmptyMatches` | Assignment 4/xv6-Team-Assignment/grep.c:87-92 | an exhausted pattern matches here, at the end only if `$` asks for it |
| `Grep.OneMatches` | Assignment 4/xv6-Team-Assignment/grep.c:93-94 | a single character or `.` consumes one fitting character |
| `Grep.StarMatches` | Assignment 4/xv6-Team-Assignment/grep.c:98-106 | `c*` stands for any number of fitting characters |
| `Grep.MatchHere` | Assignment 4/xv6-Team-Assignment/grep.c:84-96 | true exactly if some prefix of the text from here belongs to the pattern; terminates on all inputs |
| `Grep.MatchStar` | Assignment 4/xv6-Team-Assignment/grep.c:98-106 | true exactly if some run of fitting characters is followed by a match |
| `Grep.Match` | Assignment 4/xv6-Team-Assignment/grep.c:72-82 | true exactly if some substring belongs to the pattern's denotation, one that starts the text when `^` leads |

## Left out

- System calls (sysfile.c, sysproc.c) and the file table: the log layer takes matched begin_op and end_op as given, and content properties are stated on readi and writei rather than on filewrite.
- Crash atomicity of file data and directory entries: writei bypasses the log.
- Concurrency inside inode operations: iput drops icache.lock while freeing and ilock does not look at I_BUSY; each inode operation is one step here, and reference counts of inodes are a parameter of iput.
- Device drivers: what readi and writei get from the device switch table is a parameter.
- Byte layout of inode, bitmap and super blocks on disk: inodes and bitmap are kept as arrays of their own beside the data blocks.
- kalloc.c: the alignment and range test of kfree.
- Concurrency inside vm.c: each call is one step, although kmem.lock covers only single calls of kalloc and kfree; what allocuvm, copyuvm and mappages say about the number of free frames takes for granted that no other process allocates meanwhile.
- Kernel half of an address space: represented by its table pages, not by its mappings; loaduvm, inituvm, clearpteu, uva2ka and copyout are not modelled.
- Processes' own memory, kernel stacks, contexts, open files and current directories in fork, exit and wait; nextpid is unbounded.
- Console, keyboard, timer, interrupts, ide.c ports, boot code, assembly and segment setup.
- grep's read loop, the shell's runcmd and getcmd, the other user programs, mkfs, and the test programs.
- PageTable.Vm.SetupKvm: the kernel's mappings are table pages, without their entries.
- Heap.Allocator.Malloc: addresses count header-sized units, requests for which sbrk would get a negative count are left out, and sbrk's answer is a parameter that lies beyond all memory granted before.
- FileSystem.FileSystem.Writei: on a full disk the model stops like the source's panic and states nothing about the half-finished write.
- Directory.DirLink: the same.
- Path.NameX: takes for granted that the numbers in directory entries are numbers of inodes, and does not model the reference counts taken and dropped on the way.
- BufferCache.Cache.BGet: device 0, which all unused buffers carry, is outside the one-buffer-per-block promise; reading is modelled for the disk, device 1.
- LogProtocol.LogWriteKeeps: needs a header within its array and the log, which the code does not ensure (LogProtocol.OverrunIff gives the exact condition).
- LogProtocol.RunKeeps: the same, for the run so far.
- LogProtocol.CrashSafety: the same; it fails of the run that LogProtocol.OverrunDamages gives.
- LogProtocol.HeaderListsOnce: the same.
- What an overrun header does beyond write_log's copies: past its array log_write would overwrite other kernel memory, and the later block writes of such a commit are not steps of the model.
- Log.Log.LogWrite: the same; it stops where the code would write past the array.
- Log.Log.Commit: needs a header that fits the log.
- Log.Log.FinishEndOp: the same; its wakeup is in LogWait.
- Log.Log.BeginOp: one pass of the wait loop; its sleeping and waking is LogWait.
- Log.Log.EndOp: its wakeup is in LogWait.
- FileSystem.FileSystem.Iput: the reference count is a parameter and the "iput busy" panic is absent.
- FileSystem.FileSystem.Ialloc: the reference iget takes is not modelled.
- Directory.DirLookup: the same.
- BufferCache.Cache.Lock: waiting for a held lock is SleepLock.
- BufferCache.Cache.Unlock: its wakeup is in SleepLock.
- BufferCache.Cache.LogWrite: the header's part of log_write is in Log.
- ProcTable.ProcTable.AllocProc: kernel stack and context are left out.
- ProcTable.ProcTable.WaitPass: the freeing of the child's stack and page directory is left out (freevm itself is modelled).
- PipeProtocol.UnkilledReaderSleepsForCause: assumes that a call in progress keeps its end of the pipe open, which the reference counts of the file table ensure.
- ShellParser.Parser.ParseArgs: the exec node inside its redirections is updated by rebuilding the tree, not through a pointer; malloc failure is not modelled.
- Liveness: that a sleeping process is woken eventually, or that a runnable one runs.
