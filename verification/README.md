# Nachos and its threads, modelled and proved in Dafny

This project models the hard core of the repository: the Nachos file system, its thread kernel and simulated
machine, its containers, and the Pthreads pipeline. `dafny verify
dfyconfig.toml` checks all of it.

**The file system** (`Bits`, `Bitmap`, `SectorDisk`, `FileHeader`, `OpenFile`, `Directory`,
`PersistentBitmap`, `FileSystem` mirror the source; `FsModel`, `FsInvariant`, `FsImage`, `FsRuns`,
`FlatFiles` state what it means). A disk of 1024 sectors of 128 bytes holds i-nodes with direct sector
tables, a flat directory and a bitmap of free sectors; the last two are themselves files on that disk.
`FsModel.Fs` is the state in the abstract and `FsImage.Rep` says that a disk image holds it; an image holds
one state at most. `FsModel.Fs.Inv` is the ownership invariant of the whole disk: the bitmap marks exactly
the sectors that something owns, nothing is owned twice, no two names agree on their first nine characters.
The classes carry out every operation on sectors and bytes, and are proved against the abstract operations.
Two theorems stand at the end: every state of every run keeps the invariant (`FsRuns.EveryStateGood`), and
every run is, seen by its users, a run of flat byte strings under names (`FsRuns.EveryRunIsFlat`). A result
on the way is that this disk can never run out of sectors: ten files of the largest size leave room
(`FsRuns.SpaceToSpare`).

**The kernel** (`Kernel`, `KernelRuns`, `Levels`, `Processor`, `Locks`, `SynchList`, `SynchListRuns`, `SynchDisk`, `Interrupts`, `DiskTiming`). Code between interrupts
going off and coming back on is one step; any thread may be next after it. `Kernel` puts threads, scheduler
and semaphores together and keeps the traps of the source: a thread that idles inside `Sleep` is still the
current one while it is blocked, or even ready, so a switch to itself is possible. `Levels` adds the
interrupt level, and proves that it is each thread's own (`Levels.LevelThrough`). `Processor`
carries the same steps out in place, with the ASSERTs of the source. `Locks` has the windows
where the lock is taken or not yet free while `lockHolder` is NULL. `SynchList` follows `Append` and
`RemoveFront` through the lock's semaphore and its queue, the condition, and the semaphore of each waiting
thread; `SynchListRuns.CanDeliver` shows that what is in the list can always be had. `Interrupts` and
`DiskTiming` are the simulated clock and disk.

**The machine** (`Multiply`, `Unaligned`, `Machine`, `MachinePrograms`). `Mult` with its carries, early break and negation by
halves; LWL, LWR, SWL and SWR with the delayed load; translation through page table or TLB; and
what the pairs of instructions do on the machine, across pages and interrupts. Words are
numbers below 2^32, `&`, `|`, `<<`, `>>` are defined on them bit by bit or as C defines them, and `>>` on
an `int` copies the sign. Negating the smallest `int` wraps to itself.

**Containers and pipeline** (`LinkedList`, `HashTable`, `TsQueue`, `Pipeline`). Lists are linked nodes
relinked in place; the hash table refines a finite map; the ring buffer refines a bounded queue, and its
two condition variables have the semantics of `pthread_cond_wait` and `pthread_cond_signal` in
POSIX.1-2017 XSH, spurious wakeups included. A result about the pipeline is negative: no consumer exists
until the worker queue has held more than 160 items, so an input of 1 to 160 lines never finishes;
with more, every state of every run can be continued to the end. Both directions are proved.

Reading the table: a C object whose fields change is a class with those fields, and its methods' contracts
give the new state; protocols among threads are state machines, in which `Enabled` and `Next` are the code
and `Inv` is what every step keeps. C `int`s on disk and in `struct`s are laid out in bytes explicitly, least
significant first.

What the code asks of its callers without checking it is a precondition here: file sizes from 0 to
`MaxFileSize`, since `Allocate` never compares with the 30 direct pointers; positions from 0 on, and position plus count
below 2^31 unless the request is empty, since the sum overflows an `int` before it is clipped; no use of
an open file after its removal; a ring buffer with at least one place; `Release` only by the thread that
acquired the lock.

Where the code and its comments disagree the model follows the code: a translation entry with its `valid`
bit set is used, although `machine/translate.h` (line 35) says that it is ignored.

## Model

| member | source | states |
|---|---|---|
| `Bits.SetBit` | NachOS-4.0_MP1/code/lib/bitmap.cc:54-60 | or-ing `1 << b` into an unsigned word sets bit `b` and changes no other bit |
| `Bits.ClearBit` | NachOS-4.0_MP1/code/lib/bitmap.cc:69-75 | `map[w] &= ~(1 << b)` clears bit `b` and changes no other bit |
| `Bits.TestMask` | NachOS-4.0_MP1/code/lib/bitmap.cc:84-92 | `map[w] & (1 << b)` is non-zero exactly when bit `b` is set |
| `Bitmaps.FoundIffClear` | NachOS-4.0_MP1/code/lib/bitmap.cc:103-128 | `FindAndSet` finds a bit exactly when `NumClear` is positive |
| `Bitmaps.Bitmap.constructor` | NachOS-4.0_MP1/code/lib/bitmap.cc:22-36 | all bits are clear in a new bitmap of any positive size |
| `Bitmaps.Bitmap.Mark` | NachOS-4.0_MP1/code/lib/bitmap.cc:54-60 | sets exactly that bit of the abstract bit sequence |
| `Bitmaps.Bitmap.Clear` | NachOS-4.0_MP1/code/lib/bitmap.cc:69-75 | clears exactly that bit |
| `Bitmaps.Bitmap.Test` | NachOS-4.0_MP1/code/lib/bitmap.cc:84-92 | answers the bit, through the word and mask arithmetic |
| `Bitmaps.Bitmap.FindAndSet` | NachOS-4.0_MP1/code/lib/bitmap.cc:103-111 | takes the first clear bit and sets it; -1 and no change when every bit is set |
| `Bitmaps.Bitmap.NumClear` | NachOS-4.0_MP1/code/lib/bitmap.cc:119-128 | counts the clear bits |
| `PersistentBitmaps.WordsRoundTrip` | NachOS-4.0_MP1/code/filesys/pbitmap.cc:60-73 | the words of a bitmap survive the trip through the bytes of a file |
| `PersistentBitmaps.FetchFrom` | NachOS-4.0_MP1/code/filesys/pbitmap.cc:60-62 | after the fetch the bitmap in memory is the one that the file holds |
| `PersistentBitmaps.WriteBack` | NachOS-4.0_MP1/code/filesys/pbitmap.cc:71-73 | the file holds the bitmap in memory, and only the file's own sectors have changed |
| `FileHeaders.HeaderRoundTrip` | NachOS-4.0_MP1/code/filesys/filehdr.cc:79-92 | a header written to its sector and read back is the same header |
| `FileHeaders.HeaderLayout` | NachOS-4.0_MP1/code/filesys/filehdr.h:60-62 | the fields lie in the order declared, four bytes each, least significant first |
| `FileHeaders.FilledCount` | NachOS-4.0_MP1/code/filesys/filehdr.cc:43-56 | as many allocations as there are free sectors succeed, and each uses up one |
| `FileHeaders.FileHeader.Allocate` | NachOS-4.0_MP1/code/filesys/filehdr.cc:43-56 | fails, leaving the bitmap alone, exactly when there are too few clear bits; else takes the first-fit sectors and the header describes the file |
| `FileHeaders.FileHeader.TakeSectors` | NachOS-4.0_MP1/code/filesys/filehdr.cc:49-54 | the allocation loop fills the sector table with the first clear sectors in order |
| `FileHeaders.FileHeader.Deallocate` | NachOS-4.0_MP1/code/filesys/filehdr.cc:65-70 | clears the bits of all data sectors; the ASSERT that each was set holds |
| `FileHeaders.FileHeader.FetchFrom` | NachOS-4.0_MP1/code/filesys/filehdr.cc:79-81 | the header in memory is the one in the sector |
| `FileHeaders.FileHeader.WriteBack` | NachOS-4.0_MP1/code/filesys/filehdr.cc:90-92 | the sector holds the header; no other sector changes |
| `FsModel.TakenAndFilled` | NachOS-4.0_MP1/code/filesys/filehdr.cc:43-56 | first-fit allocation marks exactly the sectors that it hands out, all of them clear before, none twice |
| `OpenFiles.ContentFrame` | NachOS-4.0_MP1/code/filesys/openfile.cc:135-172 | a file none of whose sectors is touched keeps its contents |
| `OpenFiles.EdgesKept` | NachOS-4.0_MP1/code/filesys/openfile.cc:153-164 | the two conditional edge reads leave every old byte around the new ones in the buffer, the single-sector case included |
| `OpenFiles.ScatterSplices` | NachOS-4.0_MP1/code/filesys/openfile.cc:135-172 | writing whole sectors back is splicing the new bytes into the flat byte string |
| `OpenFiles.ReadBack` | NachOS-4.0_MP1/code/filesys/openfile.cc:108-172 | a read after a write gives what was written there and what was there before elsewhere |
| `OpenFiles.ClippedRight` | NachOS-4.0_MP1/code/filesys/openfile.cc:113-118 | the code clips a request right if and only if it is empty or its end does not overflow an `int` |
| `OpenFiles.ClippedWrong` | NachOS-4.0_MP1/code/filesys/openfile.cc:113-118 | a request that overflows: at position 1 of 100 bytes all of 2^31 - 1 bytes are taken where 99 are left |
| `OpenFiles.OpenFile.ReadAt` | NachOS-4.0_MP1/code/filesys/openfile.cc:108-133 | for every position from 0 on and every count whose end is an `int`, copies exactly the clipped range of the file and answers its length |
| `OpenFiles.OpenFile.WriteAt` | NachOS-4.0_MP1/code/filesys/openfile.cc:135-172 | under the same condition, replaces exactly the clipped range of the file's byte string and touches no sector of anything else |
| `OpenFiles.OpenFile.Prepare` | NachOS-4.0_MP1/code/filesys/openfile.cc:151-164 | the buffer to be written holds the new bytes with the old ones around them |
| `OpenFiles.OpenFile.Seek` | NachOS-4.0_MP1/code/filesys/openfile.cc:53-55 | moves the seek position, to any `int` |
| `OpenFiles.OpenFile.Read` | NachOS-4.0_MP1/code/filesys/openfile.cc:70-74 | reads on from the seek position and moves it past what was read |
| `OpenFiles.OpenFile.Write` | NachOS-4.0_MP1/code/filesys/openfile.cc:76-80 | writes on from the seek position and moves it past what was written |
| `Directories.SameNameIffSameCopy` | NachOS-4.0_MP1/code/filesys/directory.cc:84-131 | `strncmp` finds two names equal exactly when `strncpy` stores the same nine characters for them |
| `Directories.StoredKey` | NachOS-4.0_MP1/code/filesys/directory.cc:119-131 | a stored name is found again under the name it was stored from |
| `Directories.Directory.FetchFrom` | NachOS-4.0_MP1/code/filesys/directory.cc:61-63 | the table in memory is the one in the file, entry by entry |
| `Directories.Directory.WriteBack` | NachOS-4.0_MP1/code/filesys/directory.cc:72-74 | the file holds the table, and only the file's own sectors have changed |
| `Directories.Directory.FindIndex` | NachOS-4.0_MP1/code/filesys/directory.cc:84-89 | the first entry in use whose name agrees on nine characters; -1 if there is none |
| `Directories.Directory.Find` | NachOS-4.0_MP1/code/filesys/directory.cc:100-106 | its header sector, or -1 |
| `Directories.Directory.Add` | NachOS-4.0_MP1/code/filesys/directory.cc:119-131 | fails exactly when the name is there or no entry is free; else fills the first free entry and no other |
| `Directories.Directory.Remove` | NachOS-4.0_MP1/code/filesys/directory.cc:141-148 | frees the entry of the name and changes nothing else |
| `FsInvariant.CreateOutcome` | NachOS-4.0_MP1/code/filesys/filesys.cc:174-212 | `Create` succeeds exactly when the name is new, an entry is free and there are 1 + ceil(size/128) free sectors; it uses exactly these, and changes nothing when it fails |
| `FsInvariant.CreateKeepsInv` | NachOS-4.0_MP1/code/filesys/filesys.cc:174-212 | `Create` keeps the ownership invariant |
| `FsInvariant.RemoveOutcome` | NachOS-4.0_MP1/code/filesys/filesys.cc:253-281 | `Remove` frees exactly the header and data sectors of the named file, or changes nothing when there is none |
| `FsInvariant.RemoveKeepsInv` | NachOS-4.0_MP1/code/filesys/filesys.cc:253-281 | `Remove` keeps the ownership invariant |
| `FsInvariant.RemoveUndoesCreate` | NachOS-4.0_MP1/code/filesys/filesys.cc:174-281 | `Create` followed by `Remove` restores the bitmap and the directory exactly |
| `FsInvariant.AllocateRun` | NachOS-4.0_MP1/code/filesys/filesys.cc:92-102 | on a fresh disk the two system files get the first sectors in order, and the ASSERTs on their allocation hold |
| `FsInvariant.FormattedInv` | NachOS-4.0_MP1/code/filesys/filesys.cc:82-143 | the formatted state satisfies the ownership invariant |
| `FsImage.RepUnique` | NachOS-4.0_MP1/code/filesys/filesys.cc:82-143 | a disk image determines the state that it holds: header, bitmap and directory leave nothing open |
| `FsImage.FileMarked` | NachOS-4.0_MP1/code/filesys/filesys.cc:266-272 | every sector of a file in the directory is marked, so `Deallocate` never meets a clear bit |
| `FsImage.Committed` | NachOS-4.0_MP1/code/filesys/filesys.cc:202-204 | the three writes of `Create` leave the new state on the disk and every other file's bytes as they were |
| `FsImage.Removed` | NachOS-4.0_MP1/code/filesys/filesys.cc:275-276 | the two writes of `Remove` leave the state without the file on the disk and every other file's bytes as they were |
| `FsImage.WriteKeepsRep` | NachOS-4.0_MP1/code/filesys/openfile.cc:135-172 | writing to one file leaves headers, bitmap, directory and all other files as they were |
| `FsImage.FormattedRep` | NachOS-4.0_MP1/code/filesys/filesys.cc:113-127 | what the format writes is the empty file system, stored in its own files |
| `FileSystems.FileSystem.Format` | NachOS-4.0_MP1/code/filesys/filesys.cc:82-143 | whatever was on the disk, it holds a valid empty file system afterwards |
| `FileSystems.FileSystem.AllocateHeaders` | NachOS-4.0_MP1/code/filesys/filesys.cc:92-102 | both system files are allocated, one sector and two |
| `FileSystems.FileSystem.Mount` | NachOS-4.0_MP1/code/filesys/filesys.cc:136-142 | without formatting, the two system files of a disk are opened |
| `FileSystems.FileSystem.Create` | NachOS-4.0_MP1/code/filesys/filesys.cc:174-212 | on the disk, `Create` is the abstract operation: all or nothing, with every other file's bytes kept |
| `FileSystems.FileSystem.Open` | NachOS-4.0_MP1/code/filesys/filesys.cc:225-237 | opens the file of that name, or answers NULL when there is none |
| `FileSystems.FileSystem.Remove` | NachOS-4.0_MP1/code/filesys/filesys.cc:253-281 | on the disk, `Remove` is the abstract operation, with every other file's bytes kept |
| `FileSystems.FileSystem.ReleaseSectors` | NachOS-4.0_MP1/code/filesys/filesys.cc:266-272 | the free map without the header and data sectors of the file |
| `FsRuns.SpaceToSpare` | NachOS-4.0_MP1/code/filesys/filesys.cc:174-212 | while a directory entry is free the disk has room for a file of any legal size |
| `FsRuns.CreateSucceeds` | NachOS-4.0_MP1/code/filesys/filesys.cc:174-212 | on this disk `Create` fails only for a name that is taken or a directory that is full |
| `FsRuns.StaysGood` | NachOS-4.0_MP1/code/filesys/filesys.cc:82-281 | every operation keeps the invariant, its representation on the disk, and the balance of free and owned sectors |
| `FsRuns.StepIsFlat` | NachOS-4.0_MP1/code/filesys/filesys.cc:82-281 | every operation, each write with its end an `int`, does to the map from names to byte strings what it should |
| `FsRuns.EveryStateGood` | NachOS-4.0_MP1/code/filesys/filesys.cc:82-281 | over every run of format, `Create`, `Remove` and `WriteAt`, the end of each write an `int`: the set bits are exactly the owned sectors, no sector has two owners, no two names agree on nine characters |
| `FsRuns.EveryRunIsFlat` | NachOS-4.0_MP1/code/filesys/filesys.cc:82-281 | every such run of the sector file system is a run of flat files that start out empty |
| `FsRuns.CreateFile` | NachOS-4.0_MP1/code/filesys/filesys.cc:174-212 | the method takes the `Create` step of a run |
| `FsRuns.RemoveFile` | NachOS-4.0_MP1/code/filesys/filesys.cc:253-281 | the method takes the `Remove` step of a run |
| `FsRuns.WriteFile` | NachOS-4.0_MP1/code/filesys/openfile.cc:135-172 | a write through an open file, of any count whose end is an `int`, takes the write step of a run and keeps the file system valid |
| `Multiplication.Mult` | NachOS-4.0_MP1/code/machine/mipssim.cc:761-817 | hi and lo are the exact 64-bit product, signed or unsigned, for all operands, the smallest integer included |
| `Multiplication.Accumulate` | NachOS-4.0_MP1/code/machine/mipssim.cc:782-803 | the shift-and-add loop, with its early break and the arithmetic shift of a negative multiplier, computes the unsigned product |
| `Multiplication.Complement` | NachOS-4.0_MP1/code/machine/mipssim.cc:805-813 | negating by halves negates the double word |
| `Multiplication.WorthIsProduct` | NachOS-4.0_MP1/code/machine/mipssim.cc:787-803 | adding shifted multiplicands bit by bit is multiplication |
| `Unaligned.LwlBytes` | NachOS-4.0_MP1/code/machine/mipssim.cc:341-359 | LWL loads the bytes up to the addressed one into the top of the register; the rest stays |
| `Unaligned.LwrBytes` | NachOS-4.0_MP1/code/machine/mipssim.cc:394-414 | LWR loads the bytes from the addressed one on into the bottom of the register; the rest stays |
| `Unaligned.SwlBytes` | NachOS-4.0_MP1/code/machine/mipssim.cc:572-593 | SWL stores the top of the register up to the addressed byte; the rest of the word stays |
| `Unaligned.SwrBytes` | NachOS-4.0_MP1/code/machine/mipssim.cc:631-649 | SWR stores the bottom of the register from the addressed byte on; the rest of the word stays |
| `Unaligned.LoadBothHalves` | NachOS-4.0_MP1/code/machine/mipssim.cc:311-416 | LWL at a+3 and LWR at a, in either order, merge into the word at a, for every alignment |
| `Unaligned.StoreBothHalves` | NachOS-4.0_MP1/code/machine/mipssim.cc:546-661 | SWL at a+3 then SWR at a store the word at a and change no neighbouring byte |
| `Unaligned.LoadHalves` | NachOS-4.0_MP1/code/machine/mipssim.cc:705-710 | once the delayed load lands `rt` holds the whole word, with or without an interrupt's `DelayedLoad(0,0)` between the two instructions; the load pending before has landed in its register, and no other register has changed |
| `Unaligned.Lands` | NachOS-4.0_MP1/code/machine/mipssim.cc:705-710 | the pending load lands whatever load follows, the new one is pending, and no other register changes |
| `Unaligned.AddressIs` | NachOS-4.0_MP1/code/machine/mipssim.cc:311-312 | the address is the sum of base register and offset as 32-bit integers |
| `Unaligned.SameBase` | NachOS-4.0_MP1/code/machine/mipssim.cc:311-416 | both instructions see the same base address if no load is pending on the base register and it is not `rt` |
| `Machines.WhichException` | NachOS-4.0_MP1/code/machine/translate.cc:180-244 | which exception comes when: address error if misaligned or past the page table, page fault if no valid entry serves the page, read-only for a write to a protected one, bus error for a frame outside memory; and an access passes exactly when the entry that serves its page allows it and names a frame, at that frame |
| `Machines.TranslationInPage` | NachOS-4.0_MP1/code/machine/translate.cc:180-244 | an access that passes never crosses a page or leaves memory, so the closing ASSERT holds, and its bytes translate one by one |
| `Machines.TlbAgrees` | NachOS-4.0_MP1/code/machine/translate.cc:202-223 | a TLB whose valid entries agree with the page table gives the same address or exception, or else a page fault |
| `Machines.SamePlace` | NachOS-4.0_MP1/code/machine/translate.cc:180-244 | where the page of one address shares its frame with no other page, two virtual addresses with the same physical one are the same |
| `Machines.WriteIsLocal` | NachOS-4.0_MP1/code/machine/translate.cc:133-162 | a write puts its bytes where it says and, if its page shares its frame with no other page, changes no other virtual byte; for page tables and TLBs |
| `Machines.SharedFrame` | NachOS-4.0_MP1/code/machine/translate.cc:133-162 | where the page written shares its frame, a byte of the other page changes too |
| `Machines.LocalIff` | NachOS-4.0_MP1/code/machine/translate.cc:133-162 | every write at an address keeps to its place if and only if its page shares its frame with no other page |
| `Machines.VirtualLoad` | NachOS-4.0_MP1/code/machine/mipssim.cc:311-416 | LWL and LWR load the unaligned word from virtual memory even across two pages |
| `Machines.VirtualStore` | NachOS-4.0_MP1/code/machine/mipssim.cc:546-661 | SWL and SWR store it across two pages and change no other virtual byte |
| `Machines.Machine.constructor` | NachOS-4.0_MP1/code/machine/machine.cc:54-74 | registers and memory zero, and the page table given or else a TLB through which no access passes |
| `Machines.Machine.Translate` | NachOS-4.0_MP1/code/machine/translate.cc:180-244 | the exceptions in the source's order, else the address, with the entry marked as used and, by a write, dirty |
| `Machines.Marks` | NachOS-4.0_MP1/code/machine/translate.cc:237-239 | the entry used is marked, and as dirty if it is or has been written through; nothing else in the table changes |
| `Machines.Machine.SearchTlb` | NachOS-4.0_MP1/code/machine/translate.cc:211-222 | the TLB loop finds the first valid entry for the page |
| `Machines.Machine.ReadMem` | NachOS-4.0_MP1/code/machine/translate.cc:84-118 | a signed byte, an unsigned short or a word from the translated address, or the exception raised; either way every access is translated afterwards as before |
| `Machines.Machine.WriteMem` | NachOS-4.0_MP1/code/machine/translate.cc:133-162 | writes the low bytes at the translated address and nothing else, or raises the exception and writes nothing; translation stays the same |
| `Machines.Machine.DelayedLoad` | NachOS-4.0_MP1/code/machine/mipssim.cc:705-710 | the pending load lands, another takes its place, and register 0 stays 0 |
| `Machines.Machine.RaiseException` | NachOS-4.0_MP1/code/machine/machine.cc:97-99 | a trap notes the bad address and lets the pending load land |
| `Machines.Raises` | NachOS-4.0_MP1/code/machine/machine.cc:97-99 | a trap notes the bad address, the pending load lands, and nothing is pending then |
| `Machines.Machine.LoadWordLeft` | NachOS-4.0_MP1/code/machine/mipssim.cc:311-361 | LWL on the machine's registers through translation, or the exception; translation stays the same |
| `Machines.Machine.LoadWordRight` | NachOS-4.0_MP1/code/machine/mipssim.cc:363-416 | LWR likewise |
| `Machines.Machine.StoreWordLeft` | NachOS-4.0_MP1/code/machine/mipssim.cc:546-602 | SWL through a translated read and a translated write, or the exception with memory unchanged; translation stays the same |
| `Machines.Machine.StoreWordRight` | NachOS-4.0_MP1/code/machine/mipssim.cc:605-661 | SWR likewise |
| `MachinePrograms.LoadUnaligned` | NachOS-4.0_MP1/code/machine/mipssim.cc:311-416 | on the machine: LWL at a+3, perhaps an interrupt's `DelayedLoad(0,0)`, LWR at a and the next instruction leave the four virtual bytes from a on in `rt`, across pages too, the load pending before in its register, and no other register changed; the base register must have no load on its way and, with an interrupt, not be `rt` |
| `MachinePrograms.StoreUnaligned` | NachOS-4.0_MP1/code/machine/mipssim.cc:546-661 | on the machine: SWL at a+3 and SWR at a, with or without an interrupt in between, leave the bytes of `rt` in the four virtual bytes from a on and change no other virtual byte; after an exception in SWR those bytes are stored that SWL stores, after one in SWL none; the one or two pages concerned share their frames with no others |
| `MachinePrograms.StoreThenLoad` | NachOS-4.0_MP1/code/machine/mipssim.cc:311-661 | on the machine: the store pair, then the load pair, bring the word from one register to the other for every alignment; it goes through exactly when both words can be written |
| `MachinePrograms.WriteThenRead` | NachOS-4.0_MP1/code/machine/translate.cc:84-162 | `WriteMem` then `ReadMem` at one address give the low bytes back: a word as it was, a half word without its high half, a byte with its sign |
| `HashTables.Inserted` | NachOS-4.0_MP1/code/lib/hash.cc:101-114 | appending to the bucket of the hash adds the item to the map that the table stands for |
| `HashTables.Removed` | NachOS-4.0_MP1/code/lib/hash.cc:193-205 | removing from the bucket takes the key out of the map |
| `HashTables.InItsBucket` | NachOS-4.0_MP1/code/lib/hash.cc:82-86 | each item is in the bucket of its hash modulo the number of buckets, and in no other |
| `HashTables.HashTable.constructor` | NachOS-4.0_MP1/code/lib/hash.cc:29-34 | a new table stands for the empty map |
| `HashTables.HashTable.Find` | NachOS-4.0_MP1/code/lib/hash.cc:155-182 | finds the item of the map, or nothing when the key is not in it |
| `HashTables.HashTable.Insert` | NachOS-4.0_MP1/code/lib/hash.cc:101-114 | adds the item to the map, growing the table first if need be; at most three items per bucket on average |
| `HashTables.HashTable.Remove` | NachOS-4.0_MP1/code/lib/hash.cc:193-205 | answers the item of the key and takes it out of the map |
| `HashTables.HashTable.ReHash` | NachOS-4.0_MP1/code/lib/hash.cc:125-141 | four times the buckets, the same map, every item in the bucket of its hash |
| `HashTables.HashTable.FindNextFullBucket` | NachOS-4.0_MP1/code/lib/hash.cc:229-236 | skips empty buckets only |
| `HashTables.FromOnce` | NachOS-4.0_MP1/code/lib/hash.cc:303-328 | the items in the iterator's order are the items of the map, each once |
| `HashTables.HashIterator.constructor` | NachOS-4.0_MP1/code/lib/hash.cc:303-310 | a new iterator has every bucket still to go |
| `HashTables.HashIterator.Next` | NachOS-4.0_MP1/code/lib/hash.cc:318-328 | moves past exactly one item |
| `HashTables.VisitAll` | NachOS-4.0_MP1/code/lib/hash.cc:303-328 | the loop over an iterator ends, having met every item exactly once |
| `LinkedLists.List.Append` | NachOS-4.0_MP1/code/lib/list.cc:70-83 | the item goes to the end of the sequence that the nodes stand for |
| `LinkedLists.List.Prepend` | NachOS-4.0_MP1/code/lib/list.cc:91-104 | the item goes to the front |
| `LinkedLists.List.RemoveFront` | NachOS-4.0_MP1/code/lib/list.cc:116-132 | takes the first item off |
| `LinkedLists.List.Remove` | NachOS-4.0_MP1/code/lib/list.cc:140-166 | takes the item out, relinking its neighbours; it is in the list no more, so the closing ASSERT holds |
| `LinkedLists.List.IsInList` | NachOS-4.0_MP1/code/lib/list.cc:174-183 | answers whether the item occurs |
| `LinkedLists.List.Insert` | NachOS-4.0_MP1/code/lib/list.cc:215-240 | inserts before the first greater item, for any comparison |
| `LinkedLists.PlaceOf` | NachOS-4.0_MP1/code/lib/list.cc:215-240 | in a sorted list the new item goes behind all its equals and before everything greater; nothing else moves |
| `LinkedLists.InsertKeepsSorted` | NachOS-4.0_MP1/code/lib/list.cc:215-240 | insertion keeps a sorted list sorted |
| `TsQueues.Ring.constructor` | NTHU-OS-Pthreads/ts_queue.hpp:51-63 | a new ring of any positive capacity is empty |
| `TsQueues.Ring.Put` | NTHU-OS-Pthreads/ts_queue.hpp:83-85 | the ring buffer's update appends to the queue that it stands for; the tail stays (head + 1 + size) mod capacity |
| `TsQueues.Ring.Take` | NTHU-OS-Pthreads/ts_queue.hpp:97-100 | the ring buffer's update takes the oldest item |
| `TsQueues.EnqueueKeepsInv` | NTHU-OS-Pthreads/ts_queue.hpp:74-88 | an `enqueue`, fresh or woken, keeps the FIFO and loses no wakeup on either side |
| `TsQueues.DequeueKeepsInv` | NTHU-OS-Pthreads/ts_queue.hpp:90-104 | a `dequeue`, fresh or woken, keeps the FIFO and loses no wakeup on either side |
| `TsQueues.EveryRun` | NTHU-OS-Pthreads/ts_queue.hpp:74-104 | for any threads in any order, spurious wakeups included: FIFO within the bound, waiting takers imply size at most woken takers, waiting putters imply free places at most woken putters |
| `TsQueues.CanDequeue` | NTHU-OS-Pthreads/ts_queue.hpp:90-104 | a thread that calls `dequeue`, or has been woken in it, can go on: it takes the oldest item exactly if there is one, waking one that waits for room, and waits again otherwise |
| `TsQueues.CanEnqueue` | NTHU-OS-Pthreads/ts_queue.hpp:74-88 | the same for `enqueue`: the thread's own item goes in exactly if there is room |
| `TsQueues.StepDoes` | NTHU-OS-Pthreads/ts_queue.hpp:74-104 | nothing else can come of a step, whoever is signalled: one waiting thread of the other side at most is woken, and nothing else changes |
| `TsQueues.MayWake` | NTHU-OS-Pthreads/ts_queue.hpp:77-96 | a waiting thread may wake without a signal |
| `TsQueues.TakerComes` | NTHU-OS-Pthreads/ts_queue.hpp:90-104 | while a taker waits and there is an item, some woken taker has a step, and takes the oldest item with it |
| `TsQueues.PutterComes` | NTHU-OS-Pthreads/ts_queue.hpp:74-88 | while a putter waits and there is room, some woken putter has a step, and puts its item in with it |
| `Pipelines.NextConserves` | NTHU-OS-Pthreads/consumer.hpp:51-69 | every step of every thread keeps each item, with its key and opcode and the right number of transformations |
| `Pipelines.NextKeepsShape` | NTHU-OS-Pthreads/consumer_controller.hpp:74-99 | queues keep their bounds, a consumer is listed or cancelled, never both, and a consumer list that is not empty never becomes empty |
| `Pipelines.ControllerDoes` | NTHU-OS-Pthreads/consumer_controller.hpp:84-98 | above 160 items exactly one consumer is added; below 40 exactly the last one listed, if it is not the only one, is cancelled and taken off; otherwise nothing changes |
| `Pipelines.CancelledStops` | NTHU-OS-Pthreads/consumer.hpp:45-66 | a cancelled consumer stays so, and leaves its loop with its next test of the flag |
| `Pipelines.LastRound` | NTHU-OS-Pthreads/consumer.hpp:51-66 | over every continuation a cancelled consumer takes one more item at most, and only if it was in `dequeue` already |
| `Pipelines.QueuesInOrder` | NTHU-OS-Pthreads/ts_queue.hpp:74-104 | each queue of the pipeline is a FIFO, and what is written stays written |
| `Pipelines.WaitsForTheQueues` | NTHU-OS-Pthreads/ts_queue.hpp:77-96 | the threads wait exactly where the queue of 200, 200 or 4000 places between them makes them wait |
| `Pipelines.WaitsForNothingElse` | NTHU-OS-Pthreads/reader.hpp:45-56 | and nowhere else |
| `Pipelines.EveryRun` | NTHU-OS-Pthreads/producer.hpp:39-55 | conservation over every run of reader, producers, consumers coming and going, and writer |
| `Pipelines.Progress` | NTHU-OS-Pthreads/writer.hpp:61-75 | while there is a consumer and the writer has not reached its count some thread can go on |
| `Pipelines.NeverStuck` | NTHU-OS-Pthreads/consumer_controller.hpp:85-89 | with more lines than the high threshold no run gets stuck |
| `Pipelines.TooFewLines` | NTHU-OS-Pthreads/consumer_controller.hpp:85-89 | with no more lines than the high threshold no consumer is ever started and nothing is ever written; the stuck states are exactly those with every line in the worker queue |
| `Pipelines.LinesGather` | NTHU-OS-Pthreads/consumer_controller.hpp:85-89 | and that is where such a run ends: each move brings it closer |
| `Pipelines.AllWritten` | NTHU-OS-Pthreads/writer.hpp:61-75 | at the end exactly the lines of the source have been written, each transformed twice, in some order |
| `Pipelines.FinishedItem` | NTHU-OS-Pthreads/consumer.hpp:55-58 | what is written for a line has its key, its opcode, and its value after the producers' and then the consumers' transformation for that opcode |
| `Pipelines.CanFinish` | NTHU-OS-Pthreads/writer.hpp:61-75 | with more lines than the high threshold every state of every run has a continuation, of steps each possible in its turn, at whose end the writer has written exactly the transformed lines |
| `Pipelines.CannotFinish` | NTHU-OS-Pthreads/consumer_controller.hpp:85-89 | with fewer, but some, no continuation of any length writes a line |
| `Kernels.NextKeepsInv` | NachOS-4.0_MP1/code/threads/scheduler.cc:55-159 | every step of threads and interrupt handlers keeps thread conservation and the semaphore counts |
| `Kernels.EveryRun` | NachOS-4.0_MP1/code/threads/thread.cc:91-252 | in every run: ready exactly when on the ready list, once; blocked exactly when on one semaphore's queue or finishing; at most the current thread running; for each semaphore value + Ps = initial + Vs, and no lost wakeup |
| `Kernels.GoneForGood` | NachOS-4.0_MP1/code/threads/scheduler.cc:154-159 | a destroyed thread is never run, made ready or destroyed again |
| `Kernels.AssertsHold` | NachOS-4.0_MP1/code/threads/scheduler.cc:99-108 | `toBeDestroyed` is NULL when `Run(_, TRUE)` tests it, and what is destroyed is one finished thread that is not running |
| `Kernels.ReadyInOrder` | NachOS-4.0_MP1/code/threads/scheduler.cc:55-80 | every step keeps the order of the ready list: a switch takes its first thread, and others join at its end |
| `Kernels.QueueInOrder` | NachOS-4.0_MP1/code/threads/synch.cc:74-114 | every step keeps the order of a semaphore's queue: `V` takes its first thread, others join at its end |
| `KernelRuns.RunsInTurn` | NachOS-4.0_MP1/code/threads/scheduler.cc:55-121 | over every run: a thread with i others before it on the ready list is the current one after i + 1 switches |
| `KernelRuns.WokenInTurn` | NachOS-4.0_MP1/code/threads/synch.cc:100-114 | over every run: a thread with i others before it on a semaphore's queue is made ready by the `V` after i that woke sleepers |
| `KernelRuns.CanPass` | NachOS-4.0_MP1/code/threads/synch.cc:74-114 | while a thread sleeps on a semaphore with a value left, steps each possible in its turn lead to a thread past `P` |
| `Kernels.NobodyForgotten` | NachOS-4.0_MP1/code/threads/synch.cc:74-114 | while a thread sleeps on a semaphore with a value left, a woken one is ready to take it, even with others barging in |
| `Levels.NextKeepsInv` | NachOS-4.0_MP1/code/threads/thread.cc:91-252 | interrupts are off from before each switch until the thread switched to goes on, in the loop of `P` and in `Sleep`, and every thread has a saved level to go on at |
| `Levels.OffInSwitch` | NachOS-4.0_MP1/code/threads/scheduler.cc:99-132 | the ASSERTs on the level: off whenever `Sleep` looks for a thread, and at and after every switch |
| `Levels.LevelKept` | NachOS-4.0_MP1/code/threads/synch.cc:74-114 | no step of the kernel changes the level of any thread but the thread's own calls of `SetLevel` |
| `Levels.SetsLevel` | NachOS-4.0_MP1/code/machine/interrupt.cc:123-134 | `SetLevel` sets the level of the thread that calls it, and of no other |
| `Levels.LevelThrough` | NachOS-4.0_MP1/code/threads/thread.cc:200-214 | over every run: whenever a thread goes on it is at the level it was at, through switches, sleeps and other threads' levels, if it has not set another itself |
| `Levels.AtItsOwnLevel` | NachOS-4.0_MP1/code/machine/interrupt.cc:123-134 | over every run a thread goes on at the level that its own last `SetLevel` set |
| `Levels.ForkedOn` | NachOS-4.0_MP1/code/threads/thread.cc:141-146 | a new thread begins with interrupts on |
| `Processors.Processor.constructor` | NachOS-4.0_MP1/code/threads/kernel.cc:100-101 | the first state: the main thread runs, with interrupts off, and the semaphores have their first values |
| `Processors.Processor.SetLevel` | NachOS-4.0_MP1/code/machine/interrupt.cc:120-134 | the level is the one asked for, nothing else changes, and the answer is the one before |
| `Processors.Processor.ReadyToRun` | NachOS-4.0_MP1/code/threads/scheduler.cc:55-61 | marks the thread ready and puts it at the end of the ready list, on which it is not yet |
| `Processors.Processor.FindNextToRun` | NachOS-4.0_MP1/code/threads/scheduler.cc:72-80 | takes the front of the ready list, or answers NULL when it is empty |
| `Processors.Processor.Run` | NachOS-4.0_MP1/code/threads/scheduler.cc:99-121 | with interrupts off, the switch: the next thread is current and running, and a finishing one is noted for destruction |
| `Processors.Processor.Resume` | NachOS-4.0_MP1/code/threads/scheduler.cc:127-136 | after a switch interrupts are off, as the ASSERT says; the noted thread, not the current one, is destroyed, and a thread back in `Yield`, or beginning, gets its own level back |
| `Processors.Processor.Fork` | NachOS-4.0_MP1/code/threads/thread.cc:91-103 | the in-place update is the Fork step, and keeps the invariant |
| `Processors.Processor.Yield` | NachOS-4.0_MP1/code/threads/thread.cc:200-214 | a switch exactly when another thread is ready, with interrupts off and the level saved; else nothing changes, the level included |
| `Processors.Processor.Finish` | NachOS-4.0_MP1/code/threads/thread.cc:167-180 | the thread is blocked for good |
| `Processors.Processor.SleepLoop` | NachOS-4.0_MP1/code/threads/thread.cc:236-252 | interrupts are off, as the ASSERT says; the sleeping thread gives the processor to the first ready thread, itself included, as soon as there is one |
| `Processors.Processor.P` | NachOS-4.0_MP1/code/threads/synch.cc:74-90 | one turn of the loop of `P`: passes exactly when the value is positive, at the level of the call, and sleeps on the queue otherwise, with interrupts off |
| `Processors.Processor.V` | NachOS-4.0_MP1/code/threads/synch.cc:100-114 | adds one to the value and makes the first sleeper ready; interrupts are as before |
| `Locks.MutualExclusion` | NachOS-4.0_MP1/code/threads/synch.cc:173-193 | no two threads are ever between the end of `P` and the `V` of `Release`; a noted holder is that thread, and `Release`'s ASSERT holds |
| `Locks.NextKeepsInv` | NachOS-4.0_MP1/code/threads/synch.cc:173-193 | semaphore value plus threads inside is 1 after every step, in the windows where `lockHolder` is NULL too |
| `Locks.EveryRun` | NachOS-4.0_MP1/code/threads/synch.cc:152-193 | over all runs |
| `SynchLists.LiveKept` | NachOS-4.0_MP1/code/threads/synch.cc:232-269 | a waiter's semaphore is not deleted while the signaller's `V` on it is still running |
| `SynchLists.ComingKept` | NachOS-4.0_MP1/code/threads/synch.cc:74-114 | while threads sleep for a lock that is free, some thread is about to test its value; so after each step |
| `SynchLists.CountedKept` | NachOS-4.0_MP1/code/threads/synchlist.cc:51-76 | each step keeps the list a FIFO and every item covered by a thread on its way while one waits |
| `SynchLists.EveryRun` | NachOS-4.0_MP1/code/threads/synchlist.cc:51-76 | in every interleaving, threads asleep in the lock's own queue included, the removed items are a prefix of the appended ones and no wakeup is lost |
| `SynchLists.AssertsHold` | NachOS-4.0_MP1/code/threads/synch.cc:189-253 | `Wait`, `Signal` and `Release` find the lock held by their caller, and `V` a semaphore that has not been deleted |
| `SynchLists.ItemsCovered` | NachOS-4.0_MP1/code/threads/synchlist.cc:51-76 | with the lock free and a waiter queued the list is no longer than the number of signalled threads that are not back in the lock |
| `SynchListRuns.NobodyForgotten` | NachOS-4.0_MP1/code/threads/synchlist.cc:51-76 | while there are items and a thread wants one, some thread is not asleep and gets on: the one in the lock, one about to enter it while it is free, or one just signalled |
| `SynchListRuns.CanDeliver` | NachOS-4.0_MP1/code/threads/synchlist.cc:51-76 | from every state in which there is an item and a thread wants one, steps each possible in its turn take the first item out |
| `SynchListRuns.StepDrops` | NachOS-4.0_MP1/code/threads/synch.cc:232-269 | each step of a thread that gets on brings a measure of all that is left to do down, though it may signal or wake others |
| `SynchListRuns.LockComes` | NachOS-4.0_MP1/code/threads/synch.cc:173-193 | the same for a thread asleep in the lock's queue |
| `SynchListRuns.OneWokenOnly` | NachOS-4.0_MP1/code/threads/synch.cc:100-114 | not each signalled thread can go on: a run to a state in which two sleep in the lock's queue, and the release that wakes one of them and leaves the other asleep |
| `SynchListRuns.StepsTheLock` | NachOS-4.0_MP1/code/threads/synch.cc:173-193 | every step is a step of the lock of `Locks`, or leaves that lock as it is |
| `SynchDisks.OneAtATime` | NachOS-4.0_MP1/code/filesys/synchdisk.cc:55-86 | `ASSERT(!active)` never fails, the completion semaphore is 0 or 1, and a request returns after exactly its own callback, before which the lock is not released |
| `SynchDisks.NextKeepsInv` | NachOS-4.0_MP1/code/machine/disk.cc:110-154 | `active` holds exactly while one disk interrupt is pending |
| `SynchDisks.EveryRun` | NachOS-4.0_MP1/code/filesys/synchdisk.cc:55-86 | for any number of threads in any order |
| `SynchDisks.NeverLeft` | NachOS-4.0_MP1/code/filesys/synchdisk.cc:84-86 | a thread that waits for the disk either has its interrupt to come or can go on |
| `SynchDisks.CanServe` | NachOS-4.0_MP1/code/filesys/synchdisk.cc:55-86 | from every state a thread can get the lock, make one request and leave after its callback |
| `Interrupts.InsertInOrder` | NachOS-4.0_MP1/code/machine/interrupt.cc:289-297 | interrupts are kept by time, and those of the same time in the order they were scheduled |
| `Interrupts.DueIsFront` | NachOS-4.0_MP1/code/machine/interrupt.cc:321-351 | what is due are the first interrupts of the list, and all of them |
| `Interrupts.Interrupt.Schedule` | NachOS-4.0_MP1/code/machine/interrupt.cc:289-297 | adds one interrupt strictly in the future, so none that is due now |
| `Interrupts.Interrupt.CheckIfDue` | NachOS-4.0_MP1/code/machine/interrupt.cc:311-352 | fires exactly what is due, in order of time with ties first come first served, loses nothing else, leaves nothing overdue, accounts the clock's advance as idle time, and notes a switch exactly if a handler has asked for one |
| `Interrupts.Interrupt.CallBack` | NachOS-4.0_MP1/code/machine/interrupt.cc:346 | a handler adds exactly the interrupts it schedules, and asks for a switch or not |
| `Interrupts.Interrupt.FireAll` | NachOS-4.0_MP1/code/machine/interrupt.cc:342-350 | the `do` loop ends, since handlers only schedule into the future |
| `Interrupts.Interrupt.OneTick` | NachOS-4.0_MP1/code/machine/interrupt.cc:145-172 | advances the clock and the right counter by 10 or 1, fires exactly what is due then, keeps the status, and answers that the thread is to yield exactly if a handler has asked |
| `Interrupts.Interrupt.SetLevel` | NachOS-4.0_MP1/code/machine/interrupt.cc:123-134 | a tick passes exactly when interrupts go from off to on, with its answer |
| `Interrupts.Interrupt.Idle` | NachOS-4.0_MP1/code/machine/interrupt.cc:201-222 | advances to the next interrupt and fires what is due then; halts exactly when none is pending |
| `DiskTiming.Disk.LatencyBounds` | NachOS-4.0_MP1/code/machine/disk.cc:216-233 | every request takes at least 500 ticks and fewer than 32000 |
| `DiskTiming.SeekIs` | NachOS-4.0_MP1/code/machine/disk.cc:167-180 | a seek takes 500 ticks for each track between the two sectors, either way |
| `DiskTiming.Disk.Unbuffered` | NachOS-4.0_MP1/code/machine/disk.cc:167-233 | a request past the track buffer ends when the head has just passed the sector, the first such time that leaves room for the seek |
| `DiskTiming.Disk.FromBuffer` | NachOS-4.0_MP1/code/machine/disk.cc:222-226 | a track-buffer hit is never slower than the other path, and ends after the head has passed the sector since loading began |
| `DiskTiming.Disk.UpdateLast` | NachOS-4.0_MP1/code/machine/disk.cc:241-249 | the track buffer starts afresh exactly at the first sector boundary after the head has arrived on another track, and loads on if it stays on its track; its start is a boundary always |
| `DiskTiming.Disk.Request` | NachOS-4.0_MP1/code/machine/disk.cc:110-144 | over all request sequences loading starts on a boundary and never after the next request; the interrupt is scheduled in the future |
| `DiskTiming.Disk.CallBack` | NachOS-4.0_MP1/code/machine/disk.cc:151-154 | the disk is idle again, and a new request may come |

## Left out

- The `FILESYS_STUB` variants, directory listing and printing, and everything that only prints.
- The host file behind the simulated disk and its magic number; a sector is read and written as a whole.
- The bytes of a file's last sector past its length, which a write leaves undefined: contents are stated up to the length.
- Byte layout of a directory entry: the flag, the sector and the name are at offsets 0, 4 and 8 of 20 bytes; padding bytes are free.
- Update in place of a header's sector table: it is a sequence field, not an array.
- The hash table's bucket array and its lists are sequences; the linked lists are proved on their own, with the same operations.
- OpenFiles.OpenFile.WriteAt: does not say what is overwritten when `position + numBytes` passes 2^31, where the code runs past its buffer.
- OpenFiles.OpenFile.ReadAt: does not say what is read then.
- Crash recovery and concurrent calls of the file system, which `filesys.cc` disclaims.
- HashTables.HashTable.Insert: does not model 32-bit overflow of the bucket count.
- Tick counters are unbounded integers.
- Interrupts.Interrupt.OneTick: does not include the `Yield` that follows when a handler has asked for it; it answers that the caller is to yield.
- Interrupts.Interrupt.CallBack: the handlers of the devices are any code that schedules into the future and may ask for a switch.
- `DelayedLoad(0, 0)` at the head of `CheckIfDue` is modelled with the registers, as the interruption between two instructions.
- Machines.Machine.RaiseException: does not include the exception handler that runs after the registers are settled.
- The rest of the instruction set, instruction fetch and the program counters; SRL and SRLV shift a signed `int` in the source.
- `SWITCH`, stacks and saved registers: a context switch is a change of the current thread.
- Processors.Processor.SetLevel: does not include the tick that turning interrupts on takes, which is in `Interrupts.Interrupt.SetLevel`.
- `Halt`, and the counting of user programs in `Begin` and `Finish`.
- Kernels.EveryRun: does not model reuse of a destroyed thread's address by a new thread; every thread has a name of its own.
- `Condition::Broadcast`, which no modelled client calls, and `SynchList::Apply`.
- The queue of sleepers in the lock of a `SynchDisk`, which enters the lock of `Locks` when its value allows it; for a `SynchList` the queue is modelled.
- Distinctness of the items in a `SynchList`, which `List::Append` asserts.
- The transformer's constants and its loop: both transformations are arbitrary functions of opcode and value.
- Latencies, output failures of the writer, and inputs with fewer lines than announced.
- The lifetime of a removed `Consumer` object, which the controller deletes while its thread may still run; the unlocked `get_size` is one read.
- Fairness: progress says that some thread can go on, not that each one does.
- The second copy of Nachos in the repository, the `c++example` directories, `coff2noff`, and the console, network and system-call layers.
