# WarkRune, modelled and proved in Dafny

This project models the parts of the WarkRune kernel that keep state worth an invariant, and proves what
they promise.

- **FAT12 driver.** The driver works on an array of 512-byte sectors through one scratch buffer. The proof
  goes up in layers: bytes in sectors (`Sectors.dfy`, `FatDisk.dfy`), an array of 12-bit entries
  (`FatDisk.dfy`), disjoint chains (`Chains.dfy`), flat byte strings (`Extents.dfy`, `FileBytes.dfy`),
  directories as maps from 8.3 names (`Directory.dfy`, `Paths.dfy`). `FileSystem.dfy` states the invariant
  that ties a volume to its meaning, `FileSteps.dfy`, `EntrySteps.dfy` and `Operations.dfy` show what each
  operation's writes do to that meaning. `Mounting.dfy` reads the boot sector, `Calls.dfy` holds what the
  driver's calls promise and `Driver.dfy` is the driver itself. `OnDisk.dfy` says by sector and byte what the
  meaning of a volume stands for, `Determined.dfy` shows that the volume determines it, `EndToEnd.dfy` says what a caller sees over several operations, and
  `LostCluster.dfy` is the run in which a cluster is lost. The on-disk format is that of the Microsoft FAT specification
  (fatgen103), sections "Boot Sector and BPB", "FAT Data Structure" and "FAT Directory Structure".
- **Kernel memory.** `HeapBlocks.dfy` and `Heap.dfy`: the first-fit heap as bytes in memory and as the list
  of blocks those bytes describe. `Bits.dfy`, `Frames.dfy`, `Paging.dfy`, `VirtualPages.dfy` and
  `SharedMemory.dfy`: one ledger of page frames through the frame bitmap, the two-level page tables
  (section 4.3 of the Intel SDM, volume 3A), the bump allocator and the shared regions. `Placement.dfy`:
  where the bitmap, the heap and the frames lie.
- **Descriptors, pipes and scheduler.** `Pipes.dfy`, `Descriptors.dfy`, `Scheduler.dfy`.
- **Arithmetic and text.** `Division.dfy`, `Numbers.dfy`, `Formatting.dfy`.

A class stands for each component that updates its fields in place; its `Valid` predicate is the invariant
every method keeps, so a statement about a valid object holds after any run of its methods. Ghost state
(`Fat12.m`, `Kmalloc.blocks`, `Pipe.accepted`) records what the concrete state means, and `Valid` ties the two
together. Bit operations are written as arithmetic on numbers of explicit width, or as the recursive
functions of `Bits.dfy`; wrap-around is written out where it can happen.

The functions a contract is written with have their meaning stated a second time, in bytes, numbers and
positions: in the contract itself, or in lemmas such as those of `OnDisk.dfy` and those whose names end in
`Means`, `Mean` or `Bytes`.

Places where the code does less than it seems to promise are stated as theorems:

- making a directory (under a name that does not begin with byte 0xE5) loses a cluster exactly when the path names
  a new name in a full subdirectory and two clusters are free: one cluster is then in use without an owner, the
  other is added to the subdirectory
  (`Driver.Fat12.Mkdir`, `Calls.MkdirLost`; `LostCluster.LoseOne` reaches that state from every formatted volume
  with three clusters, `LostCluster.LoseOneOfBlank` from one disk);
- a file or directory made in a full subdirectory that grows past 10000 slots is written behind the slots that
  are scanned: the call succeeds and the name is not found (`Calls.PastTheEnd`, `EndToEnd.CreatedNotFound`);
- the heap, the frame bitmap and the page frames overlap for every memory region with a frame to allocate outside
  229377 to 262144 frames (`Placement.SeparateExactly`, `Placement.SmallRegionOverlaps`);
- a page mapped and given back restores the frame bitmap exactly when the memory region starts on a page
  boundary; otherwise the frame before its own is freed (`VirtualPages.AlignedBaseNeeded`,
  `VirtualPages.TakeAndReturn`, and `VirtualPages.UnalignedRegion` for one such region);
- a shared region made under a new name is found by that name exactly when it has fewer than 32 characters
  (`SharedMemory.FoundExactly`, `SharedMemory.CreateOpen`, and `SharedMemory.ThirtyTwoLetters` for one name),
  and a request above 0xFFFFF000 bytes gets a single page (`SharedMemory.PagesCover`);
- a heap request above 0xFFFFFFF8 rounds to nothing (`Heap.AlignedCovers`);
- a task killed while it is current comes back exactly when another one is ready (`Scheduler.KilledCurrent`,
  and `Scheduler.KilledAndRevived` for a run from start-up).

## Model

| member | source | states |
|---|---|---|
| Sectors.PatchEntryIsUpdate | kernel/fs/fat12.cpp:385-413 | Rewriting 32 bytes of one sector changes that directory entry and no other. |
| FatDisk.PutEntryGet | kernel/fs/fat12.cpp:166-241 | The packed bytes are an array of 12-bit values: an entry written is read back modulo 4096, and every other entry, the one sharing a byte and the ones straddling two sectors included, keeps its value. |
| FatDisk.PutEntryFrame | kernel/fs/fat12.cpp:196-236 | Patching an entry touches only the sectors that hold it. |
| FatDisk.PutCopies | kernel/fs/fat12.cpp:237-241 | Patching the first two FAT copies sets one value of the decoded table, changes no data or root sector, and keeps the copies equal if they were. |
| FatDisk.PutBothKeeps | kernel/fs/fat12.cpp:196-241 | Patching both copies keeps them equal if they were and touches no sector outside them: none before the first FAT, between the copies and the root directory, or behind the last cluster. |
| FatDisk.PutData | kernel/fs/fat12.cpp:134-148 | Writing a sector of cluster c changes that sector of that cluster and nothing else of the volume. |
| FatDisk.PutRoot | kernel/fs/fat12.cpp:385-396 | Writing a root directory sector changes that sector and nothing else of the volume. |
| FatDisk.ClustersApart | kernel/fs/fat12.cpp:146-148 | Different clusters occupy different sectors. |
| Chains.ChainDistinct | kernel/fs/fat12.cpp:255-262 | An EOC-ended chain visits no cluster twice. |
| Chains.ChainUnique | kernel/fs/fat12.cpp:255-262 | The chain from a given cluster is unique. |
| Chains.Pigeonhole | kernel/fs/fat12.cpp:595-600 | A chain is no longer than there are clusters. |
| Chains.ConservedFirst | kernel/fs/fat12.cpp:723-729 | Giving an empty file its first cluster keeps the allocated entries the disjoint union of the owned chains. |
| Chains.ConservedExtend | kernel/fs/fat12.cpp:731-743 | So does linking a fresh cluster to the end of one chain. |
| Chains.ConservedFree | kernel/fs/fat12.cpp:255-262 | So does freeing one whole chain together with its owner. |
| Chains.InUseDrops | kernel/fs/fat12.cpp:255-262 | Freeing an allocated cluster makes fewer clusters allocated, which is why the walk ends on any table. |
| Chains.FreeWalkChain | kernel/fs/fat12.cpp:255-262 | On a well-formed chain the walk frees exactly that chain. |
| Chains.WalkFreesReached | kernel/fs/fat12.cpp:255-262 | On any table, with cycles and shared tails or without, the walk frees exactly the clusters the links lead to from the first. |
| Chains.ConservedLinks | kernel/fs/fat12.cpp:255-262 | Under conservation every link stays inside the table. |
| Extents.ChainIndex | kernel/fs/fat12.cpp:678-700 | Sector t of the j-th cluster is sector j*w+t of the chain. |
| Extents.ChainUpdate | kernel/fs/fat12.cpp:745-763 | Replacing a sector of one cluster replaces one sector of the chain. |
| Extents.Locate | kernel/fs/fat12.cpp:365-373 | Splitting a position by cluster, sector and byte gives the place the flat count gives, for every cluster size. |
| Directory.SizeDigits | kernel/fs/fat12.cpp:787-798 | The size written into an entry's four bytes is the size read back. |
| Directory.NamesUnique | kernel/fs/fat12.cpp:496-512 | A directory in order determines its map of names. |
| Directory.Bind | kernel/fs/fat12.cpp:639-649 | Writing a live entry of an unbound name into the first vacant slot binds that name and no other. |
| Directory.BindOk | kernel/fs/fat12.cpp:520-527 | The directory stays in order: no live entry past the first END marker, names unique. |
| Directory.Unbind | kernel/fs/fat12.cpp:842-846 | Marking an entry free unbinds its name and no other. |
| Directory.Rebind | kernel/fs/fat12.cpp:876-881 | Rewriting an entry under a new name moves its binding. |
| Directory.RebindOk | kernel/fs/fat12.cpp:876-881 | The directory stays in order. |
| FileSteps.FileStepInv | kernel/fs/fat12.cpp:713-781 | Any step that changes only one file's clusters keeps the invariant and every other file's bytes. |
| Operations.NamesBridge | kernel/fs/fat12.cpp:496-512 | The recorded map of a directory is the one its slots on disk give. |
| Operations.NamesBind | kernel/fs/fat12.cpp:639-649 | Creating changes exactly one binding, in one directory. |
| Operations.NamesUnbind | kernel/fs/fat12.cpp:842-846 | Deleting removes exactly one binding. |
| Operations.NamesRebind | kernel/fs/fat12.cpp:876-881 | Renaming moves exactly one binding. |
| Operations.CreateStep | kernel/fs/fat12.cpp:642-651 | Writing a new file entry keeps the whole invariant and adds one empty file. |
| Operations.OpenStep | kernel/fs/fat12.cpp:618-624 | Entering a descriptor for a file nobody has open keeps the invariant. |
| Operations.CloseStep | kernel/fs/fat12.cpp:804-808 | Releasing a flushed descriptor keeps the invariant. |
| Operations.UpdateStep | kernel/fs/fat12.cpp:787-798 | Rewriting an entry's fields without changing what it owns keeps the invariant. |
| Operations.DeleteStep | kernel/fs/fat12.cpp:834-847 | Freeing a file's chain and its entry keeps the invariant and changes no other file. |
| Operations.RmdirStep | kernel/fs/fat12.cpp:950-956 | Freeing an empty directory's chain and its entry keeps the invariant. |
| FileSystem.RootedAdd | kernel/fs/fat12.cpp:911-918 | A directory made in one that is reached from the root is reached from the root, and so is every other. |
| FileSystem.RootedDrop | kernel/fs/fat12.cpp:950-956 | Removing a directory that holds no directory leaves every other reachable from the root. |
| Operations.LostStep | kernel/fs/fat12.cpp:897-902 | A cluster taken before its entry exists is accounted for as one chain without an owner. |
| Operations.GiveBackStep | kernel/fs/fat12.cpp:904-909 | Rolling back gives that cluster up again and leaves nothing lost. |
| Calls.MkdirLost | kernel/fs/fat12.cpp:897-909 | The two clusters taken for a directory in a full subdirectory: the one is in use without an owner, the other is the last of the subdirectory, and no other entry of the table differs. |
| Calls.PastTheEnd | kernel/fs/fat12.cpp:542 | Writing slot 10000 of a subdirectory that has just grown past it: no scanned slot has the entry's name. |
| Operations.AdoptStep | kernel/fs/fat12.cpp:911-918 | Writing the directory entry makes the new directory own the cluster. |
| Operations.ExtendStep | kernel/fs/fat12.cpp:530-543 | Growing a subdirectory by a zeroed cluster keeps the invariant and adds END slots only. |
| FileBytes.WriteGrow | kernel/fs/fat12.cpp:731-743 | A cluster added while writing changes no byte accepted so far. |
| FileBytes.WritePut | kernel/fs/fat12.cpp:745-763 | Copying part of the data into a cluster places exactly those bytes of the file. |
| FileBytes.WriteFinish | kernel/fs/fat12.cpp:766-781 | What was copied is an overwrite of the file at the old position by a prefix of the data. |
| FileBytes.WroteEnough | kernel/fs/fat12.cpp:713-781 | A write that stops only at the end of the data or of the room, and takes a cluster only for a byte it has, accepts all there is room for and takes no cluster it does not need. |
| Mounting.FormattedInv | kernel/fs/fat12.cpp:552-606 | A volume whose table holds only free and bad entries and whose root directory is empty satisfies the invariant with the empty meaning. |
| OnDisk.TableBytes | kernel/fs/fat12.cpp:166-193 | An entry of the table is twelve bits at byte 3c/2 of the table: a byte and the low half of the next, or the high half of a byte and the next. |
| OnDisk.RootBytes | kernel/fs/fat12.cpp:349-362 | Slot i of the root directory is 32 bytes of sector i/16 behind the tables. |
| OnDisk.SubdirBytes | kernel/fs/fat12.cpp:364-380 | The slots of a subdirectory follow its chain: which bytes of which sector of the disk slot number n is. |
| OnDisk.FileBytesAt | kernel/fs/fat12.cpp:678-700 | The bytes of a file follow its chain: which byte of which sector of the disk byte number n is. |
| OnDisk.ChainLinks | kernel/fs/fat12.cpp:255-262 | A chain starts at the cluster in bytes 26 and 27 of its entry, each link is what the table holds for the one before, and the last one's entry is at least 0xFF8. |
| OnDisk.TableMeans | kernel/fs/fat12.cpp:244-262 | An entry of the table is 0 exactly for a cluster in no recorded chain that is not bad, and 0xFF7 exactly for a bad one. |
| OnDisk.EntriesMean | kernel/fs/fat12.cpp:496-512 | The slots that start with neither 0 nor 0xE5, have no low attribute bit and are not "." or ".." are a directory's entries, and their names, with 97 to 122 taken down by 32, are what it binds. |
| OnDisk.FilesMean | kernel/fs/fat12.cpp:612-624 | Files are the entries without the directory bit, as long as bytes 28 to 31 say unless open; subdirectories are the entries with it, by their first cluster. |
| Driver.Match83 | kernel/fs/fat12.cpp:305-313 | Returns true exactly when the eleven bytes agree, letter case by number ranges aside. |
| Driver.To83Name | kernel/fs/fat12.cpp:270-302 | With the first dot at d (the length if there is none): byte i below 8 is byte i of the component in upper case if i is below d, and byte 8+j is byte d+1+j, 32 where there is none; eleven spaces if the component starts with a dot. |
| Directory.To83Bytes | kernel/fs/fat12.cpp:281-301 | The same eleven bytes for the name that lookups compare: what stands before and what behind the first dot, each at its place, upper case by the range of the letters. |
| Directory.SameName83 | kernel/fs/fat12.cpp:270-313 | Two components have the same name exactly when up to eight bytes before the first dot and up to three behind it agree in upper case and padded with spaces. |
| Paths.HelloTxt | kernel/fs/fat12.cpp:437-490 | "HELLO.TXT" in the root is looked up as "HELLO", three spaces and "TXT". |
| Paths.CompNameCut | kernel/fs/fat12.cpp:459-461 | A component of at most 255 bytes is taken whole, of a longer one 255 bytes. |
| Paths.WalkPath | kernel/fs/fat12.cpp:437-490 | The walk component by component: runs of slashes and one at the front count for nothing, a component before a slash must be bound to an entry with the directory bit, whose first cluster is where the walk goes on, and what stands behind the last slash is the name. |
| Driver.ComponentLen | kernel/fs/fat12.cpp:445-446 | The length of the path component that starts here. |
| Driver.ComponentName | kernel/fs/fat12.cpp:459-469 | The 8.3 name of a component, byte by byte; of a longer one 255 bytes count. |
| Driver.ClusterPlace | kernel/fs/fat12.cpp:672-676 | Where in its chain a position lies. |
| Driver.Fat12.Init | kernel/fs/fat12.cpp:552-606 | By byte offsets of the boot sector: with 55 AA at 510, 512 bytes per sector and nonzero bytes 13, 14-15 and 22-23 the geometry is bytes 13, 14-15, 16, 17-18, 22-23 and the count of sectors 19-20 or else 32-35; otherwise it is the six fixed numbers. Mounting succeeds exactly when that gives 1 to 4085 clusters; every descriptor is closed, every cluster number stays below FAT12_BAD, and if the sizes the code does not check are right, the driver is mounted. |
| Driver.Fat12.ReadBpb | kernel/fs/fat12.cpp:557-591 | The boot sector's fields by byte offset, or the fixed geometry when one of the marks and numbers it checks is missing. |
| Mounting.FloppyGeometry | kernel/fs/fat12.cpp:558-591 | The boot sector of a floppy of 2880 sectors: its table is at sector 1, its root directory at sector 19, its data at sector 33, and it has 2847 clusters. |
| Mounting.MountedAs | kernel/fs/fat12.cpp:592-606 | A geometry computed from the block's fields is the one the volume is mounted with, it is accepted exactly with 1 to 4085 clusters behind the root directory, and the driver is mounted if the tables and the disk are long enough. |
| Driver.Fat12.FatGet | kernel/fs/fat12.cpp:166-193 | Reads the 12-bit value, also when it straddles two sectors. |
| Driver.Fat12.WriteFat | kernel/fs/fat12.cpp:196-236 | Patches one packed entry of one copy. |
| Driver.Fat12.FatSet | kernel/fs/fat12.cpp:196-241 | Sets one value of the decoded table modulo 4096; both copies keep agreeing. |
| Driver.Fat12.FatAlloc | kernel/fs/fat12.cpp:244-252 | Takes the lowest cluster whose entry is 0 and sets it to 0xFFF; returns 0 exactly when no entry is 0. |
| Driver.Fat12.FatFreeChain | kernel/fs/fat12.cpp:255-262 | Ends on every table whose links stay inside it, cyclic or not, and sets to 0 exactly the entries of the clusters the links lead to. |
| Driver.Fat12.ZeroCluster | kernel/fs/fat12.cpp:150-155 | Zeroes every sector of one cluster and no other. |
| Driver.Fat12.DirReadEntry | kernel/fs/fat12.cpp:349-380 | Returns slot idx of the directory, false exactly when there is none. |
| Driver.Fat12.DirWriteEntry | kernel/fs/fat12.cpp:382-413 | Replaces slot idx of the directory and nothing else of the volume. |
| Driver.Fat12.FindInDir | kernel/fs/fat12.cpp:496-512 | Finds the slot of a name exactly when the name is bound. |
| Driver.Fat12.AllocDirEntry | kernel/fs/fat12.cpp:520-546 | The first vacant slot; a full subdirectory grows by one zeroed cluster and the slot number returned is past its end. |
| Driver.Fat12.ResolvePath | kernel/fs/fat12.cpp:437-490 | Walks the path through the directory maps. |
| Driver.Fat12.FdAlloc | kernel/fs/fat12.cpp:113-128 | Takes the lowest free descriptor, or says that none is free. |
| Driver.Fat12.Read | kernel/fs/fat12.cpp:658-707 | Returns exactly contents[pos..pos+min(n, size-pos)] for every position, size and cluster size, and moves the position. |
| Driver.Fat12.Write | kernel/fs/fat12.cpp:713-781 | Returning k, replaces contents[pos..pos+k] by the first k bytes, byte by byte, moves the position and grows the size; k is the smaller of what was asked and what the file's own and the free clusters hold behind the position; the chain then has as many clusters as before or as the bytes take, whichever is more; it fails exactly when an empty file gets no first cluster; every other file keeps its bytes, the bad clusters stay the same and the invariant holds. |
| Driver.Fat12.Open | kernel/fs/fat12.cpp:612-624 | Opens the file a path leads to at position 0 in the lowest free descriptor; succeeds exactly when the walk ends at an entry without the directory bit and a descriptor is free. |
| Driver.Fat12.Flush | kernel/fs/fat12.cpp:787-798 | Brings the directory entry's size and first cluster up to date and changes nothing else of the volume. |
| Driver.Fat12.Close | kernel/fs/fat12.cpp:804-808 | Flushes and releases the descriptor and changes nothing else of the volume. |
| Driver.Fat12.Size | kernel/fs/fat12.cpp:814-817 | The length of the open file's contents. |
| Driver.Fat12.Create | kernel/fs/fat12.cpp:630-652 | Binds a new name to an empty file and opens it, writing the first slot that can be taken and nothing else of the volume; a name in use changes nothing; in a full subdirectory the call fails and the directory has grown by one zeroed cluster of END slots, unless it grew past 10000 slots: then the call looks made and no scan comes to the entry. |
| Driver.Fat12.Delete | kernel/fs/fat12.cpp:823-848 | Succeeds exactly when the walk ends at an entry without the directory bit; removes the file and its entry, and the table afterwards is 0 for the clusters of its chain and the old one elsewhere, if it is not open. |
| Driver.Fat12.Rename | kernel/fs/fat12.cpp:854-882 | Succeeds exactly when the old path is bound and the new name is not; changes the entry's name only. |
| Driver.Fat12.Mkdir | kernel/fs/fat12.cpp:888-919 | Makes a directory of one cluster of END slots; fails and changes nothing when no cluster is free; in a full directory it fails and the table is exactly as it was, or, in a subdirectory with two clusters free, exactly two are taken: one is lost and one is linked to the subdirectory. The number of lost clusters grows in that case only. |
| Driver.Fat12.Rmdir | kernel/fs/fat12.cpp:925-957 | Succeeds exactly when the walk ends at an entry with the directory bit in whose directory no entry lies, at any depth; removes the entry, and the table afterwards is 0 for the clusters of the chain and the old one elsewhere. |
| Calls.SlotAtMeans | kernel/fs/fat12.cpp:437-490 | A path names an entry exactly when the walk ends at a name its directory binds, and is new exactly when it ends at one it does not bind. |
| Calls.EmptyDirMeans | kernel/fs/fat12.cpp:925-957 | A path names an empty directory exactly when its entry has bit 4 of byte 11 set and no entry lies in the directory that starts at its first cluster. |
| Calls.CanAddMeans | kernel/fs/fat12.cpp:520-546 | A new name can be added exactly while a scanned slot of its directory starts with 0 or 0xE5. |
| Calls.EntryMadeMeans | kernel/fs/fat12.cpp:520-546 | The slot a new entry takes: the first scanned one that starts with 0 or 0xE5; no other slot and no other byte of the volume changes. |
| Calls.CreatedMeans | kernel/fs/fat12.cpp:639-652 | A file just created is empty and bound, and open at position 0 if a descriptor was free. |
| Calls.MadeDirMeans | kernel/fs/fat12.cpp:911-918 | The entry of a directory just made has the name, attribute 0x10 and its cluster, and zeros else. |
| EndToEnd.NothingLost | kernel/fs/fat12.cpp:244-262 | With nothing lost, a cluster is allocated exactly if it is in the chain of one live entry, and of only one; bad exactly if it is recorded as bad; free otherwise. |
| EndToEnd.NoneFreeStays | kernel/fs/fat12.cpp:244-252 | Once no cluster is free, none becomes free while chains only grow. |
| EndToEnd.MountFormatted | kernel/fs/fat12.cpp:552-606 | Constructing the driver and mounting a formatted volume, bad clusters included, establishes the invariant with the empty meaning: the start of every run. |
| EndToEnd.StillMountedAt | kernel/fs/fat12.cpp:557-591 | No operation changes what the boot sector says, so the volume can be mounted again with the same geometry. |
| EndToEnd.Remount | kernel/fs/fat12.cpp:552-606 | Mounting again with every descriptor closed gives the same files, names and chains, and every other reading of the volume is the same. |
| Determined.DirAgrees | kernel/fs/fat12.cpp:349-380 | Going down from the root, two readings of one volume find the same directories in the same places with the same chains. |
| Determined.OneMeaning | kernel/fs/fat12.cpp:552-606 | With every descriptor closed the volume determines its directories, entries, files, the chains of its entries and its bad clusters; with no cluster lost, its whole meaning. |
| EndToEnd.ResolveKept | kernel/fs/fat12.cpp:437-490 | A path keeps its meaning while its directories stay reachable. |
| EndToEnd.DeletedName | kernel/fs/fat12.cpp:823-848 | After a delete exactly one binding is gone and the path names nothing. |
| EndToEnd.RmdirName | kernel/fs/fat12.cpp:925-957 | After removing a directory exactly one binding is gone. |
| EndToEnd.MakeAndRemove | kernel/fs/fat12.cpp:888-957 | Making a directory and removing it again, at any depth: with a slot and a cluster free both succeed, and the table, the names, the files and all the volume means are as before. |
| EndToEnd.MadeIsEmpty | kernel/fs/fat12.cpp:888-957 | The path of a directory just made leads to it, and no entry lies in it. |
| EndToEnd.RenamedName | kernel/fs/fat12.cpp:854-882 | A rename within a directory moves one binding; a file is found under the new path and not the old. |
| EndToEnd.FoundAgain | kernel/fs/fat12.cpp:612-624 | A created name is found again after its entry was brought up to date. |
| EndToEnd.StoreAndClose | kernel/fs/fat12.cpp:630-808 | Create, any writes and close leave under the path exactly the bytes of the writes one after another, as many as the clusters free before hold. |
| EndToEnd.StoreAndReload | kernel/fs/fat12.cpp:612-808 | Create, any writes, close, open and read return exactly the bytes of the writes one after another, as many as the clusters free before hold; a chunk is cut short only if none is free at the end; no other file changes. |
| EndToEnd.StoreAndRemount | kernel/fs/fat12.cpp:552-808 | The same across mounting the volume again between close and open. |
| EndToEnd.CreatedNotFound | kernel/fs/fat12.cpp:496-546 | Create in a subdirectory that grows past 10000 slots: it fails only for want of a descriptor, and the name is not found afterwards. |
| LostCluster.FilledOne | kernel/fs/fat12.cpp:630-652 | Creating and closing one more file takes the next slot of the directory and no cluster. |
| LostCluster.LostIsHeld | kernel/fs/fat12.cpp:244-262 | A lost cluster is in use and in no entry's chain. |
| LostCluster.LoseOne | kernel/fs/fat12.cpp:888-919 | From every formatted volume with three clusters and a root directory: mkdir, creates and closes until the directory is full, mkdir in it; then exactly one cluster is lost. |
| LostCluster.LoseOneOfBlank | kernel/fs/fat12.cpp:565-574 | The same from a disk of zeros, for which the fixed geometry is taken. |
| HeapBlocks.TilesOrder | kernel/memory/kmalloc.cpp:31-59 | Blocks lie in address order inside the heap and do not overlap. |
| HeapBlocks.Canonical | kernel/memory/kmalloc.cpp:31-41 | Two coalesced tilings with the same live blocks are the same list. |
| HeapBlocks.AllFree | kernel/memory/kmalloc.cpp:53-57 | With no live block there is a single free block. |
| HeapBlocks.FitsIffGap | kernel/memory/kmalloc.cpp:69-87 | A free block of n bytes exists exactly if somewhere between live blocks a header and n bytes fit. |
| HeapBlocks.FirstFitIsLowest | kernel/memory/kmalloc.cpp:69-71 | The first block that fits starts at the lowest address with room. |
| HeapBlocks.AllocLayout | kernel/memory/kmalloc.cpp:70-81 | Splitting keeps the tiling, the multiples of 8, and no two free neighbours. |
| HeapBlocks.AllocLive | kernel/memory/kmalloc.cpp:70-81 | Splitting adds one live block and keeps the others. |
| HeapBlocks.JoinTiles | kernel/memory/kmalloc.cpp:34-36 | Joining free neighbours keeps the tiling and the live blocks. |
| HeapBlocks.ReleaseTiles | kernel/memory/kmalloc.cpp:93-95 | Releasing takes exactly one block out of the live ones. |
| HeapBlocks.AllocThenFree | kernel/memory/kmalloc.cpp:61-98 | Allocating and freeing restores the identical list. |
| Heap.GetPut32 | kernel/memory/kmalloc.cpp:20-25 | A header word stored is the word loaded. |
| Heap.JoinEncoded | kernel/memory/kmalloc.cpp:34-36 | After rewriting one header the bytes describe the joined list. |
| Heap.SplitEncoded | kernel/memory/kmalloc.cpp:71-80 | After writing a header inside a block the bytes describe the split list. |
| Heap.SplitKeepsPayloads | kernel/memory/kmalloc.cpp:71-80 | Splitting writes into no live payload. |
| Heap.AlignedCovers | kernel/memory/kmalloc.cpp:65 | Rounding covers the request exactly for requests up to 0xFFFFFFF8; larger ones round to 0. |
| Heap.GrantedByFirstFit | kernel/memory/kmalloc.cpp:69-83 | What first fit hands out is new, big enough, hardly bigger, and lowest. |
| Heap.SizesAddUp | kernel/memory/kmalloc.cpp:127-137 | Free bytes, used bytes and headers add up to the heap. |
| Heap.GrantMeans | kernel/memory/kmalloc.cpp:61-88 | What is granted for n bytes: one new block of n to n+23 bytes, at the lowest place between live blocks with room for it and its header. |
| Heap.HeaderBytes | kernel/memory/kmalloc.cpp:18-25 | The sixteen bytes of a header in memory: magic number, size, mark and address of the next, lowest byte first. |
| Heap.Kmalloc.Init | kernel/memory/kmalloc.cpp:53-58 | Lays out a single free block of 524272 bytes. |
| Heap.Kmalloc.MergeFreeBlocks | kernel/memory/kmalloc.cpp:31-41 | Joins all free neighbours; live blocks and their payloads stay. |
| Heap.Kmalloc.Alloc | kernel/memory/kmalloc.cpp:61-88 | Null exactly for size 0 or when no gap between live blocks has room; otherwise a new block at the lowest address with room, and no payload changes. |
| Heap.Kmalloc.Free | kernel/memory/kmalloc.cpp:90-98 | Exactly that block stops being live, no other payload changes, null is ignored. |
| Heap.Kmalloc.Realloc | kernel/memory/kmalloc.cpp:100-118 | Keeps the old payload as a prefix, moves only that block, and changes nothing when it fails. |
| Heap.Kmalloc.Size | kernel/memory/kmalloc.cpp:120-125 | The size of the live block, 0 for null. |
| Heap.Kmalloc.Info | kernel/memory/kmalloc.cpp:127-137 | Totals of used and free payload bytes, which with the headers make up the heap. |
| Heap.AllocFree | kernel/memory/kmalloc.cpp:61-98 | Allocating and freeing restores the identical block list and every payload. |
| Heap.FreeAll | kernel/memory/kmalloc.cpp:90-98 | Freeing all live blocks, in any order, restores the single free block of 524272 bytes. |
| Bits.SetBit | kernel/memory/pmm/pmm.cpp:13 | Sets one bit of a word and no other. |
| Bits.ClearBit | kernel/memory/pmm/pmm.cpp:14 | Clears one bit of a word and no other. |
| Bits.SameBits | kernel/memory/pmm/pmm.cpp:13-15 | A word is its bits. |
| Frames.BestIsUnique | kernel/memory/memory.cpp:6-16 | Two scans of the memory map choose the same region. |
| Frames.LongestRegion | kernel/memory/pmm/pmm.cpp:20-27 | The first region of kind 1 at or above 1 MB of the greatest length. |
| Frames.TakenDetermines | kernel/memory/pmm/pmm.cpp:39-46 | The taken frames determine the bitmap word for word. |
| Frames.Pmm.Init | kernel/memory/pmm/pmm.cpp:17-47 | Puts the bitmap at the start of the first longest region of kind 1 at or above 1 MB, or nowhere if all are empty; skips its pages and 128 more; every frame behind them is free. |
| Frames.Pmm.Alloc | kernel/memory/pmm/pmm.cpp:49-58 | Takes the lowest free frame and returns base + 4096 times its number; null exactly when all are taken; the counter grows by one. |
| Frames.Pmm.Free | kernel/memory/pmm/pmm.cpp:60-67 | Gives back the frame an address lies in; anything but a taken frame is ignored. |
| Frames.Pmm.TakenMeans | kernel/memory/pmm/pmm.cpp:11-15 | A frame is taken exactly when bit f modulo 32 of word f/32 is set. |
| Placement.Memory.Init | kernel/memory/memory.cpp:6-16 | The same choice of region as the frame allocator's. |
| Placement.EightPages | kernel/memory/pmm/pmm.cpp:31-34 | The bitmap takes eight pages exactly for 229377 to 262144 frames. |
| Placement.SeparateExactly | kernel/memory/kmalloc.cpp:43-51 | Bitmap, heap and allocatable frames are pairwise disjoint exactly for those sizes. |
| Placement.SmallRegionOverlaps | kernel/memory/kmalloc.cpp:48-51 | With 128 MB the heap's tail is also handed out as frames. |
| Placement.Boot | kernel/memory/pmm/pmm.cpp:17-47 | Both scans share one region, so the condition applies to the booted machine. |
| Paging.EntryParts | kernel/memory/paging/paging.cpp:25 | An entry holds the frame and is present whatever the flags. |
| Paging.PageTables.Map | kernel/memory/paging/paging.cpp:16-27 | One page gets a translation, as the two-level walk through the directory finds it; the entry holds the frame, the low twelve bits of the flags and the present bit; the directory entry is made, or gets the user bit, or stays; no other entry changes. |
| Paging.PageTables.PrepareTable | kernel/memory/paging/paging.cpp:18-23 | A directory entry that is present names its own table, before and after; no translation changes. |
| Paging.PageTables.Walk | kernel/memory/paging/paging.cpp:39-49 | A page is mapped exactly when bit 0 of its directory entry and of its table entry are set, and its frame is the upper twenty bits of the latter. |
| Paging.PageTables.Unmap | kernel/memory/paging/paging.cpp:29-37 | One page loses its translation, no other. |
| Paging.PageTables.GetPhysical | kernel/memory/paging/paging.cpp:39-49 | The translated address with the page offset, 0 when unmapped. |
| Paging.PageTables.MapIdentity | kernel/memory/paging/paging.cpp:58-70 | Maps a run of pages to themselves with the given flags; every other page keeps its translation and flags. |
| Paging.PageTables.Init | kernel/memory/paging/paging.cpp:51-75 | The low 64 MB and the frame buffer map to themselves, present and writable; nothing else is mapped. |
| Paging.Absorbed | kernel/memory/paging/paging.cpp:61-75 | Mapping pages to themselves again changes nothing. |
| VirtualPages.LedgerAdd | kernel/memory/vmm/vmm.cpp:11-26 | A page mapped to a fresh frame keeps issued pages injective into taken frames. |
| VirtualPages.LedgerDrop | kernel/memory/vmm/vmm.cpp:28-33 | So does dropping a page with its frame. |
| VirtualPages.BackedAdd | kernel/memory/vmm/vmm.cpp:11-26 | If every taken frame is behind an issued page, it is so after a page was mapped to a fresh frame. |
| VirtualPages.BackedDrop | kernel/memory/vmm/vmm.cpp:28-33 | And after a page was dropped with its frame. |
| VirtualPages.AlignedBaseNeeded | kernel/memory/pmm/pmm.cpp:60-62 | The frame found behind a page is its own exactly when the region starts on a page boundary. |
| VirtualPages.TakeAndReturn | kernel/memory/vmm/vmm.cpp:11-33 | A frame taken, mapped, unmapped and given back leaves the frames as before exactly when the region starts on a page boundary; otherwise it stays taken and the one before it is free. |
| VirtualPages.UnalignedRegion | kernel/memory/pmm/pmm.cpp:60-62 | One region for which a frame is given back as the one before it. |
| VirtualPages.Vmm.Alloc | kernel/memory/vmm/vmm.cpp:11-26 | Fails, changing no frame, exactly when every frame is taken or the pointer is at 0xFFFFF000; otherwise maps the lowest free frame with the given flags, every other page keeps its own. Taken frames stay in one-to-one correspondence with issued pages when the address is left to the allocator. |
| VirtualPages.Vmm.Free | kernel/memory/vmm/vmm.cpp:28-33 | For every address: unmaps the page and gives back the frame the allocator takes its address to lie in, nothing if it is not mapped; for an issued page that is its own frame and the ledger is kept. |
| SharedMemory.NameEq | kernel/memory/shmem/shmem.cpp:19-23 | True exactly for equal names. |
| SharedMemory.NameCopy | kernel/memory/shmem/shmem.cpp:25-29 | Keeps at most 31 characters. |
| SharedMemory.PagesCover | kernel/memory/shmem/shmem.cpp:41-42 | The pages cover the request exactly for sizes up to 0xFFFFF000. |
| SharedMemory.FramesOfRun | kernel/memory/shmem/shmem.cpp:44-53 | The frames behind a run of mapped pages are the ones that were taken for it. |
| SharedMemory.NoneAvailable | kernel/memory/pmm/pmm.cpp:49-58 | No frame can be had exactly when the counter says none is left. |
| SharedMemory.FoundExactly | kernel/memory/shmem/shmem.cpp:25-29 | A region entered under a new name is found by it exactly if the name has fewer than 32 characters. |
| SharedMemory.ThirtyTwoLetters | kernel/memory/shmem/shmem.cpp:25-29 | One name of 32 letters that is not found. |
| SharedMemory.TableAdd | kernel/memory/shmem/shmem.cpp:55-58 | Entering a freshly mapped region keeps regions mapped and disjoint. |
| SharedMemory.TableDrop | kernel/memory/shmem/shmem.cpp:76-79 | Removing a region keeps the others mapped and disjoint. |
| SharedMemory.Shmem.FreeRun | kernel/memory/shmem/shmem.cpp:48-49 | Frees exactly the frames of a run of pages. |
| SharedMemory.Shmem.MapRun | kernel/memory/shmem/shmem.cpp:44-53 | Maps contiguous pages, or restores the taken frames when one cannot be had, which is exactly when too few are left. |
| SharedMemory.Shmem.Zero | kernel/memory/shmem/shmem.cpp:60-61 | Clears the region's frames through their addresses and no other byte of RAM. |
| SharedMemory.Shmem.Create | kernel/memory/shmem/shmem.cpp:31-64 | Finds the named region, changing nothing, or makes a zero-filled one; failing restores bitmap and counter exactly; fails exactly when exhausted. |
| SharedMemory.Shmem.Open | kernel/memory/shmem/shmem.cpp:66-71 | The address of the first region of that name, 0 exactly when there is none. |
| SharedMemory.Shmem.Close | kernel/memory/shmem/shmem.cpp:73-83 | Forgets the region and gives up its pages and frames. |
| SharedMemory.EnteredMeans | kernel/memory/shmem/shmem.cpp:55-58 | A new region goes into the first place not in use, and no other place changes. |
| SharedMemory.RemovedMeans | kernel/memory/shmem/shmem.cpp:73-83 | Closing takes the first region of that name out of use; its pages are unmapped, exactly the frames behind them are free again, every other page and frame is as before. |
| SharedMemory.RunMeans | kernel/memory/shmem/shmem.cpp:44-53 | Page i of a run is mapped to frame i of the list, other pages as before. |
| SharedMemory.Shmem.ExhaustedMeans | kernel/memory/shmem/shmem.cpp:31-53 | There is no place for a new region exactly when all sixteen are in use, when its pages are more than the frames not taken, or more than the pages left below 0xFFFFF000. |
| SharedMemory.RemovedAgain | kernel/memory/shmem/shmem.cpp:73-83 | Removing a region just entered gives back exactly its frames. |
| SharedMemory.CreateClose | kernel/memory/shmem/shmem.cpp:31-83 | Create followed by close restores the bitmap and the counter. |
| SharedMemory.CreateOpen | kernel/memory/shmem/shmem.cpp:31-71 | Create under a new name followed by open gives the same address exactly for names of fewer than 32 characters, and 0 otherwise. |
| SharedMemory.AllocBeside | kernel/memory/vmm/vmm.cpp:11-26 | Other page allocations keep the regions. |
| SharedMemory.FreeBeside | kernel/memory/vmm/vmm.cpp:28-33 | So does freeing a page outside every region. |
| Pipes.RingDrop | kernel/system/ipc/fd.cpp:125-129 | Advancing the read position drops the oldest byte, also round the end. |
| Pipes.RingAdd | kernel/system/ipc/fd.cpp:160-164 | Writing at the write position appends a byte, also round the end. |
| Pipes.Pipe.Take | kernel/system/ipc/fd.cpp:120-132 | Hands out the oldest bytes; read bytes followed by ring contents are all accepted bytes. |
| Pipes.Pipe.Put | kernel/system/ipc/fd.cpp:155-167 | Accepts as many bytes as there is room for, in order. |
| Descriptors.MakeEnds | kernel/system/ipc/fd.cpp:52-59 | Entering both ends starts a pipe's life with one reader and one writer. |
| Descriptors.MakeKeeps | kernel/system/ipc/fd.cpp:52-59 | Every other pipe's life goes on as it was. |
| Descriptors.CloseKeeps | kernel/system/ipc/fd.cpp:181-205 | After closing an end a pipe is in use exactly if the other end is open, and its write side is closed exactly if the writer is gone. |
| Descriptors.OtherEnd | kernel/system/ipc/fd.cpp:185-203 | Closing one end removes the only one of its kind. |
| Descriptors.FdTable.constructor | kernel/system/ipc/fd.cpp:24-35 | Descriptors 0, 1 and 2 are the standard input, output and error, all others are closed, no pipe is in use. |
| Descriptors.FdTable.PipeInUse | kernel/system/ipc/fd.cpp:41-205 | A pipe is in use exactly while a descriptor is an end of it, one of each kind at most, and its write side is closed exactly when the write end is gone. |
| Descriptors.FdTable.MakePipe | kernel/system/ipc/fd.cpp:41-64 | Succeeds exactly when one of the 8 pipes and two of descriptors 3 to 31 are free; its ends take the two lowest, the pipe starts empty, and no other descriptor or pipe changes; failing changes no table. |
| Descriptors.FdTable.OpenFile | kernel/system/ipc/fd.cpp:66-73 | Enters an opened file in the lowest free descriptor from 3 to 31; fails exactly when none is free, and no other descriptor changes. |
| Descriptors.FdTable.Read | kernel/system/ipc/fd.cpp:103-138 | A read end in use hands out min(n, what is there) oldest bytes of its own pipe; anything else changes no pipe. |
| Descriptors.FdTable.Write | kernel/system/ipc/fd.cpp:140-172 | A write end in use appends min(n, the room left of 512) bytes to its own pipe; anything else changes no pipe. |
| Descriptors.FdTable.Close | kernel/system/ipc/fd.cpp:181-205 | Keeps every pipe's life cycle and empties exactly one descriptor. |
| Descriptors.MakeAndClose | kernel/system/ipc/fd.cpp:41-205 | Closing both ends in either order frees the slot and restores the table. |
| Scheduler.StepValid | kernel/system/sched/sched.cpp:26-168 | Only the current one is ever running, after every event. |
| Scheduler.StepCloser | kernel/system/sched/sched.cpp:141-168 | Every tick brings a ready one closer to its turn. |
| Scheduler.GetsItsTurn | kernel/system/sched/sched.cpp:141-168 | With nothing added and itself not killed, a ready one becomes current within its bound, whatever else happens. |
| Scheduler.WaitBound | kernel/system/sched/sched.cpp:141-168 | The bound is at most 20 ticks for each other one. |
| Scheduler.DeadForGood | kernel/system/sched/sched.cpp:63-66 | One killed while not current is never chosen again. |
| Scheduler.KilledForGood | kernel/system/sched/sched.cpp:63-66 | In every run from start-up: a task killed while it is not current is never current again and stays dead, whatever happens afterwards. |
| Scheduler.NextChosen | kernel/system/sched/sched.cpp:141-158 | Who is next: the first ready one after the current one, going round; the current one if none is ready. |
| Scheduler.TickMeans | kernel/system/sched/sched.cpp:141-168 | Within the quantum a tick counts down; at its end the first ready one going round runs for the next twenty, the one that ran is ready again, and no other state changes; with none ready nothing changes hands. |
| Scheduler.KilledCurrent | kernel/system/sched/sched.cpp:159-165 | One killed while current comes back at the end of its quantum exactly when another is ready, and otherwise stays dead and current. |
| Scheduler.KilledAndRevived | kernel/system/sched/sched.cpp:159-165 | The run from start-up in which that happens: add a second one, kill the first, wait a quantum. |
| Scheduler.SavedOverRun | kernel/system/sched/sched.cpp:26-168 | After any run, what is saved for each one is the stack pointer of its last tick, or its first frame if it had none; kills in between change nothing. |
| Scheduler.HandedOut | kernel/system/sched/sched.cpp:141-168 | After any run from start-up, the stack pointer a switch hands out is the one saved at the last tick of whoever goes on, or its first frame. |
| Scheduler.Sched.constructor | kernel/system/sched/sched.cpp:14-24 | Task 0 runs with twenty ticks left; there is no other. |
| Scheduler.Sched.AddTask | kernel/system/sched/sched.cpp:26-57 | Adds a ready one behind the others, whose stack holds the thirteen words of its first frame, and writes no other stack word; fails exactly when four exist. |
| Scheduler.Sched.KillCurrentTask | kernel/system/sched/sched.cpp:59-61 | The current one is dead; every other state, every saved stack pointer and the rest stay. |
| Scheduler.Sched.KillTask | kernel/system/sched/sched.cpp:63-66 | The numbered one is dead if it exists; every other state, every saved stack pointer and the rest stay; a number out of range changes nothing. |
| Scheduler.Sched.TimerTick | kernel/system/sched/sched.cpp:141-168 | Saves the interrupted stack pointer; at a switch, returns what the last tick of whoever goes on saved, or its first frame, whatever happened since start-up; the states change as a tick changes them. |
| Division.DivisionIsUnique | kernel/system/libgcc_stubs.cpp:18-44 | What is left after taking out multiples is the quotient and remainder. |
| Division.ShiftedIsProduct | kernel/system/libgcc_stubs.cpp:26-29 | The normalised divisor is the divisor times the quotient bit. |
| Division.UDivMod | kernel/system/libgcc_stubs.cpp:18-44 | Quotient and remainder for every 64-bit numerator and divisor; both loops end and no bit is shifted out. |
| Division.UDiv | kernel/system/libgcc_stubs.cpp:46-48 | The quotient, 0 for divisor 0. |
| Division.UMod | kernel/system/libgcc_stubs.cpp:50-54 | The remainder, 0 for divisor 0. |
| Numbers.DigitsValue | kernel/klib/printf.hpp:25-36 | Reading back a numeral gives the number. |
| Numbers.DigitsLook | kernel/klib/printf.hpp:25-36 | A numeral has only characters of its base, in the asked case, and no leading zero. |
| Numbers.NumeralUnique | kernel/klib/printf.hpp:25-36 | A text of decimal digits without a leading zero is the numeral of its value. |
| Numbers.TwentyDigits | kernel/klib/printf.hpp:26 | Twenty digits are enough for 64 bits, so 21 places suffice. |
| Numbers.SignedLength | kernel/klib/printf.hpp:38-41 | Twenty characters are enough for a signed 64-bit number. |
| Numbers.DigitsBackwards | kernel/klib/printf.hpp:29-33 | Collects the digits in reverse inside the buffer. |
| Numbers.FmtUnsigned | kernel/klib/printf.hpp:25-36 | Writes the numeral and nothing else. |
| Numbers.FmtSigned | kernel/klib/printf.hpp:38-41 | Writes the sign and the magnitude, the least number included. |
| Numbers.LeadingMore | kernel/klib/str.h:71-75 | A prefix over the limit stays over it. |
| Numbers.StrToInt | kernel/klib/str.h:68-77 | The signed value of the leading digits, cut off at the 32-bit limits. |
| Numbers.StrToHex | kernel/klib/str.h:78-89 | The value of the leading hexadecimal digits, at most 32 bits. |
| Numbers.IntOfMeans | kernel/klib/str.h:68-77 | With k digits behind an optional minus: their value, negated after a minus, cut off at 2147483647 and -2147483648. |
| Numbers.HexOfMeans | kernel/klib/str.h:78-89 | With k hexadecimal digits of either case behind an optional 0x or 0X: their value, at most 4294967295. |
| Numbers.IntRoundTrip | kernel/klib/str.h:68-77 | Printing and parsing any 32-bit integer gives it back. |
| Numbers.HexRoundTrip | kernel/klib/str.h:78-89 | So does hexadecimal, in either case. |
| Formatting.FieldMeaning | kernel/klib/printf.hpp:13-23 | A field is as wide as asked or as its text, with the text at one end and padding at the other. |
| Formatting.RenderConcat | kernel/klib/printf.hpp:43-108 | Formats compose: two formats one after the other print the first text and then the second with the arguments left over. |
| Formatting.PrintAndParse | kernel/klib/printf.hpp:43-112 | Any 32-bit integer printed with %d and parsed is itself. |
| Formatting.NumberDirective | kernel/klib/printf.hpp:51-88 | For d, i, u, x and X with any flags, width and ll: the printed text is a numeral without leading zeros, of the digits of base ten (u) or sixteen in the right case (x, X), whose value is the argument, modulo 2^32 unless ll; for d and i the sign and magnitude; it stands at one end of a field of the width, padded with spaces or zeros. |
| Formatting.TextDirective | kernel/klib/printf.hpp:89-95 | s prints the string, or "(null)", at one end of its field. |
| Formatting.PlainDirective | kernel/klib/printf.hpp:96-105 | c prints the character, a percent sign itself, and an unknown letter a percent sign and the letter; flags and width count for nothing. |
| Formatting.PlainText | kernel/klib/printf.hpp:43-50 | Text without a percent sign is printed as it is. |
| Formatting.Unsigned512 | kernel/klib/printf.hpp:73-77 | "%u" of 512 is "512". |
| Formatting.PutChar | kernel/klib/printf.hpp:8-11 | Appends a character to the text, in the buffer only while it fits. |
| Formatting.PutField | kernel/klib/printf.hpp:13-23 | Appends a text filled up to the width. |
| Formatting.ParseSpec | kernel/klib/printf.hpp:51-63 | Reads flags, width and length modifier. |
| Formatting.FormatNumber | kernel/klib/printf.hpp:68-88 | The text put into the buffer is the numeral of the argument in the base, case and width of the conversion letter: only such digits, no leading zero, and the argument as its value, modulo 2^32 unless ll. |
| Formatting.PutDirective | kernel/klib/printf.hpp:68-106 | Appends what one directive prints. |
| Formatting.VsPrintf | kernel/klib/printf.hpp:43-112 | Never writes past the capacity, always terminates, and leaves the first cap-1 characters of the unlimited output. |

## Left out

- ATA ports and their failures: the disk is a sector array that always reads and writes, as the driver assumes.
- Disk or power failure in the middle of an operation.
- Deleting a file that is open, and opening a file twice: the contracts of `Delete` and `Open` promise the invariant only otherwise.
- Entries with a low attribute bit set, long-name entries, names that start with a dot or byte 0xE5: the driver skips them or produces them by accident, and operations on such names promise nothing here.
- Renaming into another directory, which the driver declares unsupported.
- What later operations do once a directory has grown past 10000 slots with an entry behind them: `Create` and `Mkdir` say that the entry is out of reach of every scan, and the invariant is not promised from there on.
- A third FAT copy, which the driver never writes.
- fat12_ls and the display form of names.
- Byte counts above the range of a C int, where the driver's casts overflow.
- Interrupt masking: the modelled operations are not interrupted, as the kernel arranges with cli and sti.
- Heap.Kmalloc.Realloc: requests above 0xFFFFFFF8 for a live pointer that are granted. They round to an empty block (`Heap.AlignedCovers`), into which the code copies the whole old payload; what the heap holds after that overrun is not described. Where there is no room, the contract includes them.
- Heap pointers that no call returned, and giving a block back twice.
- Frames.Pmm.Init: memory regions that reach beyond 4 GB, where the 32-bit kernel truncates addresses.
- The translation cache, and switching paging on.
- The bitmap's place inside RAM: the bitmap and the RAM bytes are separate arrays, `Placement` says where they lie.
- Virtual ranges that reach the frame buffer mapping: an issued page simply replaces such a mapping.
- Console, keyboard and serial input and output behind the standard descriptors: their results are parameters.
- Descriptors.FdTable.Read: what console and file reads put into the destination; they are the keyboard's and the FAT driver's, whose return value is a parameter (`Driver.Fat12.Read` has the file's).
- fd_create, fd_create_case, fd_flush and fd_size: thin forwarding to the FAT driver.
- sched_test, sched_yield and sched_current_task.
- Numbers.StrToInt: negating the least 32-bit integer overflows a C int; the product is taken modulo 2^32.
- Formatting.VsPrintf: widths and positions beyond the range of a C int, formats that break off inside a directive, and arguments of the wrong type.
- memcpy, memset, ELF loading, graphics, the shell and system calls.
