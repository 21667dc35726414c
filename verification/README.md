# Khazar OS kernel: verified models of its linked and indexed state

Khazar OS is a small 32-bit kernel written in C. This project models the parts of it that keep linked or
indexed state, in Dafny, and proves that each of them behaves as something much simpler:

- the **FAT32 volume** over raw sectors behaves as a FAT array and a cluster array (`FatDisk`), those as
  disjoint chains and slot tables (`FatChain`, `FatDir`, `FatTree`), and a whole run of file operations as
  operations on a map from paths to byte sequences (`FatPath`, `FatRun`, `Fat32`; `FatName` has the
  8.3 names);
- the **kernel heap**, a doubly linked block list in memory, behaves as a map from live pointers to sizes
  (`KHeap`);
- the **frame allocator** hands out each frame once (`Pmm`), and over it the two-level **page tables**
  behave as flat maps, isolated from each other below the kernel base (`Vmm`);
- the **scheduler** ring is fair (`Scheduler`);
- the **RTL8169 receive ring** is a bounded queue under every interleaving with the NIC (`RxRing`);
- the **IPv4 checksum** is the one's-complement sum of RFC 1071 (`Checksum`), and a UDP datagram sent to
  this machine comes back unchanged (`Loopback`);
- **Bresenham lines** paint the points nearest to the ideal line (`Line`);
- the **window list** is a sequence with move-to-front (`WindowList`).

State that the C code changes in place is a class field or an array here, and each loop of the source is a
loop with its invariants. Ghost fields (`vol`, `tree`, `list`, `live`, `pending`, ...) hold the simple
view; `Valid()` ties them to the concrete fields, and every operation is specified through them. Where
a whole run is at stake there is a method (`Run`, `Rounds`, `Lifecycle`, `FreeAll`, `Echo`) that goes
through an arbitrary sequence of operations and returns its history, each entry tied to the operation that
led to it.

Sources followed besides the code: sections 4 and 6 of the Microsoft FAT Specification, section 4.3 of
the Intel SDM volume 3A, section 1 of RFC 1071, section 3.1 of RFC 791 and RFC 768.

## What the code does not do

Some properties one might expect hold only under a condition. The code is modelled as it is, and the exact
condition is proved:

- A read whose offset and size add up to 2^32 or more is not cut at the file's length: `FatTree.ReadIsContent`,
  with an instance in `FatTree.ReadPastEnd`. A write that ends there leaves a wrong length:
  `FatTree.StoredContent`.
- `fat32_vfs_finddir` does not skip deleted slots. A name whose stored form begins with byte 0xE5 finds the
  deleted slot with the same other ten bytes, and through it a cluster that is free or belongs to something
  else by now: `FatDir.FindAgrees`, `FatDir.DeletedIsFound`, `FatTree.DeletedNamesFree`, with an instance in
  `FatTree.DeletedAbc`. If that is a directory, the invariant of `Fat32.Volume.Run` fails for writes through
  such a node (`FatTree.StaleWriteBreaks`), so names that are looked up to be followed, read or written must
  not begin with that byte; names that are created or unlinked may.
- A file created under such a name is found by finddir but not by unlink, so its clusters are lost:
  `FatDir.CreatedIsFound`, `Fat32.Volume.Lifecycle`.
- `fat32_vfs_write` does not look at the kind of its node: a write to a directory overwrites its slot table.
  `Fat32.Volume.Write` says what it does, and `Fat32.Volume.WriteIntoDir` is a run after which no reading of the
  volume is well formed. `Fat32.Volume.Run` goes up to the first such write, which a caller can tell from
  the node's flags.
- Two nodes of one file do not know of each other's length: a write through the one that is out of date leaves
  the wrong size on disk exactly when it ends between the two lengths: `FatTree.StaleSize`, with an
  instance in `FatTree.StaleShrinks`.
- Create does not look for the name. A second entry hides the first or is hidden by it: `FatDir.DuplicateHides`.
- After unlinking, a name is gone exactly when no second live slot carried it: `FatDir.UnlinkIsRemove`.
- Unlinking a directory, which the source allows even when it is not empty, frees only its own cluster. The
  volume stays well formed (`FatTree.UnlinkDir`), but everything below keeps its clusters with no path leading to
  it: `FatPath.LostBelow`.
- A node without a first cluster can be written, but no directory ever records it:
  the last clause of `Fat32.Volume.Write`.
- An 8.3 name with a space before another character does not survive printing and parsing:
  `FatName.PrintRoundTrip`, `FatName.InnerSpaceIsLost`.
- A request above 0xFFFFFFF8 bytes wraps to a block smaller than asked for: `KHeap.Heap.Malloc`.
- Freeing the kernel directory or the current one leaves it in use without its frame:
  `Vmm.AddressSpaces.FreeDirectory`.
- With no runnable thread, the scheduler sets a blocked thread running unless the next one has
  terminated: `Scheduler.Scheduler.Schedule`.
- UDP payloads from 65528 bytes on pass the length check and overrun the buffer: `Loopback.Stack.Send`.
- A checksum cannot tell a word 0 from 0xFFFF: `Checksum.ChangedWordDetected`.

## Model

| member | source | states |
|---|---|---|
| FatName.Format | kernel/fs/fat32/fat32.c:141-159 | the three loops compute the base before the first dot and what follows it, upper-cased, cut and space-padded to 8 and 3 bytes |
| FatName.PrintName | kernel/fs/fat32/fat32.c:455-462 | the loops print each field up to its first space, with a dot only before a non-blank extension |
| FatName.NormalShape | kernel/fs/fat32/fat32.c:141-159 | a stored name has no dot in its base, no lower-case letter and no NUL at its start, so it never equals a dot entry |
| FatName.NormalBytes | kernel/fs/fat32/fat32.c:141-159 | a stored name byte by byte: which byte of the name each is, capital letters for small ones, spaces elsewhere |
| FatName.CaseIgnored | kernel/fs/fat32/fat32.c:141-159 | names that differ only in case are stored alike |
| FatName.PrintRoundTrip | kernel/fs/fat32/fat32.c:141-159 | printing a stored name and normalising again is the identity if and only if no field has a non-space after a space |
| FatName.SpacelessRoundTrip | kernel/fs/fat32/fat32.c:455-463 | every name without spaces survives the round trip |
| FatName.InnerSpaceIsLost | kernel/fs/fat32/fat32.c:455-463 | a name for which the round trip fails |
| FatDir.MakeSlot | kernel/fs/fat32/fat32.c:188-193 | the 32 bytes written decode to the name, attribute, start cluster and size given |
| FatDir.MakeSlotBytes | kernel/fs/fat32/fat32.c:188-193 | which bytes these are, one by one |
| FatDir.SlotBytes | kernel/include/fs/fat32.h:42-55 | which bytes of a slot give start cluster and size, low byte first, and which bit marks a directory |
| FatDir.PutSlot | kernel/include/fs/fat32.h:42-55 | overwriting 32 bytes of a directory cluster updates exactly one slot of its table |
| FatDir.CreateIsInsert | kernel/fs/fat32/fat32.c:161-202 | filling a free slot with an absent name adds one binding to the directory's map |
| FatDir.DuplicateHides | kernel/fs/fat32/fat32.c:177-193 | creating a name that is there already: which of the two entries is found |
| FatDir.FindAgrees | kernel/fs/fat32/fat32.c:496-498 | what finddir finds is the live entry if and only if the name does not begin with 0xE5 or no slot carries it |
| FatDir.DeletedIsFound | kernel/fs/fat32/fat32.c:496-498 | a deleted slot is still found, under the name the deletion mark has made of its own, though no live slot has it |
| FatDir.CreatedIsFound | kernel/fs/fat32/fat32.c:496-498 | a new name is found by finddir, and among the live slots if and only if it does not begin with 0xE5 |
| FatDir.UnlinkIsRemove | kernel/fs/fat32/fat32.c:542-556 | deleting a slot keeps all other names, and its own disappears if and only if it was unique |
| FatDir.TailKept | kernel/fs/fat32/fat32.c:177-181 | create, resize and delete keep all slots after the first unused one unused |
| FatDisk.LbaApart | kernel/fs/fat32/fat32.c:84-86 | different clusters occupy disjoint sector ranges, computed without 32-bit wrap-around |
| FatDisk.ClusterBytes | kernel/fs/fat32/fat32.c:84-86 | byte j of cluster c is byte j % 512 of sector reserved + fats * fat size + (c - 2) * sectors per cluster + j / 512 |
| FatDisk.PutClusterSectors | kernel/fs/fat32/fat32.c:84-86 | writing a cluster writes exactly these sectors |
| FatDisk.EntryBytes | kernel/fs/fat32/fat32.c:89-104 | entry c of copy i is the low 28 bits of four bytes, low byte first, at (c % 128) * 4 of sector reserved + i * fat size + c / 128 |
| FatDisk.PutEntryBytes | kernel/fs/fat32/fat32.c:107-127 | patching an entry writes exactly these four bytes, the upper four bits as 0 |
| FatDisk.PutEntryReads | kernel/fs/fat32/fat32.c:107-127 | patching four bytes of one FAT copy changes that entry of that copy and no other |
| FatDisk.PutEntryKeepsClusters | kernel/fs/fat32/fat32.c:107-127 | patching a FAT sector changes no cluster |
| FatDisk.PutClusterHolds | kernel/fs/fat32/fat32.c:84-86 | writing a cluster's sectors updates one cluster and no FAT entry of any copy |
| FatDisk.CopiesAgree | kernel/fs/fat32/fat32.c:106-127 | on a disk that holds a volume all FAT copies agree entry by entry, and the volume is unique |
| FatDisk.DiskHolds | kernel/fs/fat32/fat32.c:89-104 | every large enough disk whose FAT copies agree holds a volume |
| FatChain.ExtendChain | kernel/fs/fat32/fat32.c:415-421 | linking a free cluster behind the end of a chain gives a complete, repeat-free chain |
| FatChain.RawAt | kernel/fs/fat32/fat32.c:351-365 | where a chain's clusters sit in its byte sequence |
| FatChain.RawPut | kernel/fs/fat32/fat32.c:399-413 | patching one cluster of a chain patches its byte sequence at the matching offset |
| FatChain.FreeFromChain | kernel/fs/fat32/fat32.c:562-568 | from the head of a chain the freeing loop clears exactly that chain |
| FatChain.FreesReachable | kernel/fs/fat32/fat32.c:562-568 | on every FAT, cyclic or not, the freeing loop ends and clears exactly the entries reachable from its start |
| FatTree.FormattedHolds | kernel/fs/fat32/fat32.c:51-56 | every formatted disk holds a well-formed volume: an empty root directory and all other clusters free |
| FatTree.FormattedExists | kernel/fs/fat32/fat32.c:51-56 | there is such a disk for every geometry that 32-bit sector numbers can address |
| FatTree.FreeOutsideChains | kernel/fs/fat32/fat32.c:130-139 | on a well-formed volume no chain holds a free cluster |
| FatTree.AddChain | kernel/fs/fat32/fat32.c:130-139 | taking a free cluster keeps all chains complete and disjoint |
| FatTree.AddFile | kernel/fs/fat32/fat32.c:297-306 | creating a file keeps the invariant, and the entry names its chain |
| FatTree.AddSubdir | kernel/fs/fat32/fat32.c:573-607 | creating a directory keeps the invariant |
| FatTree.UnlinkFile | kernel/fs/fat32/fat32.c:542-571 | unlinking a file keeps the invariant |
| FatTree.UnlinkDir | kernel/fs/fat32/fat32.c:542-571 | unlinking a directory, empty or not, keeps the invariant: its subtree no longer counts as directories |
| FatTree.UnlinkFrees | kernel/fs/fat32/fat32.c:562-568 | unlinking gives the file's whole chain back, and nothing else |
| FatTree.DeletedNamesFree | kernel/fs/fat32/fat32.c:496-507 | the deleted slot that finddir still finds names a free cluster |
| FatTree.StaleWriteBreaks | kernel/fs/fat32/fat32.c:399-410 | bytes over a directory's cluster that look like an entry for a free cluster break the invariant, for every reading in which some directory lists that cluster as a directory |
| FatTree.DeletedAbc | kernel/fs/fat32/fat32.c:548 | an instance: the name that a deleted ABC answers to |
| FatTree.GrowFile | kernel/fs/fat32/fat32.c:383-424 | growing a chain by free clusters keeps the invariant and every directory |
| FatTree.ReadIsContent | kernel/fs/fat32/fat32.c:330-334 | a read returns the range of the content asked for if and only if the 32-bit sum does not wrap, or nothing is asked for, or the content fills its clusters |
| FatTree.ReadPastEnd | kernel/fs/fat32/fat32.c:334 | an instance: a ten-byte file read to the end of its clusters |
| FatTree.StoredContent | kernel/fs/fat32/fat32.c:371-434 | after a write at an offset up to the length, the content is the old content overlaid with the bytes written if and only if these end below 2^32 |
| FatTree.StaleSize | kernel/fs/fat32/fat32.c:428-431 | through a node whose length is out of date, the recorded size is right if and only if the write does not end between the two lengths |
| FatTree.StaleShrinks | kernel/fs/fat32/fat32.c:428-431 | an instance: 100 bytes through one node, 10 through another, and the entry says 10 |
| FatTree.StoredOthers | kernel/fs/fat32/fat32.c:371-434 | every other file keeps its clusters and its content |
| FatTree.StoredFree | kernel/fs/fat32/fat32.c:371-424 | the free set shrinks by exactly the clusters the file gained |
| FatPath.PathsDiffer | kernel/fs/fat32/fat32.c:487-522 | different paths lead to different directories |
| FatPath.CreateView | kernel/fs/fat32/fat32.c:297-327 | creating an absent name adds one empty file to the map from paths to contents |
| FatPath.MkdirView | kernel/fs/fat32/fat32.c:573-628 | creating a directory under an absent name adds one directory to that map |
| FatPath.WriteView | kernel/fs/fat32/fat32.c:371-434 | a write changes the content at one path of the map |
| FatPath.UnlinkView | kernel/fs/fat32/fat32.c:524-571 | unlinking an entry under a unique name removes its path and everything below it from the map |
| FatPath.LostBelow | kernel/fs/fat32/fat32.c:562-568 | what lay below an unlinked directory keeps its whole chain, and no path of the new map leads to it |
| FatRun.RunRefines | kernel/fs/fat32/fat32.c:297-628 | over every run of tame operations the volume is the map that an ideal file system arrives at, and every answer and every read is the ideal one |
| FatRun.FormattedMap | kernel/fs/fat32/fat32.c:51-56 | a formatted disk is the map with nothing but its root, from which such runs can start |
| Fat32.Volume.Mount | kernel/fs/fat32/fat32.c:51-56 | over any disk that holds a well-formed volume the driver starts well formed |
| Fat32.Volume.GetFatEntry | kernel/fs/fat32/fat32.c:89-104 | reads the FAT array |
| Fat32.Volume.SetFatEntry | kernel/fs/fat32/fat32.c:107-127 | patches the entry in all copies and nothing else on the disk; one element of the FAT array changes, and no cluster |
| Fat32.Volume.AllocateCluster | kernel/fs/fat32/fat32.c:130-139 | takes the least free cluster, and fails exactly when there is none |
| Fat32.Volume.FreeChain | kernel/fs/fat32/fat32.c:562-568 | the loop terminates whenever links stay inside the table, and computes FreeFrom |
| Fat32.Volume.CreateEntry | kernel/fs/fat32/fat32.c:161-202 | fills the first unused or deleted slot; fails exactly when all are live |
| Fat32.Volume.UpdateEntrySize | kernel/fs/fat32/fat32.c:267-284 | the first live slot with this start cluster gets the size, nothing else changes |
| Fat32.Volume.ReadChain | kernel/fs/fat32/fat32.c:336-368 | copies exactly the requested range of the chain's bytes, to the end of the chain at most |
| Fat32.Volume.Read | kernel/fs/fat32/fat32.c:329-369 | for every 32-bit offset and size, what is returned, and exactly when it is the range of the content asked for |
| Fat32.Volume.WriteChain | kernel/fs/fat32/fat32.c:383-424 | lays the buffer over the chain's bytes, for every offset, growing the chain only as far as needed; fewer bytes are written only when the disk is full, and then the chain is filled to its end |
| Fat32.Volume.Write | kernel/fs/fat32/fat32.c:371-434 | the whole effect of a write on FAT, clusters and directory entry, for every 32-bit offset and size, through nodes that agree with their entry, nodes out of date, nodes without an entry, and directories |
| Fat32.Volume.WriteThenRead | kernel/fs/fat32/fat32.c:329-434 | a read after a write returns a range of the new content, which is the spliced one if and only if the write ends below 2^32 |
| Fat32.Volume.FindDir | kernel/fs/fat32/fat32.c:487-522 | for every name, the first slot that carries it before the first unused one; exactly when this is the live entry; the node found then agrees with it |
| Fat32.Volume.NewEntry | kernel/fs/fat32/fat32.c:300-306 | takes a cluster and enters it; a full directory gives the cluster back and leaves the volume as it was |
| Fat32.Volume.Create | kernel/fs/fat32/fat32.c:297-327 | fails exactly when disk or directory is full, and then changes nothing; else one file is added to map and chains |
| Fat32.Volume.Mkdir | kernel/fs/fat32/fat32.c:573-628 | the same for a directory with its dot entries |
| Fat32.Volume.Unlink | kernel/fs/fat32/fat32.c:524-571 | of a file or a directory: succeeds exactly when the name is in the map; removes the slot found, frees its chain and keeps the volume well formed |
| Fat32.Volume.Apply | kernel/fs/fat32/fat32.c:297-628 | one operation by path, except a write to a directory: fails exactly when there is no room or nothing at the path, and has the effect on the map that the ideal file system has |
| Fat32.Volume.Run | kernel/fs/fat32/fat32.c:297-628 | every run of create, mkdir, write, read and unlink, up to the first write to a directory, keeps chains complete, disjoint and off the free set, the FAT copies equal and all sectors outside FATs and clusters untouched, and refines the map from paths to contents |
| Fat32.Volume.WriteIntoDir | kernel/fs/fat32/fat32.c:371-434 | mkdir and a 32-byte write to the new directory: no reading of the result from the same root is well formed |
| Fat32.Volume.Lifecycle | kernel/fs/fat32/fat32.c:297-571 | create, any writes, unlink restore the directory's map, and the free-cluster set if and only if the name does not begin with 0xE5; otherwise which clusters are lost |
| KHeap.Round | kernel/mm/allocator/kheap.c:50-51 | the rounded size covers the request if and only if the request is at most 0xFFFFFFF8 |
| KHeap.AllocExact | kernel/mm/allocator/kheap.c:54-77 | exactly how a block is split, and when it is taken whole |
| KHeap.AllocTiles | kernel/mm/allocator/kheap.c:54-77 | allocation keeps the tiling and leaves no two free neighbours |
| KHeap.ReleaseTiles | kernel/mm/allocator/kheap.c:99-118 | freeing keeps the tiling and leaves no two free neighbours |
| KHeap.AllocReleaseIsIdentity | kernel/mm/allocator/kheap.c:47-119 | freeing the block just allocated restores the list |
| KHeap.AllFree | kernel/mm/allocator/kheap.c:101-118 | a heap with nothing in use is its single initial block |
| KHeap.LivePayloadsApart | kernel/mm/allocator/kheap.c:47-81 | live payloads lie inside the heap and do not overlap |
| KHeap.AllocDescribes | kernel/mm/allocator/kheap.c:47-81 | allocation adds exactly one live pointer, new, and keeps all others with their sizes |
| KHeap.ReleaseDescribes | kernel/mm/allocator/kheap.c:99-118 | freeing removes exactly one live pointer |
| KHeap.InsertHolds | kernel/mm/allocator/kheap.c:57-71 | the split's pointer writes keep next and prev inverse |
| KHeap.RemoveHolds | kernel/mm/allocator/kheap.c:103-118 | the joins' pointer writes keep next and prev inverse |
| KHeap.Heap.constructor | kernel/mm/allocator/kheap.c:36-42 | one free block that fills the heap |
| KHeap.Heap.Malloc | kernel/mm/allocator/kheap.c:47-81 | first fit; fails exactly when the request is empty or no free block holds the rounded size; exactly how many bytes the pointer gets |
| KHeap.Heap.Free | kernel/mm/allocator/kheap.c:83-119 | for every pointer ever returned: a live one is released, any other changes nothing, also when its block has been merged into another |
| KHeap.Heap.MallocFree | kernel/mm/allocator/kheap.c:47-119 | kfree of a just-returned pointer restores the block list |
| KHeap.Heap.Run | kernel/mm/allocator/kheap.c:47-119 | any sequence of allocations and frees, double frees included, keeps the heap well formed, and every request has exactly its effect on block list, live pointers and pointers returned |
| KHeap.Heap.FreeAll | kernel/mm/allocator/kheap.c:83-119 | freeing all live pointers in any order leaves the single initial block |
| Pmm.SetBitReads | kernel/mm/allocator/pmm.c:11-13 | setting a bit sets it and no other |
| Pmm.ClearBitReads | kernel/mm/allocator/pmm.c:15-17 | clearing a bit clears it and no other |
| Pmm.BitSplit | kernel/mm/allocator/pmm.c:11-17 | bits are binary digits |
| Pmm.FrameAllocator.constructor | kernel/mm/allocator/pmm.c:38-49 | every whole byte of the map is set, and the counter is the number of blocks |
| Pmm.FrameAllocator.FindFirstFree | kernel/mm/allocator/pmm.c:24-35 | the least free block of the full words, -1 exactly when there is none |
| Pmm.FrameAllocator.AllocBlock | kernel/mm/allocator/pmm.c:77-87 | takes that block; counter and population move together |
| Pmm.FrameAllocator.FreeBlock | kernel/mm/allocator/pmm.c:90-96 | frees one block; for a taken one counter and population move together |
| Pmm.FrameAllocator.InitRegion | kernel/mm/allocator/pmm.c:52-63 | the region becomes free, block 0 stays taken; what the counter becomes |
| Pmm.FrameAllocator.DeinitRegion | kernel/mm/allocator/pmm.c:66-74 | the region becomes taken; what the counter becomes |
| Pmm.FrameAllocator.Run | kernel/mm/allocator/pmm.c:77-96 | over every run each request hands out the least free block or gives one back; no outstanding block is handed out twice, nothing taken at the start is handed out, and the counter's drift is constant |
| Vmm.MakeEntry | kernel/mm/paging/vmm.c:58-64 | an entry is present and decodes to the frame of the address, aligned or not |
| Vmm.EntryBits | kernel/mm/paging/vmm.c:58-64 | an entry bit by bit: the flags and the present bit below bit 12, the address above |
| Vmm.PutTableEntry | kernel/mm/paging/vmm.c:63-64 | writing a table entry changes one word, in exactly the directories that use the table |
| Vmm.AddTable | kernel/mm/paging/vmm.c:51-58 | linking a new table changes one directory word and no translation |
| Vmm.AddClone | kernel/mm/paging/vmm.c:113-132 | a clone has the kernel's words above the base, none below, and disturbs no directory |
| Vmm.DropDir | kernel/mm/paging/vmm.c:134-148 | without its own blocks the remaining directories stay well formed |
| Vmm.SharedTablesAgree | kernel/mm/paging/vmm.c:122-129 | directories that share a table agree on its words |
| Vmm.SharingLasts | kernel/mm/paging/vmm.c:43-148 | over every run a table that two lasting directories share stays shared |
| Vmm.SpacesIsolated | kernel/mm/paging/vmm.c:43-148 | over every run that maps below the base only, a lasting directory that is never current keeps all its words |
| Vmm.AddressSpaces.constructor | kernel/mm/paging/vmm.c:11-20 | an empty kernel directory |
| Vmm.AddressSpaces.MapKernel | kernel/mm/paging/vmm.c:24-32 | the kernel's map after both loops: the first megabyte, the window of 128 megabytes, nothing else, all present and writable |
| Vmm.AddressSpaces.MapPage | kernel/mm/paging/vmm.c:43-70 | updates exactly one page of the flat map; the word written bit by bit, and that of a table newly linked; no other word changes; fails exactly when a table is missing and no frame is left, then changing nothing |
| Vmm.AddressSpaces.UnmapPage | kernel/mm/paging/vmm.c:72-84 | clears exactly one word |
| Vmm.AddressSpaces.SwitchDirectory | kernel/mm/paging/vmm.c:86-90 | only the current directory changes |
| Vmm.AddressSpaces.GetPhys | kernel/mm/paging/vmm.c:92-107 | reads the flat map |
| Vmm.AddressSpaces.Run | kernel/mm/paging/vmm.c:43-148 | any run of map, unmap, switch, clone and free: each operation has exactly its effect on all words, flags included, shared kernel tables stay shared, and directories that are never current stay isolated |
| Vmm.AddressSpaces.CloneDirectory | kernel/mm/paging/vmm.c:113-132 | the clone has the kernel's words from entry 768 on, sharing every table present, and all other directories are unchanged |
| Vmm.AddressSpaces.FreeDirectory | kernel/mm/paging/vmm.c:134-148 | gives back exactly the directory and its tables below the base; the state stays well formed if and only if it was neither the kernel's nor the current one |
| Scheduler.PickedWithin | kernel/proc/scheduler/scheduler.c:67-92 | a thread that stays runnable is picked within its ring distance, whatever the others do |
| Scheduler.Scheduler.AddThread | kernel/proc/scheduler/scheduler.c:25-37 | the ring stays circular, the thread goes last, the order is kept |
| Scheduler.Scheduler.SetCurrent | kernel/proc/scheduler/scheduler.c:9-13 | the new current thread and ring, and exactly when the ring is well formed |
| Scheduler.Scheduler.QueueSize | kernel/proc/scheduler/scheduler.c:74-82 | counts the ring |
| Scheduler.Scheduler.SkipUnrunnable | kernel/proc/scheduler/scheduler.c:84-92 | stops at the first runnable thread, or after one round |
| Scheduler.Scheduler.Schedule | kernel/proc/scheduler/scheduler.c:67-105 | picks the first runnable thread after the current one; what happens when there is none |
| Scheduler.Scheduler.Rounds | kernel/proc/scheduler/scheduler.c:67-105 | over consecutive calls every pick is the first runnable thread after the one before, and a thread that stays runnable is picked within ring-size calls |
| RxRing.NoneLostOrRepeated | kernel/drivers/net/rtl8169.c:184-208 | over every sequence of steps of the bounded queue frames come out in order, none lost or repeated, each cut to its limit, and every arrival is accepted or refused |
| RxRing.Ring.constructor | kernel/drivers/net/rtl8169.c:86-96 | the exact command words: all descriptors belong to the NIC, with their buffer size, end of ring on the last only |
| RxRing.Ring.NicFill | kernel/drivers/net/rtl8169.c:187-191 | the device's side of the protocol: a frame is accepted exactly when a descriptor is free and says that its buffer is large enough |
| RxRing.Ring.ReadCommand | kernel/drivers/net/rtl8169.c:187-195 | finds a packet exactly when one is pending, and its length cut to maxlen, from which bits of the word |
| RxRing.Ring.CopyPacket | kernel/drivers/net/rtl8169.c:197 | copies the oldest pending frame |
| RxRing.Ring.Restore | kernel/drivers/net/rtl8169.c:199-206 | gives the oldest frame's descriptor back with the exact command word and goes on to the next; no other word changes |
| RxRing.Ring.Receive | kernel/drivers/net/rtl8169.c:184-208 | returns the oldest frame cut to maxlen and gives its descriptor back with the exact command word |
| RxRing.Ring.Run | kernel/drivers/net/rtl8169.c:184-208 | under every interleaving of arrivals with the three steps of receive calls, the frames accepted, refused, returned and pending are those of the bounded queue; the descriptors without OWN are the cyclic interval between the two positions |
| Checksum.Compute | kernel/net/ipv4/ipv4.c:42-54 | the complement of the word sum's one's-complement value, congruent to it modulo 65535 and all ones only for all zeros; the accumulator stays below 2^32 and folding ends |
| Checksum.SumGrows | kernel/net/ipv4/ipv4.c:45-50 | the word sum two bytes at a time, low byte first, and an odd last byte on its own |
| Checksum.FoldKeeps | kernel/net/ipv4/ipv4.c:51-52 | one fold keeps the one's-complement value |
| Checksum.StoredChecksumVerifies | kernel/net/ipv4/ipv4.c:82-85 | storing the checksum in its zeroed field makes a recomputation give 0 |
| Checksum.ChangedWordDetected | kernel/net/ipv4/ipv4.c:42-54 | exactly which changes of one word go unnoticed |
| Loopback.BswapTwice | kernel/net/ipv4/ipv4.c:57 | swapping twice is the identity |
| Loopback.SwapIsNetwork | kernel/net/ipv4/ipv4.c:57 | a loaded and swapped number is its first byte times 256 plus its second |
| Loopback.NetworkBytes | kernel/net/ipv4/ipv4.c:57 | a swapped and stored number is its high byte, then its low byte |
| Loopback.UdpHeader | kernel/net/udp/udp.c:50-53 | the eight bytes of the header |
| Loopback.IpHeader | kernel/net/ipv4/ipv4.c:74-84 | the bytes of the header before its checksum is stored |
| Loopback.HeaderVerifies | kernel/net/ipv4/ipv4.c:74-85 | every header built on the loopback path verifies |
| Loopback.FrameParses | kernel/net/ipv4/ipv4.c:126-135 | the bytes of the frame built, and what parsing them gives back: protocol, length, addresses and payload |
| Loopback.SegmentParses | kernel/net/udp/udp.c:50-66 | parsing the segment built gives back port, length and payload |
| Loopback.MakeReply | kernel/net/ipv4/ipv4.c:147-155 | the echo reply: the request's bytes with type and code 0 and a checksum that verifies |
| Loopback.Stack.constructor | kernel/net/udp/udp.c:32-38 | no port is bound |
| Loopback.Stack.Handle | kernel/net/udp/udp.c:60-99 | updates exactly the datagram's port, bytes 2 and 3, with as many bytes as bytes 4 and 5 say, binding it if a queue is free |
| Loopback.Stack.Recv | kernel/net/udp/udp.c:101-128 | gives the waiting data once, blocks without data, binds an unbound port |
| Loopback.Stack.HandleFrame | kernel/net/ipv4/ipv4.c:126-157 | passes the payload that the header describes on, if it is UDP; an echo request from this machine is answered, anything else changes nothing |
| Loopback.Stack.SendIp | kernel/net/ipv4/ipv4.c:61-92 | the exact frame built, and that it reaches the port of its payload; fails exactly when it is too long; how many frames are numbered |
| Loopback.Stack.Send | kernel/net/udp/udp.c:40-58 | for every 16-bit length: the exact frame delivered up to 1464 bytes, over the end of the buffer exactly from 65528 on |
| Loopback.Stack.Echo | kernel/net/udp/udp.c:40-128 | what is sent to this machine is what the next receive returns, cut to maxlen, and no other port changes |
| Line.Step | kernel/drivers/gpu/gfx.c:212-220 | the two tests always move along the longer axis, never overshoot, and lead to the nearest point |
| Line.CloseUnique | kernel/drivers/gpu/gfx.c:212-220 | for every number of steps along the longer axis one point is nearest, ties included |
| Line.NoOvershoot | kernel/drivers/gpu/gfx.c:210-211 | both axes reach the end at once |
| Line.ErrorFits | kernel/drivers/gpu/gfx.c:212-220 | the error term, its double and its updates are 32-bit numbers |
| Line.OnLineUnique | kernel/drivers/gpu/gfx.c:201-222 | so the contract of DrawLine leaves no choice of points |
| Line.Screen.PutPixel | kernel/drivers/gpu/gfx.c:35-41 | paints one word of the back buffer, or none for a point off the screen |
| Line.Screen.DrawLine | kernel/drivers/gpu/gfx.c:201-222 | ends at the end point after max(dx,dy)+1 points, each the nearest to the line inside the bounding box; exactly these are painted, and no variable leaves 32 bits |
| WindowList.Manager.AllocWindow | kernel/core/gui/wm.c:91-100 | a new window in front |
| WindowList.Manager.BringToFront | kernel/core/gui/wm.c:102-110 | move to front, the rest keep their order |
| WindowList.Manager.CloseWindow | kernel/core/gui/wm.c:126-131 | removes exactly that window |
| WindowList.Manager.Walk | kernel/core/gui/wm.c:433 | next from head and prev from tail give the same windows in opposite orders, without repeats |
| WindowList.Manager.Run | kernel/core/gui/wm.c:91-134 | any sequence of open, bring-to-front and close has these effects in turn |

## Left out

- Failing disk transfers and kmalloc inside the callers, probing the boot record, `fat32_ls` and `fat32_read_file`.
- Fat32.Volume.Run: ends before a write to a directory, and leaves out writes through names that begin with byte 0xE5, for the reasons given above. Nodes are looked up anew for each operation; a node held while its file or directory is unlinked is not modelled.
- Volumes whose FAT has more entries than the disk has clusters: the source takes the size of the FAT for the number of clusters, and would hand out clusters behind the end of the disk.
- Fat32.Volume.Write: past the end of the file the gap keeps the stale bytes of its clusters; WriteChain covers these offsets, and on the map only the other paths are stated for them.
- Multi-cluster directories: the source reads and writes only a directory's first cluster.
- The index counting of `readdir`; its names are printed to a sequence, since 8+1+3 characters and a NUL do not fit the source's 12-byte array.
- KHeap.Heap.Free: pointers that `kmalloc` never returned, and clients that write over the stale header of a merged block through the block that contains it.
- The mapping loop of `kheap_init` and 8-byte payload alignment (headers are 20 bytes).
- Vmm.AddressSpaces.MapPage: flags from 4096 on are excluded; they would change the frame address in the entry. TLB and CR3 effects are not modelled.
- Vmm.AddressSpaces.FreeDirectory: takes the physical address, as its parameter is documented in kernel/include/proc/process.h:44; kernel/proc/task/process.c:198 and 297 hand it the address in the kernel window instead.
- A claim that the frame counter equals the number of taken frames: region set-up counts overlapping regions twice, so only its drift is constant.
- Process teardown and the zombie sweep, which walk threads by the field that links the ready ring; saved contexts, stacks and TSS.
- `rtl8169_send`, register set-up and the not-ready result.
- Loopback.Stack.Handle: segments whose header claims more bytes than they have, which the source copies from behind them.
- Loopback.Stack.HandleFrame: frames whose header claims more bytes than they have.
- Loopback.Stack.SendIp: UDP payloads whose header claims more bytes than they have.
- ARP, sending to other machines, and with it the answer to an echo request from another machine.
- The kernel's window on physical memory: page tables are reached through it only in the first 128 MB, here in every frame.
- Line.Screen.DrawLine: lines longer than 0x2AAAAAAA along an axis, where doubling the error term can overflow.
- Drawing, fonts, shell, DNS, packages, the small ring buffers of events and terminals, and user programs.
