# A verified model of the FAT32 (IF2230 edition) driver, its block store, the page allocator and the memory routines

The project models `src/fat32.c` over the memory-backed block store of `src/external-inserter.c`, the
page-frame allocator `src/paging.c`, and the byte routines `src/stdlib/string.c`.

The file system keeps a cached allocation table of 512 words and a disk image: the boot sector in cluster 0,
the table in cluster 1, the root folder in cluster 2. A folder is one cluster of 64 entries of 32 bytes; slots 0 and 1
describe the folder itself and its parent. Files are chains through the table.

| module | role |
|---|---|
| `Machine`, `CString`, `Encoding` | fixed-width integers, `memset`/`memcpy`/`memcmp`/`memmove`, entry and table bytes |
| `Storage` | the block store, and the history of images: one image after every 512-byte block write |
| `Allocation` | the eight-bit size computation, the free list, chains |
| `FileTree` | the tree an image holds (`Lookup`, `View`, decoded from the image alone) and the invariant `Consistent` |
| `Operations` | each driver call as a function of the cached table and the disk, block writes in the order of the source |
| `Durability`, `Writing`, `Deleting`, `Reading`, `Inverses`, `Formatting` | what the calls guarantee, one by one, under interruption, and one after the other |
| `TreeMachine` | the file system as callers see it: a tree, a number of free clusters, and for every call its return code, data and effect |
| `Runs` | every run of the driver, power losses and remounts included, is a run of the tree machine |
| `DiskBytes`, `CallBytes` | the same calls by byte offset and literal value: the boot sector, the table words, the 32 bytes of an entry, and what each call looks up, answers and stores |
| `Driver` | the imperative driver, proved to compute exactly the functions of `Operations` |
| `Witnesses` | inputs on a freshly formatted disk on which the promises that can fail do fail |
| `Paging` | the page-frame allocator, imperative and as functions, with its invariant |

A **sound** image carries the boot signature and is `Consistent` with some layout: the live folders with their depths, and for
every live cluster the one folder slot that owns it. `Ready(m, l)` adds that the cached table is the one on disk. `NoLeak` adds
that every occupied cluster is owned; it holds in uninterrupted runs, while interrupted ones may leave orphans.

The imperative methods state their whole new state as the matching function of the old one (`Driver.Fat32.Write` ends in
`Operations.Write` of the old state, block by block), so the lemmas about these functions are about the code.

`DiskBytes` and `CallBytes` do not use the encoders, decoders and constants of the other modules in what they state. They fix
the layout itself: little-endian words, the low half of a cluster number at byte 26 of an entry and the high half at byte 20,
0x10 for a folder, 0xAA for an entry in use, 0x0FFFFFFF for end-of-file, and every byte of the boot sector.

In the tree machine a completed call always performs its step: its return code, the data it hands out, the new tree and the
new number of free clusters are those the tree gives (`TreeMachine.OutcomeIsDetermined`: nothing is left open but the cluster
number of a new folder and what the boot cluster holds). Only a call cut by a power loss may leave the old tree, and
only after such a cut is the number of free clusters left open.

What the code asks of its callers, and appears as `requires`:

- the parent is a folder of the tree, or a cluster whose table word is not end-of-file (the driver answers 2); the source
  tests only the word;
- name and extension are not all zero, because the lookups of `read`, `write` and `delete` do not skip unused slots;
- a write that passes all its checks has a non-zero eight-bit cluster count, and its buffer is readable to the end of its last
  cluster (`WriteDefined`); `Allocation.RequiredIsCeilingModulo` says for which sizes the count is zero;
- a read or listing that returns 0 gets a buffer that holds what is stored.

Six promises fail for some inputs, and the exact conditions are proved:

- the cluster count is the true ceiling exactly up to 255 clusters (`Allocation.RequiredIsCeilingIffSmall`);
- what a write stores covers its buffer exactly up to that size (`Inverses.WholeFileStoredIffSmall`);
- a delete stays in bounds and keeps the tree sound exactly when it does not erase the folder it works in
  (`Inverses.DeleteIsSafeIff`): its parent is live, the name is the folder's own, and the table its own entry leads to is empty.
  Off the root a folder is freed that its parent still names; the root's own entry leads to the boot cluster, which is wiped,
  and the loop then leaves the table (`Inverses.ErasingTheRootLeavesTheTable`). `Witnesses.NewFolderIsErased` and
  `Witnesses.RootIsErased` give the inputs;
- `read_directory` guards 32 bytes and stores 2048: it keeps to the announced buffer size exactly below 32, from 2048 on, or
  when no folder answers to the name (`Driver.ReadDirectoryFitsIff`, with the input in `Witnesses.ListingOverrunsBuffer`);
- formatting of a blank disk can be cut short safely exactly before its first block write and after its seventh
  (`Formatting.FormatCutIsSoundIff`), because the signature goes out first;
- the page calls keep bitmap, counter and directories in agreement exactly on unmapped entries and on entries that are not the
  kernel's (`Paging.AllocateIsSafeIff`, `Paging.FreeIsSafeIff`).

A folder also answers to its own name and to its parent's, which are therefore taken for `write`. The root, asked for by its own
name, gives cluster 0 (`Reading.ReadDirectoryIsLookup`).

Where the comments in `src/header/filesystem/fat32.h` and the code disagree, the model follows the code: `read` returns 1 for a
folder, -1 for a short buffer and 2 when nothing is found (the header says 1, 2 and 3); `delete` returns 2 for an invalid parent
too; `read_directory` accepts any buffer size from 32 on and never tests the parent.

## Model

| member | source | states |
|---|---|---|
| CString.Memset | src/stdlib/string.c:5-10 | the addressed range holds the byte, everything else is unchanged |
| CString.Memcpy | src/stdlib/string.c:12-18 | the destination range becomes the source range, everything else is unchanged |
| CString.Memmove | src/stdlib/string.c:33-45 | for every overlap in either direction the destination is the old source and nothing else changes (section 7.24.2.2 of ISO C11) |
| CString.Memcmp | src/stdlib/string.c:20-31 | zero exactly on equality, otherwise the sign of the first difference (section 7.24.4.1 of ISO C11) |
| CString.LessIsTotal | src/stdlib/string.c:20-31 | the order memcmp decides is total and antisymmetric on strings of one length |
| CString.LessIsTransitive | src/stdlib/string.c:20-31 | that order is transitive |
| Encoding.EntryRoundTrip | src/header/filesystem/fat32.h:80-96 | decoding the encoding of an entry gives the entry back; which byte holds what is stated by `DiskBytes.EntryIsDecoded` |
| Encoding.BytesRoundTrip | src/header/filesystem/fat32.h:80-96 | encoding a decoded entry gives the bytes back; which byte holds what is stated by `DiskBytes.EntryIsDecoded` |
| Encoding.PutEntryChangesOneSlot | src/fat32.c:351-352 | storing one entry changes that slot of the decoded table and no other |
| Encoding.FatRoundTrip | src/fat32.c:147-150 | the table read back is the table written; the byte order is stated by `DiskBytes.CachedWordsOnDisk` |
| Encoding.FatBytesRoundTrip | src/fat32.c:147-150 | a table cluster is determined by its words; the byte order is stated by `DiskBytes.CachedWordsOnDisk` |
| Storage.BlockStore.ReadBlocks | src/external-inserter.c:13-21 | the buffer receives the addressed blocks and keeps the rest |
| Storage.BlockStore.WriteBlocks | src/external-inserter.c:23-31 | the blocks land one by one in order, each leaving an image in the history |
| Storage.ReadAfterWrite | src/external-inserter.c:13-31 | a written range reads back as written and every other block is untouched |
| Storage.ClusterWriteIsFourBlockWrites | src/fat32.c:33-35 | a one-cluster write passes through exactly the images with one, two, three and four blocks replaced |
| Allocation.RequiredIsCeilingIffSmall | src/fat32.c:167-170 | the computed cluster count is the integer ceiling exactly for sizes up to 255 clusters, float rounding included |
| Allocation.RequiredIsCeilingModulo | src/fat32.c:167-170 | for every size the computed count is the ceiling for the single-precision size modulo 256; below 2^24 bytes nothing is rounded |
| Allocation.ToSingleIsNearest | src/fat32.c:288 | the conversion to single precision gives the nearest number with 24 significant bits, the even one of two |
| Allocation.FreeFrom | src/fat32.c:154-165 | the scan lists exactly the free clusters, ascending |
| Allocation.FreeAfterTaking | src/fat32.c:154-165 | occupying the n lowest free clusters removes just those from the list |
| Allocation.FreeAfterReleasing | src/fat32.c:401-414 | emptying the words of a chain makes the free list longer by exactly its clusters |
| Allocation.ChainLinks | src/fat32.c:243-248 | a chain climbs strictly and each word leads to the next cluster or ends it |
| Allocation.LinkedIsChain | src/fat32.c:321-328 | clusters linked in the order of the write loop form a chain of exactly those clusters |
| FileTree.Frame | src/fat32.c:303-334 | changing only clusters that no live entry owns leaves invariant and tree alone |
| FileTree.PathIsUnique | src/fat32.c:51-87 | a folder is reached by exactly one path |
| FileTree.LiveIffReachable | src/fat32.c:260-267 | the live folders are exactly those a path from the root leads to |
| FileTree.ParentsLeadToRoot | src/fat32.c:65-86 | following the parent entry from any live folder reaches the root in as many steps as its depth |
| FileTree.OwnSlotsOfPath | src/fat32.c:51-87 | slots 0 and 1 of a folder carry the names and clusters that its path gives it and its parent |
| FileTree.AddEntry | src/fat32.c:336-352 | storing an entry with an unclaimed chain, or a fresh empty folder, keeps the invariant |
| FileTree.RemoveEntry | src/fat32.c:371-399 | erasing the entry of a file or an empty folder keeps the invariant; its clusters have no owner any more |
| FileTree.ExtendedView | src/fat32.c:336-352 | storing an entry adds exactly one path to the tree, absent before |
| Durability.QuietImage | src/fat32.c:303-334 | an image that differs only in unowned clusters and their words is sound with the same tree |
| Durability.TornFatWord | src/fat32.c:318-328 | a partly written table holds word by word the old or the new value |
| Durability.OneSlotWriteIsAtomic | src/fat32.c:350-352 | rewriting a folder table with one slot changed is all or nothing at block granularity |
| Writing.FolderTableSlots | src/fat32.c:51-87 | a new folder's table is empty, names itself and its parent, and carries the padded names |
| Writing.FillIsQuiet | src/fat32.c:321-333 | after each turn of the loop the first clusters are linked and filled, and every image differs only in the taken clusters |
| Writing.WriteKeepsInvariant | src/fat32.c:260-355 | every write, successful or not, ends ready again |
| Writing.WriteRefines | src/fat32.c:260-355 | a successful write adds exactly the requested node under a free name; any other changes nothing at all |
| Writing.WriteIsAtomic | src/fat32.c:303-352 | after every block write the image alone holds, soundly, the tree from before or the tree from after |
| Writing.WriteTakesLowestFree | src/fat32.c:287-300 | the free list loses its first members, as many as required |
| Writing.WriteKeepsNoLeak | src/fat32.c:313-352 | a write leaves no occupied cluster without owner |
| Deleting.ErasesItselfIff | src/fat32.c:365-392 | the self-erasing delete is the one that returns 0 on slot 0; off the root it is the folder's own name on an empty folder |
| Deleting.DeleteKeepsInvariant | src/fat32.c:357-423 | every delete but a self-erasing one stays in bounds and ends ready again |
| Deleting.DeleteRefines | src/fat32.c:371-418 | a successful delete removes exactly the named node, below which nothing lies; any other changes nothing at all |
| Deleting.DeleteIsAtomic | src/fat32.c:394-416 | after every block write the image alone holds, soundly, the tree from before or the tree from after |
| Deleting.DeleteKeepsNoLeak | src/fat32.c:401-416 | a delete leaves no occupied cluster without owner |
| Deleting.LiveDeleteDefined | src/fat32.c:365-414 | on a sound state the loops of delete stay within table and disk exactly unless the root is told to erase itself |
| Deleting.DeleteFreesChain | src/fat32.c:401-416 | the free list grows by one cluster for a folder and by the data clusters for a file |
| Reading.ReadIsLookup | src/fat32.c:212-254 | return code and data of read are those of the node in the tree, and the data fits the announced buffer |
| Reading.ReadDirectoryIsLookup | src/fat32.c:177-210 | return code of read_directory, and on 0 the table of the child, of the folder itself, or of its parent, whichever the name means |
| Reading.ListingIsFaithful | src/fat32.c:184-202 | a folder's table lists exactly the names the tree has below it, each with its node |
| Reading.ChildrenCounted | src/fat32.c:269-285 | a folder holds at most 62 children and is full exactly at 62 |
| Reading.WriteOutcome | src/fat32.c:262-300 | write returns 1 exactly on a taken or own name, else -1 exactly when the folder holds 62 children or space is short, else 0 |
| Reading.DeleteOutcome | src/fat32.c:365-422 | delete returns 0 exactly on nodes with nothing below, else 2 on nodes and own names, else 1 |
| Inverses.DeleteUndoesWrite | src/fat32.c:287-418 | delete after write restores table and every cluster; the clusters it used are free and wiped |
| Inverses.ReadAfterWrite | src/fat32.c:212-354 | a file just written reads back cluster by cluster given a large enough buffer, else -1 |
| Inverses.WholeFileStoredIffSmall | src/fat32.c:288-333 | the stored clusters cover the whole buffer exactly for files of at most 255 clusters |
| Inverses.ErasingItselfBreaksTheTree | src/fat32.c:365-416 | off the root, deleting an empty folder by its own name from within leaves no consistent layout |
| Inverses.ErasingTheRootLeavesTheTable | src/fat32.c:394-414 | for the root the first turn of the loop wipes the boot cluster and the second would index outside the table |
| Inverses.DeleteIsSafeIff | src/fat32.c:365-416 | a delete stays in bounds and keeps the tree sound exactly when it does not erase the folder it works in |
| Inverses.NewFolderErasesItself | src/fat32.c:303-392 | after every folder write with a padded name and no extension, the same name asked from within is such a delete |
| Formatting.FormatIsSound | src/fat32.c:101-141 | formatting any disk gives a sound, leak-free image that holds only the root |
| Formatting.FormatCutIsSoundIff | src/fat32.c:101-152 | formatting a blank disk, cut after k of its ten block writes and mounted again, is sound exactly for k = 0 and k >= 7 |
| Formatting.RemountIsIdentity | src/fat32.c:143-152 | between calls a remount changes neither table nor disk |
| Formatting.OwnershipPartition | src/fat32.c:313-334 | without leaks a cluster is occupied exactly when it is on the chain of a live entry, and of only one |
| Formatting.FolderNamedOnce | src/fat32.c:303-318 | every live folder but the root is named by exactly one slot of one folder, its parent entry; the root by none |
| Formatting.SpaceIsConserved | src/fat32.c:154-165 | free and owned clusters add up to 509 |
| Runs.WritePerforms | src/fat32.c:260-355 | write performs its step of the tree machine: return code, tree and number of free clusters are those the tree gives |
| Runs.DeletePerforms | src/fat32.c:357-423 | delete performs its step of the tree machine |
| Runs.ReadPerforms | src/fat32.c:212-254 | read performs its step: return code and data are those of the node in the tree |
| Runs.ReadDirectoryPerforms | src/fat32.c:177-210 | read_directory performs its step: it lists exactly the nodes below the folder the name means |
| Runs.CutKeeps | src/fat32.c:143-152 | a call cut after any number of block writes and remounted is ready, with the old or the new tree |
| Runs.RunsRefineTrees | src/fat32.c:143-423 | every run with any interruptions stays sound and is a run of the tree machine with the same codes and data; uninterrupted ones leak nothing |
| Runs.SoundTreesBranch | src/fat32.c:51-87 | in a sound tree no two paths lead to one folder, so the outcome of every call in a run is determined |
| Runs.RunsFromFormat | src/fat32.c:101-423 | the same from a freshly formatted disk: the root alone and 509 free clusters |
| Runs.RunKeepsPath | src/fat32.c:260-423 | a run that never deletes a path keeps its node and the folder it lies in |
| Runs.ReadAfterWriteAndRun | src/fat32.c:212-423 | a file reads back as written after any such run, power losses and remounts included |
| TreeMachine.OutcomeIsDetermined | src/fat32.c:177-423 | a call of the tree machine has one return code, one result and one new tree, up to the cluster number of a new folder |
| Witnesses.FirstWriteSucceeds | src/fat32.c:260-355 | on a formatted disk a write to the root succeeds for every name but the root's own, up to 509 clusters |
| Witnesses.NewFolderIsErased | src/fat32.c:365-416 | on every formatted disk a folder just made can be told to erase itself, which returns 0 and leaves no consistent layout |
| Witnesses.RootIsErased | src/fat32.c:365-414 | on a formatted disk that was blank the root can be told to erase itself, which is outside the table |
| Witnesses.ListingOverrunsBuffer | src/fat32.c:177-210 | on every formatted disk a listing with room for 32 bytes returns 0 and stores 2048 |
| DiskBytes.EntryIsDecoded | src/header/filesystem/fat32.h:80-96 | an entry is read from its 32 bytes by offset: name, extension, attribute, user attribute, both halves of the cluster number, size |
| DiskBytes.StoredBytes | src/header/filesystem/fat32.h:80-96 | a stored entry fills its 32 bytes by offset and changes no other byte |
| DiskBytes.InitTableIsNew | src/fat32.c:51-87 | a fresh table holds two folder entries byte by byte, and zeros |
| DiskBytes.SignedByBytes | src/fat32.c:10-18 | a disk counts as formatted exactly when its first 512 bytes are the literal ones |
| DiskBytes.FormattedBytes | src/fat32.c:101-141 | formatting leaves the literal boot sector, three literal words and zeros, the literal root table, and every other byte as it was |
| DiskBytes.MountByBytes | src/fat32.c:143-152 | for every disk: on the literal boot sector the disk stays and the words of cluster 1 are loaded, else the disk is formatted, sound, empty and has 509 free clusters |
| DiskBytes.CachedWordsOnDisk | src/fat32.c:147-150 | between calls word i is bytes 4i to 4i+3 of cluster 1, lowest first |
| CallBytes.ReadByBytes | src/fat32.c:212-254 | code and data of read from the bytes of the parent's table: the first entry of that name, its attribute and size, and the run of clusters from its cluster number on |
| CallBytes.ReadDirectoryByBytes | src/fat32.c:177-210 | code and data of read_directory from the bytes of the parent's table |
| CallBytes.DeleteCodeByBytes | src/fat32.c:357-392 | the return code of delete from the bytes of the parent's table and of the folder found |
| CallBytes.WriteCodeByBytes | src/fat32.c:260-300 | the return code of write from the bytes of the parent's table and the zero words of the table |
| CallBytes.WrittenEntry | src/fat32.c:336-352 | the first unused slot gets all 32 bytes of the entry, with the lowest free cluster; no other byte of the table changes |
| CallBytes.WrittenFile | src/fat32.c:319-333 | the buffer lies in pieces of 2048 bytes in the lowest free clusters, linked on disk up to end-of-file |
| CallBytes.WrittenFolder | src/fat32.c:303-317 | the new folder's cluster holds its own and its parent's entry byte by byte and zeros, and its word is end-of-file |
| CallBytes.WrittenRest | src/fat32.c:303-352 | no other cluster and no other word changes |
| CallBytes.DeletedBytes | src/fat32.c:394-416 | the entry's 32 bytes, its clusters and their words become zero, and nothing else changes |
| CallBytes.WriteTraffic | src/fat32.c:303-352 | block writes of a write: none on failure, 12 for a folder, 8 per cluster and 4 more for a file |
| CallBytes.DeleteTraffic | src/fat32.c:394-416 | block writes of a delete: none on failure, else 4 per cluster and 8 more |
| Driver.Fat32.WriteClusters | src/fat32.c:33-35 | whole clusters go out as their blocks |
| Driver.Fat32.ReadClusters | src/fat32.c:37-39 | whole clusters come in, the rest of the buffer unchanged |
| Driver.Fat32.InitDirectoryTable | src/fat32.c:51-87 | slots 0 and 1 are filled from name and parent, the rest of the table is kept |
| Driver.Fat32.IsEmptyStorage | src/fat32.c:95-99 | false exactly on images whose first 512 bytes are the literal boot sector |
| Driver.Fat32.CreateFat32 | src/fat32.c:101-141 | table, image and history are those of formatting, and the image holds the literal boot sector, reserved words and root table |
| Driver.Fat32.InitializeFilesystem | src/fat32.c:143-152 | on a literal boot sector the disk stays and the words of cluster 1 are loaded; on any other disk it leaves a sound, empty, formatted one with 509 free clusters |
| Driver.Fat32.CountEmptyFatSlots | src/fat32.c:154-165 | the smaller of the request and the number of free clusters, listing exactly the lowest ones |
| Driver.Fat32.Write | src/fat32.c:260-355 | return code, table, image and history are exactly those of the write function; on 0 the 32 bytes of the entry are as given by offset |
| Driver.Fat32.Delete | src/fat32.c:357-423 | return code, table, image and history are exactly those of the delete function |
| Driver.Fat32.Read | src/fat32.c:212-254 | return code exact; on 0 the buffer holds the concatenated clusters and keeps its rest, otherwise it is unchanged |
| Driver.Fat32.ReadDirectory | src/fat32.c:177-210 | return code exact; on 0 the buffer starts with the folder's table, otherwise it is unchanged |
| Driver.ReadFits | src/fat32.c:235-248 | on a live folder the guard of read bounds what its loop stores by the announced buffer size |
| Driver.ReadDirectoryFitsIff | src/fat32.c:193-202 | a listing keeps to the announced buffer size exactly below 32 bytes, from 2048 on, or when no folder answers to the name |
| Paging.PageIndexCovers | src/paging.c:38 | the entry of an address is the one whose four mebibytes hold it |
| Paging.InitialMemoryFields | src/paging.c:6-30 | the initial frames, counter and kernel entries, flag by flag |
| Paging.AllocateFields | src/paging.c:52-71 | allocation succeeds exactly when a frame is free; the covering entry then has present, write, user and page size set, no other flag, and the lowest free frame, and nothing else changes |
| Paging.FreeFields | src/paging.c:73-88 | release succeeds exactly on an entry that is present with a taken frame; the covering entry is then zero, its frame is free, and nothing else changes |
| Paging.AllocatedFrameIsFresh | src/paging.c:52-71 | the frame handed out is never frame 0 and mapped by no entry of any directory |
| Paging.AllocateIsSafeIff | src/paging.c:52-71 | an allocation keeps bitmap, counter and directories in agreement exactly when its entry is unmapped or the counter is zero |
| Paging.FreeIsSafeIff | src/paging.c:73-88 | a free keeps them in agreement exactly when the entry is not one of the kernel's |
| Paging.FreeUndoesAllocate | src/paging.c:52-88 | freeing what was just allocated restores the whole state |
| Paging.AllocateCheckIsExact | src/paging.c:48-50 | the check holds exactly when as many allocations as the amount needs would all succeed |
| Paging.RunsFromStartAgree | src/paging.c:6-88 | bitmap, counter and directories agree after every run of such calls from the initial state |
| Paging.PageManager.AllocateCheck | src/paging.c:48-50 | the counter times 4 MiB in 32 bits is compared with the amount |
| Paging.PageManager.UpdatePageDirectoryEntry | src/paging.c:32-42 | the entry that covers the address gets the flags and the frame that covers the physical address; its other fields and all other entries stay |
| Paging.PageManager.AllocateUserPageFrame | src/paging.c:52-71 | result and new state are those of the allocation function, and field by field those of `Paging.AllocateFields` |
| Paging.PageManager.FreeUserPageFrame | src/paging.c:73-88 | result and new state are those of the free function, and field by field those of `Paging.FreeFields` |

## Left out

- `read_directory` inside a cluster that is no folder of the tree: the source does not look, so runs leave its code and data open and state that nothing changes.
- The ATA driver, port I/O, interrupts, shell, keyboard, frame buffer and boot code: hardware and user interface.
- `main` of the inserter and `src/kernel.c`: file I/O and boot sequencing.
- `floor` in `src/fat32.c`: unused.
- Power losses inside `create_fat32` are covered for blank disks only; runs start from a formatted disk, and a disk that held data before may pass for a formatted one after fewer block writes.
- Driver.Fat32.Write: files whose eight-bit cluster count comes out as zero (sizes such as 256 clusters) are excluded when all checks pass, because the source then declares an array of length zero, which its language leaves undefined; sizes are rounded to single precision as the standard conversion does, not with extended intermediate precision.
- Driver.Fat32.ReadDirectory: requires a whole cluster of buffer when it returns 0, because it stores one; it may be called with any parent below cluster 512 whose entry of that name leads to the disk.
- Driver.Fat32.Delete: requires that the entry found leads to clusters within the table, since the source indexes the table with it unchecked; on sound states `Deleting.LiveDeleteDefined` proves this for every delete but the root's own.
- Driver.Fat32.InitDirectoryTable: does not model the read of the byte after an eight-letter name, whose value does not matter.
- The fields of the directory structure beyond its first 2048 bytes, and the two scratch buffers of the driver state: never read.
- Disk images hold whole clusters, at least the 512 the table can name.
- Paging.PageManager.AllocateUserPageFrame: the imperative class works on one directory at a time, while the functions and the invariant range over any number of directories.
- The bit positions of page entries and the TLB flush: an entry is a record of its named fields.
