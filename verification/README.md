# Little Linux: verified models of its stateful components

Little Linux is a 32-bit hobby kernel. This project models the components of it whose behaviour is hardest to see from
the code: intrusive linked lists, a heap threaded through raw memory, a bitmap on disk behind a one-byte cache, a tree of
directory structs, byte I/O over sectors, a ring buffer under interrupts, and number conversion. Each file of the project
covers one component; `dafny verify dfyconfig.toml` checks them all.

Code that changes things in place is modelled by classes and methods with loops. Every such method is proved against a
function or predicate on values, and the laws are then proved about those.

| component | files |
|---|---|
| uthash table and its merge sort (`kernel/includes/uthash.h`) | `uthash.dfy`, `uthash_chains.dfy`, `uthash_sort.dfy`, `uthash_map.dfy`, `stable_sort.dfy`, `bits.dfy` |
| first-fit allocator (`kernel/src/malloc.c`) | `malloc.dfy` (raw memory), `heap_model.dfy` (blocks) |
| DFS blocks, layout and folders (`kernel/src/dfs.c`) | `dfs_blocks.dfy` (bytes), `dfs_bitmap.dfy` (bits), `dfs_mounts.dfy` (several partitions), `dfs_format.dfy`, `dfs_folder.dfy`, `folder_image.dfy`, `file_image.dfy` |
| ramfs hash maps (`kernel/src/ramfs_hash.c`, `ramfs_hash_file.c`) | `ramfs_hash.dfy`, `chain_map.dfy`, `memcmp.dfy` |
| ramfs tree (`kernel/src/ramfs.c`) | `ramfs.dfy`, `ramfs_tree.dfy`, `ramfs_path.dfy`, `ramfs_heap.dfy`, `ramfs_lookup.dfy` |
| sector and partition I/O (`drivers/src/drive.c`, `drive_partition.c`) | `sector_io.dfy` |
| keyboard buffer (`drivers/src/keyboard.c`) | `keyboard.dfy` |
| itoa, atoi, reverse (`libc/src`) | `conversion.dfy` |

## Main results

- **uthash.** Adding (at the end or in order), deleting, expanding and sorting keep the table well formed, so that
  HASH_FSCK never objects; an item is always in bucket `hashv & (num_buckets - 1)`. Expansion splits each chain in two and
  leaves the application order alone. Under unique keys the table is a map: every operation changes the lookups it should,
  and sorting and expanding change none. HASH_SRT terminates for every comparator and, for a total preorder, produces the one
  stable sorted arrangement, which is also what INORDER adds of the same items in the same order produce.
- **malloc.** In every run of malloc and free the blocks tile the heap from `_end` to the break without gap or overlap. malloc
  takes the first block that holds the size, hands out at most 15 bytes more, changes no byte of a live payload, and fails exactly
  when no block holds the size and no pool is left or the size exceeds one. The seven largest sizes wrap around when they
  are aligned, and get a block of 8 or 16 bytes.
- **DFS blocks.** The static scan cache is not refreshed by marking or freeing, and it serves all mounted partitions, whose
  bitmaps start at the same offset. With a cache that agrees with the disk, the lowest run of free blocks is taken. After an
  allocation of n blocks the cache agrees again exactly if no run of n free blocks lay in the first bitmap byte; otherwise the next
  request of the same size gets the same blocks. Live extents stay disjoint over every run in which no allocation sees a block in
  use as free; a free never brings that about, on any partition. Where all partitions have more than eight blocks, every run that
  frees no extent beginning in the first eight is safe exactly if the first eight blocks of every partition are in use and also
  read as used through the cache. Being in use is not enough: on a fresh partition of nine blocks, two requests for eight get the
  same ones.
- **Re-syncing a file.** The freed length is the new one. With a cache that hides no block in use, everything stays in order exactly
  if the file has not shrunk and the blocks it grew over, as far as they exist, were free. A re-sync succeeds without moving up
  exactly if there is room at or below its old place, counting freed blocks only where the cache does not hold them.
- **DFS folders and layout.** For the folder map, saving and loading keeps every lookup exactly if there are at most 128 entries;
  each round trip reverses the chains. For the file map, whose names are compared with memcmp, every file finds its own record
  exactly if there are at most 128 and no name dominates another of its bucket byte by byte. Below 4 GiB dfs_format's layout is
  sound exactly for partitions of at least 143 198 208 bytes; smaller ones from 1 MiB up are formatted all the same, with a block
  count that has wrapped around. Above 4 GiB addresses wrap around, and blocks 2^22 apart share one.
- **ramfs.** Tree, heap ownership and contents stay in order under every operation, with two exceptions, both exact: removing
  the current directory, and a write whose malloc fails for a file that had a buffer. A printed path leads back to its
  directory exactly if no name on it contains a slash or is a dot name, and the same goes for file names below it. `mkdir -p`
  makes its path resolve exactly if the path has no `..` component, because it takes `..` for a name; it succeeds, given
  memory, exactly if the missing components are short and no file is in the way of the first. Files are looked up with the
  comparison that the library really makes.
- **Sectors and partitions.** A write changes exactly its range, or at most the part of it in the first sector when it
  fails. Partition accesses stay inside exactly when offset plus length does not wrap around in 64 bits.
- **Keyboard.** For every interleaving of single accesses, the keys pressed while the handler was idle are dealt with in order, and
  what was read and what is buffered are the accepted ones in order; one is dropped exactly when the handler sees 255 waiting. A
  character that comes in between the test for an empty buffer and hlt does not end the halt: the reader then waits for a later
  interrupt, with the character in the buffer.
- **Conversion.** atoi inverts itoa on non-negative values exactly if the base is at most 10 or the text has no decimal digit, also
  with blanks and the right sign or prefix in front and other characters behind.

## Where the code differs from its documentation

The model follows the code in all of these.

- `libc/src/string/memcmp.c:8-11` tests one condition twice, so a greater byte counts as equal. File lookups, which section
  7.24.4.1 of ISO/IEC 9899:2011 would make exact, can find, overwrite or delete a different file
  (`Memcmp.FileLookupConfusesNames`, `Memcmp.FileDeleteRemovesAnother`).
- `libc/src/ctype/ctype.c:38-40` calls the codes 0x30 to 0x3f digits, and `libc/src/stdlib/atoi.c:51` subtracts 7 from decimal
  digits above base 10, so that `atoi("0", 16)` is -7 (`Conversion.ZeroInBase16`).
- `kernel/src/ramfs.c:230`, `:330` and `:509` cut the name at its last slash. For `/f` nothing is left in front of it, and an
  empty path resolves to nothing; a file directly below the root has to be named, for example, `//f` (`Ramfs.FileBelowRoot`).
- RAMFS_TYPE_NEW and RAMFS_FOLDER_TYPE_DISK_CLEAN have the same value (`kernel/includes/ramfs_types.h:72`, `:77`), so
  `dfs_sync_file` skips new files.
- `kernel/src/dfs.c:629` frees as many blocks as the file has now, not as it had when it was last written
  (`DfsBitmap.GrownOverNeighbour`).
- `kernel/src/dfs.c:587` returns addresses of 32 bits (`DfsFormat.LargePartitionWraps`).

## Model

| member | source | states |
|---|---|---|
| UtHash.Table.MakeTable | kernel/includes/uthash.h:214-244 | a new table has 32 empty buckets and is well formed |
| UtHash.Table.Add | kernel/includes/uthash.h:398-417 | the item comes last; integrity is kept; a first item gets a new table of 32 buckets with nothing counted; otherwise its chain grows by it, or all chains are split if its bucket was full, with every counter and flag as the macro leaves it |
| UtHash.Table.AddInorder | kernel/includes/uthash.h:352-383 | the item is inserted before the first item that compares greater; integrity is kept; the table changes as for Add |
| UtHash.Table.AppendList | kernel/includes/uthash.h:280-286 | the item is linked behind the tail |
| UtHash.Table.InnerLoop | kernel/includes/uthash.h:288-295 | the loop stops at the first item that compares greater than the new one |
| UtHash.Table.AddToTable | kernel/includes/uthash.h:339-347 | the item joins the chain of its bucket, with an expansion at ten times one more than expand_mult |
| UtHash.Table.PushHandle | kernel/includes/uthash.h:769-778 | the item becomes the head of its chain and both chain links are inverse |
| UtHash.Table.ExpandBuckets | kernel/includes/uthash.h:835-885 | twice the buckets, every chain split by one more hash bit, ideal_chain_maxlen the quotient rounded up, nonideal_items the sum of the excesses, ineffective expansions counted |
| UtHash.Table.SpreadItems | kernel/includes/uthash.h:851-872 | the in-place redistribution leaves every item in the bucket of the doubled table, each new chain in reverse order |
| UtHash.Table.IdealChainMaxlen | kernel/includes/uthash.h:848-850 | shift and mask compute the number of items per bucket, rounded up |
| UtHash.Table.Find | kernel/includes/uthash.h:155-165 | finds an item with exactly this key and hash value if there is one; under unique keys, the one that the map of the items holds |
| UtHashMap.LookupAfterAdd | kernel/includes/uthash.h:398-417 | adding a fresh key at the end adds that key and changes no other lookup |
| UtHashMap.LookupAfterInsert | kernel/includes/uthash.h:352-383 | so does adding it in order |
| UtHashMap.LookupAfterDelete | kernel/includes/uthash.h:452-479 | deleting removes that key and changes no other lookup |
| UtHashMap.LookupIgnoresOrder | kernel/includes/uthash.h:835-974 | lookups depend on the items alone, so that sorting and expanding change none |
| UtHash.Table.FindInBkt | kernel/includes/uthash.h:747-765 | the chain walk finds a matching item of the bucket if there is one |
| UtHash.Table.Delete | kernel/includes/uthash.h:452-479 | only the item leaves the list and its chain; buckets, their expand_mult and the flags stay; the last one takes the table with it |
| UtHash.Table.UnlinkApp | kernel/includes/uthash.h:463-473 | unlinking keeps next and prev inverse and the ends right |
| UtHash.Table.DelInBkt | kernel/includes/uthash.h:791-804 | unlinking from a chain keeps hh_next and hh_prev inverse and the count right |
| UtHash.Table.Fsck | kernel/includes/uthash.h:518-565 | the header's own check passes exactly if backward links, bucket counts and item counts are right |
| UtHash.Table.ValidPasses | kernel/includes/uthash.h:518-565 | so every valid table passes |
| UtHash.Table.Sort | kernel/includes/uthash.h:892-974 | the same items in the order of bottom-up merge sort, for a total preorder in their stable sorted order and as INORDER adds would leave them; buckets and chains untouched |
| UtHashSort.MergeRuns | kernel/includes/uthash.h:918-959 | one merge of two linked runs in place is the stable merge of their sequences |
| UtHashSort.Pass | kernel/includes/uthash.h:902-964 | one pass over the list merges its runs in pairs |
| UtHashChains.SplitPlaced | kernel/includes/uthash.h:852-872 | chains that are split by the new hash bit have every item in its bucket of the doubled table |
| UtHashChains.PickReversedOrder | kernel/includes/uthash.h:851-872 | of two items that go to the same new bucket, the first of the old chain comes last |
| UtHashChains.SplitLengths | kernel/includes/uthash.h:851-872 | the two halves of a split chain are together as long as the chain |
| UtHashChains.ExcessAndRest | kernel/includes/uthash.h:857-858 | nonideal_items and the items up to the ideal number are all items |
| UtHashChains.ExpandMultIs | kernel/includes/uthash.h:857-862 | a closed form of expand_mult |
| Bits.MaskAndShift | kernel/includes/uthash.h:848-850 | mask and shift are remainder and quotient by a power of two |
| Bits.MaskOfDouble | kernel/includes/uthash.h:432-435 | in a doubled table a hash value keeps its bucket or moves up by the old size |
| Bits.CeilByMask | kernel/includes/uthash.h:848-850 | shift plus a test of the masked bits is division rounded up |
| StableSort.MergeSortIsInsertAll | kernel/includes/uthash.h:892-974 | bottom-up merge sort and repeated in-order insertion give the same list, which is a stable sort |
| StableSort.InsertAllStablySorts | kernel/includes/uthash.h:288-295 | in-order adds give a sorted permutation that keeps the order of ties |
| StableSort.StableSortUnique | kernel/includes/uthash.h:888-892 | there is only one stable sorted arrangement |
| StableSort.PassDoublesRuns | kernel/includes/uthash.h:901-971 | a pass turns sorted runs of length k into sorted runs of length 2k |
| Malloc.Allocator.RequestMemory | kernel/src/malloc.c:20-30 | moves the break by the aligned size, or fails and changes nothing |
| Malloc.Allocator.MallocInit | kernel/src/malloc.c:35-54 | one pool becomes one free block |
| Malloc.Allocator.ExpandHeap | kernel/src/malloc.c:59-72 | one more pool at the head of the free list, or failure |
| Malloc.Allocator.Malloc | kernel/src/malloc.c:78-128 | on raw memory: the block model's allocation, with every word and every byte of a live payload unchanged; null exactly if no free block holds the size and no pool is left or the size exceeds one |
| Malloc.HeaderOutside | kernel/includes/malloc.h:13-16 | the two words of a header are aligned, and their eight bytes lie outside every live payload |
| Malloc.WordsAreBytes | kernel/includes/malloc.h:10-16 | payloads consist of whole words, so equal words are equal bytes |
| Malloc.Allocator.Search | kernel/src/malloc.c:84-119 | the walk over the list in memory finds the first block that fits |
| Malloc.Allocator.Take | kernel/src/malloc.c:89-116 | splitting or unlinking writes only headers, and the memory then represents the carved heap |
| Malloc.Allocator.Free | kernel/src/malloc.c:135-142 | the block goes to the head of the list and no byte of another payload changes |
| Malloc.Allocator.Store | kernel/src/malloc.c:114-115 | a program that writes inside its live payload does not disturb the allocator |
| HeapModel.AllocInv | kernel/src/malloc.c:78-128 | the new block is disjoint from all live ones, at least the aligned request and at most 8 bytes more; all other blocks stay |
| HeapModel.MallocBySize | kernel/src/malloc.c:78-128 | failure, place and size of the block in terms of the size asked for: at least that, at most 15 bytes more |
| HeapModel.WrappedSize | kernel/src/malloc.c:81-82 | for the seven largest sizes, which wrap around, malloc hands out 8 or 16 bytes |
| HeapModel.AllocFails | kernel/src/malloc.c:121-127 | null exactly when no free block fits and either no pool is left or the request exceeds a pool |
| HeapModel.AllocPlace | kernel/src/malloc.c:87-124 | the block is the first in list order that fits, or the front of a new pool |
| HeapModel.FreeListAfter | kernel/src/malloc.c:89-125 | the free list keeps its order; the block taken is replaced by what is left of it; new pools go in front |
| HeapModel.FreeInv | kernel/src/malloc.c:135-142 | freeing removes exactly that block from the live ones |
| HeapModel.FreedFirst | kernel/src/malloc.c:135-142 | the block freed last is handed out first if it is large enough |
| HeapModel.TilesCover | kernel/src/malloc.c:20-72 | every address below the break lies in a block |
| HeapModel.TilesConserve | kernel/src/malloc.c:20-72 | blocks with their headers add up to the heap |
| HeapModel.RunKeepsTiling | kernel/src/malloc.c:78-142 | over every legal run the blocks tile the heap, apart from each other and within their pools |
| Memcmp.Memcmp | libc/src/string/memcmp.c:3-15 | returns 0 exactly if no byte of the first is below that of the second |
| Memcmp.FileStreq | kernel/src/ramfs_hash_file.c:21-26 | the comparison of file names that results |
| Memcmp.FileEqBothWays | libc/src/string/memcmp.c:7-12 | the comparison is equality exactly when it holds both ways round |
| Memcmp.FileLookupConfusesNames | kernel/src/ramfs_hash_file.c:21-26 | a lookup of "a" finds file "q" |
| Memcmp.FileDeleteRemovesAnother | kernel/src/ramfs_hash_file.c:21-26 | deleting "a" deletes "q", and adding "a" overwrites it |
| Memcmp.FileChainRight | kernel/src/ramfs_hash_file.c:21-26 | lookup, insertion and deletion in a chain are each those of true equality exactly if no earlier entry dominates the key |
| Memcmp.FileMapRight | kernel/src/ramfs_hash_file.c:49-168 | the same for the whole map |
| RamfsHash.Streq | kernel/src/ramfs_hash.c:12-19 | true exactly for equal strings |
| RamfsHash.CopyName | kernel/src/ramfs_hash.c:22-29 | the first 127 characters |
| RamfsHash.HashOf | kernel/src/ramfs_hash.c:32-38 | djb2 in 32 bits, modulo 16 |
| ChainMap.HashIsSum | kernel/src/ramfs_hash.c:32-38 | the bucket depends on the sum of the signed characters alone |
| RamfsHash.HashMap.constructor | kernel/src/ramfs_hash.c:43-48 | an empty map is well formed |
| RamfsHash.HashMap.Insert | kernel/src/ramfs_hash.c:51-81 | updates in place or pushes a node on the chain; changes nothing without memory |
| RamfsHash.HashMap.Find | kernel/src/ramfs_hash.c:84-98 | the record of the first node whose key compares equal |
| RamfsHash.HashMap.Delete | kernel/src/ramfs_hash.c:101-125 | takes that node out of its chain |
| RamfsHash.HashMap.List | kernel/src/ramfs_hash.c:135-155 | one key per node, bucket by bucket, as many as the count; NULL exactly for an empty map or without memory |
| RamfsHash.HashMap.Destroy | kernel/src/ramfs_hash.c:158-174 | frees each node once and leaves an empty map |
| ChainMap.InsertLaw | kernel/src/ramfs_hash.c:51-81 | insert sets its key and no other, for keys up to 127 characters |
| ChainMap.DeleteLaw | kernel/src/ramfs_hash.c:101-125 | delete removes its key and no other |
| ChainMap.FoundAfterInsert | kernel/src/ramfs_hash.c:74-80 | an inserted key is found exactly if it has at most 127 characters |
| ChainMap.CountAfterInsert | kernel/src/ramfs_hash.c:79 | the count grows exactly for an absent key |
| ChainMap.CountAfterDelete | kernel/src/ramfs_hash.c:118 | the count shrinks exactly for a present key |
| ChainMap.FlatIsTheMap | kernel/src/ramfs_hash.c:135-155 | a walk meets each key once, with the value that a lookup gives |
| DfsFolder.Collect | kernel/src/dfs.c:92-101 | the first 128 records of the walk |
| DfsFolder.SaveFolderToDisk | kernel/src/dfs.c:83-115 | the slot holds the name and the records of both maps, or anything after a failed write |
| DfsFolder.LoadFolderFromDisk | kernel/src/dfs.c:38-81 | all error codes; the maps hold what inserting the records one by one gives, without those for which there was no node |
| DfsFolder.LoadFolderChildren | kernel/src/dfs.c:434-502 | all error codes in order; an empty directory is filled up to the first struct without memory, a filled one left alone |
| FolderImage.LoadWithMemory | kernel/src/dfs.c:52-79 | if no allocation fails, the records are all inserted |
| FolderImage.FoundUnder | kernel/src/dfs.c:52-79 | of a list without repetitions exactly the entries without a hash node are missing after loading |
| FolderImage.LoadChildrenWithMemory | kernel/src/dfs.c:462-486 | the same for the other loader |
| FolderImage.FoundChildrenUnder | kernel/src/dfs.c:462-486 | the other loader also stops at the first entry without a struct |
| DfsFolder.SlotIsImage | kernel/src/dfs.c:38-115 | what loading reads from a saved slot is the image of the map |
| DfsFolder.FolderSurvives | kernel/src/dfs.c:38-115 | a subfolder among the first 128 comes back with its address, as clean |
| DfsFolder.FileSurvives | kernel/src/dfs.c:38-115 | a file comes back with its length and address, without data |
| FolderImage.SavedThenLoaded | kernel/src/dfs.c:38-115 | in the folder map, an entry survives save and load exactly if it is among the first 128 |
| FolderImage.AbsentStaysAbsent | kernel/src/dfs.c:38-115 | in the folder map, no name appears that was not there |
| FolderImage.RoundTrip | kernel/src/dfs.c:38-115 | for the folder map, save and load keep every lookup exactly if there are at most 128 entries |
| FolderImage.RoundTripReverses | kernel/src/dfs.c:38-115 | one round trip turns every chain of the folder map around |
| FolderImage.TwoRoundTrips | kernel/src/dfs.c:38-115 | a second one turns it back |
| FolderImage.LoadersAgree | kernel/src/dfs.c:462-502 | the two loaders agree exactly if equal names carry equal records |
| FileImage.FileRoundTrip | kernel/src/dfs.c:38-115 | after save and load, by either loader, every file finds its own record exactly if there are at most 128 and no name dominates another of its bucket |
| FileImage.ListRestored | kernel/src/dfs.c:69-78 | of a list of files that is loaded, each name finds its own record exactly if none dominates another |
| FileImage.LostStays | kernel/src/ramfs_hash_file.c:49-78 | a record that its name no longer finds is not brought back by inserting others |
| FileImage.TwoFilesConfused | kernel/src/dfs.c:38-115 | of files q and a, one is not found after a round trip |
| DfsBitmap.AllocTakesLowest | kernel/src/dfs.c:526-588 | with a coherent cache: the lowest run of clear bits, and failure only if there is none |
| DfsBitmap.AllocTakesLowestSeen | kernel/src/dfs.c:526-588 | with any cache: the lowest run of bits that read as clear, and exactly its bits are set |
| DfsBitmap.CacheLeft | kernel/src/dfs.c:550-569 | what the scan leaves in the cache |
| DfsBitmap.CoherentAfterAlloc | kernel/src/dfs.c:550-584 | after a request for n blocks the cache is coherent exactly if no run of n clear bits lay in the first byte |
| DfsBitmap.RunHandedOutTwice | kernel/src/dfs.c:550-584 | the next request for n blocks gets the same run exactly if one lay in the first byte |
| DfsBitmap.TwoAllocsInv | kernel/src/dfs.c:526-588 | two requests for n blocks keep the extents disjoint exactly if none lay there |
| DfsBitmap.TrustedAfterAlloc | kernel/src/dfs.c:550-584 | after a request for n blocks, blocks in use still read as used exactly if the scan saw no run of n free ones in the first byte |
| DfsBitmap.FreeUndoesAlloc | kernel/src/dfs.c:574-614 | free after alloc restores the bitmap |
| DfsBitmap.FreeClears | kernel/src/dfs.c:591-615 | a free clears exactly the bits of the run that exist, and leaves the cache |
| DfsBitmap.CoherentAfterFree | kernel/src/dfs.c:604-614 | the cache is coherent after a free exactly if it holds nothing of the freed bits |
| DfsBitmap.ResyncExactly | kernel/src/dfs.c:627-638 | a re-sync, of as many blocks as before or not, succeeds without moving up exactly if there is room at or below the old place; for an unchanged count, exactly if the cache holds nothing of the freed bits or there was room lower down |
| DfsBitmap.ResyncKeepsInv | kernel/src/dfs.c:627-638 | a re-sync keeps the extents disjoint and the bitmap their union exactly if the file did not shrink and grew over free blocks only |
| DfsBitmap.GrownOverNeighbour | kernel/src/dfs.c:627-631 | a file of one block that has grown to two takes the block of its neighbour |
| DfsBitmap.ResyncCanFail | kernel/src/dfs.c:627-638 | a full disk on which a re-sync then reports no space |
| DfsBitmap.AllocInv | kernel/src/dfs.c:526-588 | if no block in use reads as free, a new extent is disjoint from every live one, is counted once more, and the bitmap stays the union |
| DfsBitmap.FreeInv | kernel/src/dfs.c:591-615 | a free of a live extent takes it out of the live ones and clears its bits, and the invariant stays |
| DfsMounts.ActInv | kernel/src/dfs.c:526-615 | an operation acts on its own partition alone, and keeps all of them in order if its allocation sees no block in use as free |
| DfsMounts.RunKeepsInv | kernel/src/dfs.c:526-615 | over every such run, on any number of partitions, live extents are handed out once, disjoint, and the bitmap is their union |
| DfsMounts.ActKeepsTrust | kernel/src/dfs.c:550-615 | a free, and an allocation that saw no such run in the first byte, make no block in use read as free on any partition |
| DfsMounts.OtherMountCoherent | kernel/src/dfs.c:550-556 | after an allocation on one partition the cache agrees with another one exactly if no fitting run lay in the first byte, or the first bytes are equal |
| DfsMounts.ForeignByte | kernel/src/dfs.c:550-556 | an allocation on an empty partition makes a full one hand out block 0 again |
| DfsMounts.SettledExactly | kernel/src/dfs.c:526-615 | every run that leaves extents in the first eight blocks alone keeps all partitions in order exactly if those blocks are in use and read as used on every one |
| DfsMounts.SettledIfCoherent | kernel/src/dfs.c:550-556 | for a cache that agrees with every partition, exactly if those blocks are in use |
| DfsMounts.FilledButNotSettled | kernel/src/dfs.c:526-588 | on a fresh partition of nine blocks, two requests for eight get the same ones |
| DfsBlocks.PutBitsBits | kernel/src/dfs.c:574-584 | the loop on bytes changes exactly the bits of the run |
| DfsBlocks.BitIs | kernel/src/dfs.c:547 | block i of a byte is bit i from the low end |
| DfsBlocks.BlocksNeededIsLeast | kernel/src/dfs.c:531 | the block count is the least that holds the size, or 0 if the sum wraps |
| DfsBlocks.BlockAllocator.Look | kernel/src/dfs.c:550-556 | a byte comes from the cache exactly if it is the one looked at last |
| DfsBlocks.BlockAllocator.Scan | kernel/src/dfs.c:542-569 | the loop with its cache finds the lowest run of what it sees, and leaves the cache as stated |
| DfsBlocks.Mark | kernel/src/dfs.c:574-584 | sets the bits of the run, or of a first part of it at a failure |
| DfsBlocks.Unmark | kernel/src/dfs.c:604-614 | clears the bits of the run up to the last block; with failures it clears some of them and nothing else |
| DfsBlocks.BlockAllocator.AllocFileBlocks | kernel/src/dfs.c:526-588 | address, bitmap and cache are those of the bit model; no byte of the data area changes; 0 otherwise only after an I/O failure |
| DfsBlocks.BlockAllocator.FreeFileBlocks | kernel/src/dfs.c:591-615 | bitmap and cache are those of the bit model; with I/O failures some bits of the run stay set and nothing else differs |
| DfsBlocks.BlockAllocator.Place | kernel/src/dfs.c:625-639 | free and alloc in a sync |
| DfsBlocks.BlockAllocator.SyncFile | kernel/src/dfs.c:618-648 | error code, address, type, bitmap, file bytes and all other bytes, for files that are skipped, moved or written in place; with I/O failures, the codes, the address and every byte outside the bitmap and the file |
| DfsBlocks.SyncIsResync | kernel/src/dfs.c:627-638 | on the bitmap, a sync of a dirty file is the re-sync of its extent |
| DfsBlocks.SyncKeepsOtherFiles | kernel/src/dfs.c:618-648 | a re-sync leaves the blocks of every other file byte for byte unless the file has grown over blocks in use |
| DfsFormat.LayoutOrdered | kernel/src/dfs.c:354-357 | superblock, slots, bitmap and data area do not overlap, and every block has its bit |
| DfsFormat.GeometryExactly | kernel/src/dfs.c:345-357 | below 4 GiB the layout is sound exactly for partitions of at least 143 198 208 bytes |
| DfsFormat.ReachesData | kernel/src/dfs.c:354-357 | those are the ones that reach their own data area |
| DfsFormat.OneMebibyte | kernel/src/dfs.c:346-357 | the superblock of a partition of 1 MiB claims 4 294 828 495 blocks |
| DfsFormat.SoundExample | kernel/src/dfs.c:354-357 | a partition of 200 MB meets the layout's conditions |
| DfsFormat.DataFitsExactly | kernel/src/dfs.c:356-357 | the last block ends inside the partition exactly if alignment does not cost half a block |
| DfsFormat.OverrunExample | kernel/src/dfs.c:356-357 | on a partition of 200 000 512 bytes the last block ends 512 bytes behind the end |
| DfsFormat.SmallPartitionWraps | kernel/src/dfs.c:346-357 | a partition that is too small but not rejected gets a block count that has wrapped around |
| DfsFormat.AliasExactly | kernel/src/dfs.c:586-587 | two blocks have the same address exactly if their numbers agree modulo 2^22 |
| DfsFormat.AddressesApart | kernel/src/dfs.c:586-587 | all blocks have different addresses exactly if there are at most 2^22 |
| DfsFormat.WrapsInFront | kernel/src/dfs.c:586-587 | one of the first 2^22 blocks has an address in front of the data area exactly if it has wrapped around |
| DfsFormat.LargePartitionWraps | kernel/src/dfs.c:344-357 | from 4 GiB and two blocks on, the address of the last block wraps around |
| DfsFormat.DecodeEncode | kernel/includes/dfs.h:49-58 | reading the superblock's words gives what was written |
| DfsFormat.WordExample | kernel/includes/dfs.h:50 | words are stored low byte first |
| DfsFormat.Format | kernel/src/dfs.c:344-381 | for partitions of any size: each result code exactly; every byte of the superblock and of the root folder, all other folder slots and the data area as they were; a clear bitmap where the layout is sound |
| RamfsPath.SplitConcat | kernel/src/ramfs.c:66-70 | the components of p/q are those of p and those of q |
| RamfsPath.WalkConcat | kernel/src/ramfs.c:66-120 | walking two lists of components one after the other, with the exception of ".." at a parentless directory |
| RamfsPath.ResolveConcat | kernel/src/ramfs.c:51-122 | resolving p/q is resolving p and then q unless the walk for p was cut short |
| RamfsPath.ResolveLaws | kernel/src/ramfs.c:51-122 | the empty path, one component, one component more, and absolute paths |
| RamfsPath.DownAndUp | kernel/src/ramfs.c:77-86 | ".." comes back from an ordinary component |
| RamfsPath.PathRoundTrip | kernel/src/ramfs.c:13-22 | the printed path leads back exactly if all names on it are plain |
| RamfsPath.PathOfChild | kernel/src/ramfs.c:13-22 | "/" for the root, and the path of the parent, a slash and the name for others |
| RamfsPath.WalkStaysOut | kernel/src/ramfs.c:72-83 | no path leads below a directory whose name no component can be |
| RamfsPath.DescendResolves | kernel/src/ramfs.c:607-658 | the path of a successful mkdir -p resolves to the directory it made exactly if it has no ".." |
| RamfsPath.MakeableName | kernel/src/ramfs.c:127-148 | a single name can be made, or is there, exactly if it is a subdirectory or short and no file is in its way |
| RamfsLookup.ChainsLookUp | kernel/src/ramfs_hash_file.c:80-94 | the walk along a bucket finds a candidate if the map has one, and nothing otherwise |
| RamfsLookup.LookupExists | kernel/src/ramfs_hash_file.c:80-94 | the condition on file lookups can be met |
| RamfsLookup.LookupRight | kernel/src/ramfs_hash_file.c:80-94 | a file lookup is by the exact name if no other file is a candidate; for a new name, only then |
| RamfsLookup.LookupWrong | kernel/src/ramfs_hash_file.c:80-94 | where "q" is the only file, "a" finds it |
| RamfsTree.AddDirOk | kernel/src/ramfs.c:152-178 | a new directory keeps parents and child maps inverse, acyclic, with unique names |
| RamfsTree.CutDirOk | kernel/src/ramfs.c:285-298 | so does the removal of an empty one |
| RamfsTree.FilesOnly | kernel/src/ramfs.c:360-370 | and a change of the files of a directory |
| RamfsTree.BelowRoot | kernel/src/ramfs.c:169 | every directory has the root as an ancestor |
| RamfsHeap.LiveExactly | kernel/src/ramfs.c:127-184 | live blocks are exactly the directory structs, hash nodes and file buffers |
| RamfsHeap.NoSharing | kernel/src/ramfs.c:127-184 | no two pointers hold the same block |
| RamfsHeap.OwnChange | kernel/src/ramfs.c:398-410 | ownership after two pointers change, a freed block being reused or not |
| RamfsHeap.SetFileOk | kernel/src/ramfs.c:401-410 | storing a new buffer changes the contents of that file only |
| Ramfs.RamFs.constructor | kernel/src/ramfs.c:8-11 | the root alone is in order |
| Ramfs.RamFs.GetDirByPath | kernel/src/ramfs.c:51-122 | the loop that cuts the path resolves it |
| Ramfs.LocateAbsolute | kernel/src/ramfs.c:213-246 | an absolute file name is looked up from the root; one whose only slash is in front is refused |
| Ramfs.LocateRelative | kernel/src/ramfs.c:213-246 | any other from the base |
| Ramfs.LocatePlain | kernel/src/ramfs.c:213-246 | a name without a slash is looked up in the base; one that ends in a slash is refused |
| Ramfs.LocatePrinted | kernel/src/ramfs.c:213-246 | the printed path of a directory, a slash and a file name lead to that file exactly if all names on the path are plain |
| Ramfs.FileBelowRoot | kernel/src/ramfs.c:216-246 | "/f" is refused and "//f" is file f of the root |
| Ramfs.FindLastSlash | kernel/src/ramfs.c:216 | the last slash |
| Ramfs.RamFs.Mkdir | kernel/src/ramfs.c:127-184 | error codes; exactly one directory and two blocks more; files untouched; order kept |
| Ramfs.RamFs.Rmdir | kernel/src/ramfs.c:269-306 | error codes; exactly that directory and its two blocks less; the current directory dangles exactly if it was removed |
| Ramfs.RamFs.Touch | kernel/src/ramfs.c:309-376 | error codes, with the file lookup as the library makes it; one empty file and one block more |
| Ramfs.RamFs.Rm | kernel/src/ramfs.c:210-266 | the file that the lookup finds, its node and its buffer are gone; all other files are kept |
| Ramfs.RamFs.Write | kernel/src/ramfs.c:378-424 | exact error codes; the file that the lookup finds contains the bytes and all others what they did; after a failed malloc the state is sound exactly if there was no old buffer |
| Ramfs.RamFs.Backspace | kernel/src/ramfs.c:488-561 | each error code by its own condition on the contents; the file that the lookup finds loses its last bytes, as many as asked for or all, and nothing else in the tree changes; nothing at all on failure |
| Ramfs.RamFs.BuildAbsolutePath | kernel/src/ramfs.c:13-22 | the recursive printer |
| Ramfs.RamFs.Cd | kernel/src/ramfs.c:187-207 | the current directory is what the path resolves to, and its path is printed; nothing changes on failure |
| Ramfs.RamFs.MakeSub | kernel/src/ramfs.c:632-654 | exactly when a component is there or can be made; it restores the current directory and adds at most one directory |
| Ramfs.RamFs.MkdirParents | kernel/src/ramfs.c:607-658 | given memory it succeeds exactly if the missing part can be made; every component exists afterwards, new directories lie on the path, the current directory is restored, and a repetition changes nothing |
| Ramfs.SlashInName | kernel/src/ramfs.c:127-184 | after mkdir "a/b" its printed path leads nowhere |
| Ramfs.DotDotMade | kernel/src/ramfs.c:632-654 | mkdir -p ".." makes a directory that this path does not lead to |
| Ramfs.CurrentRemoved | kernel/src/ramfs.c:269-306 | rmdir from ".." removes the current directory |
| Ramfs.BufferLost | kernel/src/ramfs.c:395-400 | after a write without memory no ownership accounts for the heap |
| SectorIo.SectorCountIs | drivers/src/drive.c:427-433 | the sector count in 64-bit and 16-bit arithmetic is right unless the end address wraps |
| SectorIo.StoredIs | drivers/src/drive.c:449-452 | in the range the data, elsewhere the bytes that were there |
| SectorIo.WritePiece | drivers/src/drive.c:439-455 | one read-modify-write changes exactly its piece of a sector |
| SectorIo.AhciWrite | drivers/src/drive.c:421-458 | succeeds exactly for 1 to 256 bytes on the disk without a fault, changing exactly the range; a failure changes nothing or the part in the first sector |
| SectorIo.AhciRead | drivers/src/drive.c:388-419 | succeeds likewise and returns exactly the range |
| SectorIo.Drives.PartitionWrite | drivers/src/drive_partition.c:223-243 | check, translation and effect on the one disk |
| SectorIo.Drives.PartitionRead | drivers/src/drive_partition.c:186-215 | check, translation and result |
| SectorIo.ConfinedExactly | drivers/src/drive_partition.c:195-204 | an accepted access is inside the partition exactly if offset plus length does not wrap |
| SectorIo.EscapeBelow | drivers/src/drive_partition.c:233-238 | an accepted access in front of the partition |
| SectorIo.OtherPartitionsKept | drivers/src/drive_partition.c:186-243 | with 32-bit offsets, writes to one partition never change reads from a disjoint one, failed writes included |
| Keyboard.Buffer.PutChar | drivers/src/keyboard.c:35-41 | appends the character unless 255 are waiting |
| Keyboard.Buffer.Burst | drivers/src/keyboard.c:35-41 | of characters that come in one after the other, those are kept for which there is room |
| Keyboard.Buffer.Wait | drivers/src/keyboard.c:44-47 | test and hlt are two steps: the halt ends at the first round of interrupts that leaves a character, and not by one that comes in before hlt |
| Keyboard.Buffer.GetChar | drivers/src/keyboard.c:43-51 | takes the first character, or the first of the round that ends the halt; without such a round it stays halted, whatever the buffer holds |
| Keyboard.Buffer.GetCharTimeout | drivers/src/keyboard.c:53-70 | takes the first character, or the first that arrives before the last poll, or returns 0, any number arriving between two polls; no poll at all if the 32-bit product is 0 |
| Keyboard.StepKeepsInv | drivers/src/keyboard.c:35-70 | every single access of either side keeps delivered plus buffered equal to accepted |
| Keyboard.EveryRun | drivers/src/keyboard.c:35-70 | so does every interleaving, with at most 255 buffered |
| Keyboard.LogIsPresses | drivers/src/keyboard.c:35-41 | what the handler has dealt with is what was pressed while it was idle, in order |
| Keyboard.ReaderTakesFirst | drivers/src/keyboard.c:48-50 | four accesses of the reader take the first character and deliver it |
| Keyboard.HandlerStores | drivers/src/keyboard.c:35-41 | a key press and three accesses of the handler store its character, or the first drops it |
| Keyboard.FromStart | drivers/src/keyboard.c:35-70 | from the empty buffer on, the keys pressed are dealt with in order, and what is delivered is the front of what was accepted, with at most 255 behind |
| Keyboard.DroppedOnlyIfFull | drivers/src/keyboard.c:36-37 | a character is dropped exactly when the handler sees 255 waiting |
| Conversion.TableEntry | libc/src/stdlib/itoa.c:12 | the table is right for remainders of both signs |
| Conversion.TextDenotes | libc/src/stdlib/itoa.c:15-34 | the text denotes the value and has no leading zero |
| Conversion.PrefixAtMost | libc/src/stdlib/atoi.c:54 | no prefix denotes more than the value, so reading it does not overflow |
| Conversion.ItoaFits | libc/src/stdlib/itoa.c:15-36 | at most 33 characters |
| Conversion.StrLen | libc/src/string/strlen.c:7-14 | the number of characters before the terminator |
| Conversion.Reverse | libc/src/string/reverse.c:3-11 | reverses the string in place and nothing else |
| Conversion.EmitNegative | libc/src/stdlib/itoa.c:18-22 | the digits of a negative value, last first |
| Conversion.EmitUnsigned | libc/src/stdlib/itoa.c:26-32 | the digits of an unsigned value, last first |
| Conversion.Itoa | libc/src/stdlib/itoa.c:6-41 | the text of the value, signed in base 10 and unsigned otherwise, or nothing for a bad base |
| Conversion.Atoi | libc/src/stdlib/atoi.c:6-61 | the value of the accepted part of the text, or 0 |
| Conversion.Accumulate | libc/src/stdlib/atoi.c:46-55 | the accumulating loop, and where it refuses |
| Conversion.SkipPrefix | libc/src/stdlib/atoi.c:16-44 | signs in base 10 only, 0b in base 2, 0x in base 16 |
| Conversion.AtoiOfItoa | libc/src/stdlib/atoi.c:6-61 | atoi inverts itoa on non-negative values exactly if the base is at most 10 or there is no decimal digit |
| Conversion.ZeroInBase16 | libc/src/stdlib/atoi.c:46-54 | "0" is read as -7 in base 16 |
| Conversion.AtoiOfNegative | libc/src/stdlib/atoi.c:57-58 | atoi inverts itoa in base 10 on negative values above INT_MIN |
| Conversion.AtoiOfDecorated | libc/src/stdlib/atoi.c:13-44 | blanks in front, + and - in base 10, 0b in base 2, 0x in base 16 and what follows the number do not disturb its value; in other bases they make it 0 |
| Conversion.NegativeAndBadBase | libc/src/stdlib/itoa.c:8-26 | outside base 10 a negative value is written as the unsigned word; a bad base gives no text and no value |
| Conversion.ItoaExamples | libc/src/stdlib/itoa.c:12 | 255 in base 16 is ff |

## Left out

- uthash: out-of-memory variants, Bloom filters and HASH_SELECT, which the kernel does not use; counters are unbounded; each item's key and hash value are constant, and the table pointer that every handle repeats is kept once.
- uthash key comparison is equality here; memcmp as the library has it is modelled separately in `memcmp.dfy`.
- Hash functions of uthash: hash values are arbitrary parameters.
- Malloc.Allocator.Malloc: heaps that end within one pool of 2^32, where pointers wrap around, are excluded.
- RamfsHash.HashMap.Insert: null arguments are not modelled; malloc succeeds or fails as a parameter says.
- The file map is the same class as the folder map, with the key comparison as a parameter; the map laws hold for true equality, and `Memcmp.FileMapRight` says when the library's comparison amounts to it.
- FolderImage.SavedThenLoaded: for true equality of names, as the folder map has it; `FileImage.FileRoundTrip` is about the file map.
- FolderImage.RoundTrip: the same.
- FolderImage.AbsentStaysAbsent: the same.
- DfsFolder.SaveFolderToDisk: a slot is a record, not its 34956 bytes, and names are at most 127 characters.
- DfsFolder.LoadFolderFromDisk: the structs of the subfolders are represented by their records in the map, so a struct that is lost with its node is not seen.
- DfsFolder.LoadFolderChildren: likewise, so their parent and mount fields are not seen; a null directory is not modelled.
- DfsBlocks.BlockAllocator.SyncFile: which bits of the bitmap change is stated only without I/O failures; the partition takes accesses of any length, although `drivers/src/drive.c:424` rejects more than 256 bytes; null arguments and a null data pointer are not modelled.
- DfsBlocks.BlockAllocator.AllocFileBlocks: what the cache holds after an I/O failure is not stated.
- DfsBitmap.ResyncExactly: files of type NEW are skipped by the code and so are never re-synced.
- DfsMounts.RunKeepsInv: several mounted partitions all have their bitmap at the offset that formatting gives it, and at least eight blocks; I/O failures are the subject of `dfs_blocks.dfy`.
- DfsFormat.Format: the allocation at `kernel/src/dfs.c:374` is a parameter; how far a failing write got is not stated.
- Mounting, unmounting, recursive folder sync and the search for a free folder slot are not modelled.
- Ramfs.RamFs.GetDirByPath: lazy loading from disk is not modelled, all directories being memory directories; the path buffer of 512 bytes is unbounded here.
- Ramfs.RamFs.Rm: when several files of a directory are candidates for a name, which of them is found depends here on the directory's files, not on the order in which they were made.
- Ramfs.RamFs.Touch: the same choice among several candidates.
- Ramfs.RamFs.Backspace: the same.
- Ramfs.RamFs.Mkdir: the same, for a name that files could clash with.
- Ramfs.RamFs.MkdirParents: option parsing and messages are not modelled; the result is that of the -p branch.
- Ramfs.RamFs.Write: the same choice among several candidates; type marks, disk addresses and the DIRTY flag of the parent are not modelled.
- Listing and printing files, and the other command wrappers, are not modelled.
- Keyboard.EveryRun: scan codes are not modelled; a key press while the handler runs is held back by the hardware.
- SectorIo.AhciWrite: the controller's command for one sector succeeds or fails as a whole; drives are always initialised; the null data pointer is not modelled.
- SectorIo.Drives.PartitionWrite: the spinlock is not modelled; parse_mbr and parse_ebr, which fill the table, are not part of this model.
- Conversion.Atoi: the accumulated value is an exact integer; overflow of a signed int is undefined in C.
- tty, printf, GDT, IDT, PIC, PCI, AHCI registers, interrupt entry and boot code are not modelled.
