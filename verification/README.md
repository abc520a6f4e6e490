# Verified models of CoreZ-OS storage and network code

CoreZ-OS has an ext4 driver with a write-ahead journal, a bitmap allocator and an extent tree, an ext2
reader with a Python image builder, a small TCP/IP stack, and a few lock-free and blocking kernel
structures. This project models them in Dafny and proves what they are for: that a crash never leaves
half a transaction, that no two files share a block, that a file reads back what was written, that a
TCP stream arrives as it was sent. Where the code does not do what it is for, the project says exactly
when it does.

The layers build on each other. `Words`, `Bits`, `Bytes`, `Memory` and `Division` hold machine arithmetic.

| layer | modules |
|---|---|
| journal | `Journal` (device writes, byte for byte), `JournalRecovery`, `JournalRuns` (runs with crashes), `JournalLimits` (when atomicity fails), `ForeignLog` (replay of any log), `JournalDriver` (the code's loops) |
| extent tree | `Extents` (leaves), `ExtentTree` (trees as values), `ExtentCount` (when an insertion joins and when it adds), `ExtentBlocks` (which blocks they use), `ExtentDisk` and `ExtentStore` (nodes on disk and the code), `ExtentFailure` and `FailedInsert` (insertions that run out of blocks), `LostRange` (which file blocks a failure unmaps), `NodeCodec` and `StoredTree` (bytes), `TreeBlocks` and `FreedPaths` (what truncation visits) |
| allocator | `Allocator`, `AllocatorDriver`, `VolumeBytes` (metadata as bytes, on disk and in memory), `Siblings` (block and inode counts beside each other), `StaleCounts` (memory against disk), `CrashCounts` and `CrashRuns` (allocator transactions through the journal), `LateMount` (a failing run) |
| files | `Ownership` (any number of files over one allocator), `LostBlocks` (what a failing call unmaps), `LostSplit` (a failing volume), `Truncation`, `FileData` (reading), `FileWrite`, `WriteRoom` (how many free blocks a write needs) |
| directories | `DirBlock` (records in bytes), `Directory` and `DirectoryLaws` (entries and iteration), `DirectoryVolume` (a directory as a file that grows), `DirectoryDriver`, `LostEntries` (a failing directory) |
| ext2 | `Ext2Map`, `Ext2Image`, `Ext2Bitmap` |
| network | `Tcp` (calls as functions), `TcpLaws` (what each call does to bytes and windows), `TcpStream` (two endpoints and a network that loses, repeats and reorders), `TcpBlock` (the control block in place), `Checksum` |
| concurrency | `FileSlots` and `FileSlotCalls`, `InodeCache`, `IoQueue` |

Code that updates state in place is modelled by classes and loops; each method is proved against a
function, and the properties are proved about that function. Protocols are state machines whose runs
are all interleavings.

## Where the code falls short

Each of these is stated with the exact condition under which the code does meet its purpose.

- Crash atomicity needs a device that gets block writes in order. The block cache holds them back while
  journal superblock writes bypass it, so atomicity holds only without cache slots (`JournalLimits.AtomicIff`).
- The mount loads the free counts before it replays the journal, and does not load them again. After a cut
  between a commit point and the last home write the next transaction writes wrong counts to disk
  (`CrashRuns.CountsExactIff`, `LateMount.CountsGoWrong`), for blocks and for inodes.
- A block that starts with the journal's magic number in little-endian order does not survive the journal
  (`Journal.EscapeRoundTrip`).
- Replay writes the home blocks of a transaction before it looks for the commit block, so a log that ends with
  an unfinished transaction has it applied (`ForeignLog.CommittedOnlyIff`).
- An insertion that runs out of blocks after a child has split loses the right half of the split, and frees
  the data block while it is mapped if its entry went to the left half (`ExtentFailure.FailureKeepsMapIff`,
  `Ownership.EnsureKeepsOwnIff`, `LostSplit.HazardOccurs`). It also uses up the free blocks (`Ownership.LossDrains`).
- A directory that has to grow and cannot may lose its last blocks with their entries: the addition is refused,
  and other files are no longer found (`DirectoryDriver.DirectoryFile.Add`, `LostEntries.EntriesVanish`).
- Truncation and block counting share one page down their recursion: of an index node below the root only
  the first child is visited, and the blocks of the others stay in use for good (`TreeBlocks.FreesAllIff`,
  `FreedPaths.LeaksIff`). On volumes of more than 65536 blocks the recursion can also stray into
  another file's node and free its blocks (`TreeBlocks.StraysIff`, `Truncation.StrayFrees`).
- A read whose 32-bit end wraps is not cut at the end of the file (`FileData.ClampIff`).
- A new data block shows what it held before around the bytes written to it (`FileWrite.HoleStaysZeroIff`).
- `tcp_fire` does not move `snd_nxt` across 2^32 (`Tcp.FireAdvancesIff`), and full segments are too long for
  the IP layer (`Tcp.FireLeavesIff`). It counts sends as retries, so that after five sends without a full
  acknowledgement the first timeout closes the connection (`TcpBlock.SendsCount`).
- The ext2 block scan of a full volume close to 2^32 blocks does not end (`Ext2Bitmap.GuardFailsIff`).
- The image builder stops at an empty payload (`Ext2Image.ImageReadsBack`).

## Model

| member | source | states |
|---|---|---|
| `Journal.EscapeRoundTrip` | kernel/fs/ext4.c:262-300 | A block comes back from the journal unchanged if and only if it does not start with the JBD2 magic in little-endian order: the escape test reads little-endian, the restore writes big-endian. |
| `Journal.CopyIs` | kernel/fs/ext4.c:287-296 | The copy in the log never starts with that word, and differs from the block in its first word only, which is zero then. |
| `Journal.TagsRoundTrip` | kernel/fs/ext4.c:262-285 | Parsing the descriptor block of any transaction, tag by tag as replay does, gives back its targets and flags in order. |
| `JournalRecovery.ReplayCommitted` | kernel/fs/ext4.c:2385-2449 | Replay of a committed transaction issues exactly its home writes and stops at the next sequence number; stale blocks behind it are not taken. |
| `ForeignLog.TagsParse` | kernel/fs/ext4.c:2403-2433 | Tags of any transaction, with and without UUIDs behind them, escaped, deleted or neither, are read back from the descriptor as they were laid out. |
| `ForeignLog.ScanIs` | kernel/fs/ext4.c:2405-2433 | The tag loop issues one home write for every record that is not deleted, in order, the escaped ones with the magic word put back. |
| `ForeignLog.ReplayIs` | kernel/fs/ext4.c:2383-2453 | Replay of a log of any number of transactions, in the JBD2 format with one descriptor block each and homes outside the journal: the home writes of all of them in order, those of a last one without a commit block included, and the sequence number advanced by the committed ones, modulo 2^32. |
| `ForeignLog.CommittedOnlyIff` | kernel/fs/ext4.c:2423-2446 | Replay writes nothing but committed transactions if and only if the one without a commit block has only deleted records: the home blocks are written before the commit block is looked for. |
| `JournalRecovery.LogPrefix` | kernel/fs/ext4.c:252-304 | After any prefix of the log writes the home blocks are unchanged and no block in the journal can be taken for a future transaction. |
| `JournalRecovery.CommitPoint` | kernel/fs/ext4.c:236-312 | The superblock write is the commit point: from then on recovery finds the whole transaction. |
| `JournalRecovery.ApplyAgain` | kernel/fs/ext4.c:2418-2428 | Replaying a transaction over any prefix of its own home writes gives the same home blocks as applying it once. |
| `JournalRuns.CommitCut` | kernel/fs/ext4.c:236-322 | A commit cut after any number of device writes is either as if it had not started, or pending with the complete transaction recoverable, or complete. |
| `JournalRuns.MountCutOk` | kernel/fs/ext4.c:2350-2453 | A recovery cut after any of its own writes leaves a device from which the next recovery reaches the same home blocks. |
| `JournalRuns.StepKeepsInv` | kernel/fs/ext4.c:236-322 | Every event (store, cut store, data write, crash, mount, cut mount) keeps the recovery invariant, with the atomic store as its meaning. |
| `JournalRuns.RunAtomic` | kernel/fs/ext4.c:236-335 | For every finite run of transactions and crashes, including crashes inside recovery, the home blocks after recovery are those of applying, in order, the transactions whose commit point was reached, each entirely or not at all. |
| `JournalLimits.StoreArrives` | kernel/fs/ext4.c:236-322 | Without a crash every store arrives, with and without journal, with and without cache once it is written back: the home blocks are the old ones with the transaction applied. |
| `JournalLimits.NoJournalTears` | kernel/fs/ext4.c:314-335 | Without a usable journal a crash between two home writes leaves half a transaction. |
| `JournalLimits.CacheTears` | kernel/fs/pbcache.c:307-395 | With the write-back block cache a completed store, part of a flush and a crash leave half a transaction. |
| `JournalLimits.AtomicIff` | kernel/fs/pbcache.c:307-395 | All runs are crash-atomic if and only if there is a journal and block writes are not held back by the cache. |
| `JournalDriver.Driver.StoreBlock` | kernel/fs/ext4.c:324-331 | Storing one block copies it into a fresh page and commits: the device gets exactly the writes of the one-block transaction with the bytes the buffer had at the call, whatever an abandoned transaction left queued. |
| `JournalDriver.Driver.TxnCommit` | kernel/fs/ext4.c:236-322 | The commit loop issues exactly the device writes, in exactly the order, of which crash atomicity is proved. |
| `JournalDriver.Driver.Replay` | kernel/fs/ext4.c:2350-2453 | The recovery loops issue exactly the writes of the replay function and continue with its sequence number. |
| `Extents.PutAdds` | kernel/fs/ext4.c:890-978 | Putting an unmapped block into a leaf, by extending an extent to either side or by a new entry, changes the map at that block only. |
| `Extents.PutSorted` | kernel/fs/ext4.c:890-978 | It keeps the leaf's extents sorted, disjoint and within their bounds. |
| `Extents.PutCount` | kernel/fs/ext4.c:890-978 | The leaf gets an entry more if and only if the block is unmapped and no extent ends right before it or starts right behind it, adjacent on disk and shorter than 32768 blocks. |
| `ExtentTree.LookupFinds` | kernel/fs/ext4.c:817-874 | In a well-formed tree the key-guided descent answers what a search of all extents would. |
| `ExtentTree.InsNodeOk` | kernel/fs/ext4.c:890-1302 | Insertion below the root: one node or two, well formed, covering the old map plus one block, through leaf and index splits. |
| `ExtentTree.InsRootOk` | kernel/fs/ext4.c:1094-1324 | A successful insertion keeps the whole tree well formed (sorted disjoint extents, capacities, index keys equal to first keys, equal leaf depth) and adds exactly one mapping, through root split and root growth. |
| `ExtentTree.InsertThenLookup` | kernel/fs/ext4.c:817-1324 | After a successful insertion every lookup gives the old answer, except the new block at the new place. |
| `ExtentCount.RootCount` | kernel/fs/ext4.c:890-1324 | Read off the leaf the block leads to: a successful insertion adds an extent exactly when none of that leaf can take the block; when one can, the insertion succeeds whatever blocks are free and takes none. |
| `ExtentCount.NeedsIff` | kernel/fs/ext4.c:902-943 | An extent of that leaf can take an unmapped block if and only if some extent of the file can: one that ends right before it, or one that starts right behind it and in the same leaf. |
| `ExtentCount.JoinsOrAdds` | kernel/fs/ext4.c:890-1324 | For every file: if such an extent exists the insertion succeeds with every pool, takes no block and leaves the number of extents; otherwise a successful one adds exactly one. |
| `ExtentCount.NotAcross` | kernel/fs/ext4.c:926-943 | That the extent behind must be in the same leaf is needed: a tree where it starts the next leaf, is adjacent, and is not joined. |
| `ExtentCount.SplitsEvenly` | kernel/fs/ext4.c:1044-1084 | A split leaves as many entries on the left as on the right, or one more. |
| `ExtentCount.RootSplitsEvenly` | kernel/fs/ext4.c:992-1053 | So does a root leaf that moves into two blocks. |
| `ExtentBlocks.InsRootGrew` | kernel/fs/ext4.c:890-1324 | The tree then uses exactly its old blocks, the data block and the blocks it took from the allocator, each once more than before. |
| `ExtentDisk.ScratchFits` | kernel/fs/ext4.c:777-782 | The scratch page of a split holds the node's entries plus one if and only if the block size is at most 2048. |
| `ExtentDisk.ReprFrame` | kernel/fs/ext4.c:817-874 | What a tree on disk means depends on its own node blocks only. |
| `ExtentStore.Position` | kernel/fs/ext4.c:896-899 | The position loop finds the number of leading entries at or before the block. |
| `ExtentStore.Place` | kernel/fs/ext4.c:964-972 | The shifting loop inserts an entry in place and keeps the order of the others. |
| `ExtentStore.PutEntry` | kernel/fs/ext4.c:890-978 | The leaf code, with both joins and the shift, computes the leaf function, whose number of entries `Extents.PutCount` tells by the extents. |
| `ExtentStore.ExtentFile.Lookup` | kernel/fs/ext4.c:817-874 | The lookup loop over node blocks answers what the tree function answers; it ends because the depth falls. |
| `ExtentStore.ExtentFile.LeafInsert` | kernel/fs/ext4.c:890-1088 | The leaf code below the root leaves on disk what the tree function says, including a failed allocation. |
| `ExtentStore.ExtentFile.InsNode` | kernel/fs/ext4.c:1138-1302 | The recursive insertion leaves on disk what the tree function says and touches only its own nodes and new blocks. |
| `ExtentStore.ExtentFile.RootLeafInsert` | kernel/fs/ext4.c:981-1053 | A full root leaf moves into two new blocks; if the second is not to be had the first goes back. |
| `ExtentStore.ExtentFile.ExtInsert` | kernel/fs/ext4.c:1304-1324 | The whole insertion on disk, root cases included, refines the tree function in result, blocks taken and nodes written. |
| `ExtentFailure.FailureKeepsMapIff` | kernel/fs/ext4.c:981-985 | A failed insertion leaves every lookup as it was if and only if the root is a leaf or no block was left; otherwise a mapped block is lost with the right half of a child's split. |
| `FailedInsert.InsertFailsIff` | kernel/fs/ext4.c:1138-1324 | Read off the tree before the call: the insertion fails if and only if no extent of its leaf can take the block and every node on the path is full up to the depth where the free blocks run out. |
| `FailedInsert.SplitLands` | kernel/fs/ext4.c:1044-1088 | A split puts the data block into its left half exactly when the position of the entry, level by level, is in the left half. |
| `FailedInsert.FailedRoot` | kernel/fs/ext4.c:1262-1266 | After a failed insertion at an index root the stored tree uses no block it should not, uses the data block exactly when the entry went left, and is well formed otherwise. |
| `LostRange.LostLookups` | kernel/fs/ext4.c:1262-1266 | A failed insertion at an index root that does not keep the data block unmaps exactly the file blocks from the first key of the lost half up to the next key on the path, both read off the tree before the call, and changes no other lookup. |
| `LostRange.RootAppends` | kernel/fs/ext4.c:1262-1266 | A file block behind all others never goes to the half that is kept. |
| `LostSplit.FailureLoses` | kernel/fs/ext4.c:1262-1266 | For every node size from 5 to 340 entries there is a tree on which an insertion with a block left fails and changes what lookups answer. |
| `StoredTree.LookupStored` | kernel/fs/ext4.c:817-874 | Following decoded node blocks from the root, the lookup on the bytes of the disk answers what the tree answers. |
| `StoredTree.StoresTree` | kernel/fs/ext4.c:1044-1084 | Storing a tree's nodes as bytes leaves every node of the tree decodable at its block. |
| `StoredTree.StoredFrame` | kernel/fs/ext4.c:817-874 | Whether a tree is on disk depends on its own node blocks only. |
| `NodeCodec.EntryReads` | kernel/fs/ext4.c:838-861 | An extent, with its address in a 16-bit high and a low part, and an index entry read back as stored, whatever surrounds them. |
| `NodeCodec.NodeRoundTrip` | kernel/fs/ext4.c:1055-1080 | A node written to a block reads back with the same depth and entries. |
| `NodeCodec.NodeLayout` | includes/kernel/fs/ext4.h:83-103 | A written node lies in its block as the ext4 structures say: magic number, number of entries, capacity, depth, and every extent and index entry field at its offset. |
| `Allocator.BlockPlace` | kernel/fs/ext4.c:400-411 | Every block of the volume has exactly one group and one bit within the group's count. |
| `Allocator.BitPlace` | kernel/fs/ext4.c:400-411 | Every counted bit of a group is a block of the volume, and its group and bit are the ones it came from. |
| `Allocator.CountRoundTrip` | kernel/fs/ext4.c:350-366 | A group's free count survives the split into halves, and setting it back restores the descriptor. |
| `Allocator.TakeKeepsInv` | kernel/fs/ext4.c:495-546 | Taking a free block keeps every count exact and the committed copies equal to memory. |
| `Allocator.TakeFrees` | kernel/fs/ext4.c:495-546 | Exactly the taken block stops being free and becomes used. |
| `Allocator.GiveKeepsInv` | kernel/fs/ext4.c:567-617 | Freeing any number whatever keeps every count exact, and at most that block stops being used. |
| `Allocator.GiveTwice` | kernel/fs/ext4.c:567-592 | A repeated free changes nothing. |
| `Allocator.TakeThenGive` | kernel/fs/ext4.c:495-617 | Freeing what was just allocated restores bitmaps, descriptors, counters and their copies. |
| `Allocator.AllocTakes` | kernel/fs/ext4.c:548-565 | The allocator answers 0 exactly when no block is free; otherwise the smallest free block, the only one that changes. |
| `Allocator.CountsExact` | kernel/fs/ext4.c:495-617 | After any calls with any arguments: each initialised group's count is its clear bits, the global count is their sum and fits its word, and the committed copies agree. |
| `Allocator.FormattedInv` | kernel/fs/ext4.c:395-411 | Whatever is in use, as long as block 0 is, counters computed from the bitmaps satisfy the invariant: the starting point of every run. |
| `AllocatorDriver.FirstClear` | kernel/fs/ext4.c:507-515 | The bit scan sets the lowest clear bit below the group's count and changes no other bit of the page, or reports that there is none. |
| `AllocatorDriver.DropBit` | kernel/fs/ext4.c:587-592 | Testing and clearing one bit of the page changes that bit only. |
| `AllocatorDriver.BlockAllocator.GroupAlloc` | kernel/fs/ext4.c:495-546 | Allocation in one group takes that group's lowest clear bit and commits bitmap, descriptor block and superblock. |
| `AllocatorDriver.BlockAllocator.Alloc` | kernel/fs/ext4.c:548-565 | The group loop answers the smallest free block of the volume, leaves the volume the specification says, and changes one bit of one bitmap. |
| `AllocatorDriver.BlockAllocator.Free` | kernel/fs/ext4.c:567-617 | The release refuses numbers outside the volume, otherwise leaves the specified volume, and changes at most the block's bit. |
| `VolumeBytes.DescBytesIs` | kernel/fs/ext4.c:350-366 | Storing a free count, of blocks or of inodes, in a descriptor, with both checksums and the other fields the code stores beside it, changes that count and no flag, and no other descriptor of the block. |
| `Siblings.DescBytesKeep` | kernel/fs/ext4.c:520-545 | Every byte of the descriptor block outside the fields that the transaction names stays. |
| `Siblings.DescBytesStores` | kernel/fs/ext4.c:350-366 | Each named field, at its offset in the descriptor, gets its value: the count, the checksums, and for inodes the unused count and the number of directories. |
| `Siblings.SbBytesKeep` | kernel/fs/ext4.c:480-493 | So does every byte of the superblock outside the counts and the checksum. |
| `Siblings.SbBytesOther` | kernel/fs/ext4.c:480-493 | The superblock gets its own count and the sibling's, each at its own place. |
| `VolumeBytes.MarkSeen` | kernel/fs/ext4.c:495-764 | The three blocks of an allocation or release, of a block or of an inode, built byte by byte from the bitmap on disk and from descriptors and superblock in memory, do to disk and memory what the allocator's step does to the volume, whether or not memory agrees with the disk. |
| `VolumeBytes.SiblingSeen` | kernel/fs/ext4.c:495-764 | A transaction of the other allocator writes the counts in memory to disk and changes no bitmap looked at. |
| `Siblings.MarkIsSibling` | kernel/fs/ext4.c:495-764 | Every block allocation or release is, for the inode counts, a transaction of the other allocator as `SiblingSeen` wants it, and the reverse: the same three blocks, with the other's counts, flags and bitmaps left alone. |
| `Siblings.DirsIsFlush` | kernel/fs/ext4.c:431-436 | The descriptor block that directory creation stores alone has the counts and flags of memory, as `FlushSeen` wants it. |
| `VolumeBytes.FlushSeen` | kernel/fs/ext4.c:431-436 | A descriptor block stored alone writes the descriptors in memory to disk and leaves the global count there. |
| `StaleCounts.PickIsAlloc` | kernel/fs/ext4.c:548-565 | While memory agrees with the disk, choosing the group by the counts in memory and the bit on disk gives the smallest free block. |
| `StaleCounts.FreshMark` | kernel/fs/ext4.c:495-617 | A transaction from memory that agrees with the disk keeps the counts on disk exact and memory in agreement. |
| `StaleCounts.StaleMark` | kernel/fs/ext4.c:495-617 | A transaction from memory with another global count makes the counts on disk wrong, always. |
| `StaleCounts.StaleWriteOut` | kernel/fs/ext4.c:627-764 | So does a transaction of the other allocator. |
| `StaleCounts.StaleFlush` | kernel/fs/ext4.c:431-436 | A descriptor block stored alone makes them wrong exactly when it holds the group whose count is behind, and otherwise changes nothing. |
| `CrashCounts.Between` | kernel/fs/ext4.c:306-312 | With some of a transaction's home blocks written, equal counts stay equal, and the global count lags until the last block. |
| `CrashRuns.ActStep` | kernel/fs/ext4.c:236-322 | One act, complete or cut: the counts stay exact exactly when the phase told by the cuts is not the faulty one, and then device, memory and recoverable blocks are as the next phase says. |
| `CrashRuns.CountsExactIff` | kernel/fs/ext4.c:495-764 | For the free counts of blocks and for those of inodes, over every run of allocations, releases, transactions of the other allocator, descriptor blocks stored alone and other writes, with crashes anywhere and recoveries cut anywhere: the counts on disk stay exact if and only if no transaction that writes what is behind (any transaction but a descriptor block alone that does not hold the group) reaches its commit point after a mount that followed a cut between a commit point and the last home write. |
| `CrashRuns.OutsideWindow` | kernel/fs/ext4.c:236-322 | If no allocation or release is cut in that window, the counts stay exact, whatever else is cut. |
| `CrashRuns.WindowBreaks` | kernel/fs/ext4.c:2493-2535 | An allocation or release cut in the window, a mount and any further transaction but a descriptor block alone make the counts wrong. |
| `CrashRuns.MountedCountIff` | kernel/fs/ext4.c:2493-2535 | After a cut allocation or release and a mount, the global count and the descriptors in memory are those on disk if and only if the cut came before the commit point or after the last home write. |
| `LateMount.CountsGoWrong` | kernel/fs/ext4.c:2493-2535 | Such a run exists, for blocks and for inodes: on a small volume the cut, the mount and the next allocation can all happen, and the counts are wrong. |
| `Ownership.ManyTakes` | kernel/fs/ext4.c:548-565 | n allocations take the n smallest free blocks and nothing else. |
| `Ownership.EnsureFailsIff` | kernel/fs/ext4.c:1564-1581 | Getting a block for a file fails if and only if no block is free, or no extent can take the first free one and the path is full up to the depth where the free blocks run out. |
| `Ownership.EnsureKeepsOwnIff` | kernel/fs/ext4.c:1564-1581 | It keeps single ownership (every block reachable from any file, as data or node, has its bit set and exactly one owner) if and only if it is not the case that a split is lost and the entry goes to the half that is kept: a condition on the tree and the free blocks before the call. |
| `Ownership.EnsureMapsIff` | kernel/fs/ext4.c:1564-1581 | Every lookup in every file is then as before, except the answered block at the asked place, if and only if no split is lost, again told by the state before the call. |
| `Ownership.EnsureFailed` | kernel/fs/ext4.c:1571-1578 | A call that fails without losing a split puts allocator and tree back exactly. |
| `Ownership.LossDrains` | kernel/fs/ext4.c:1564-1581 | A call that loses a split leaves no block free but the one for the data: exactly the others become used. |
| `Ownership.EmptyFilesOwn` | kernel/fs/ext4.c:806-815 | Any number of empty files on a consistent volume is a starting point. |
| `Ownership.RunKeepsOwnIff` | kernel/fs/ext4.c:1564-1677 | For every run of allocations and truncations on any number of files: single ownership holds in every state if and only if no call is that case when its turn comes. |
| `Ownership.NoSharing` | kernel/fs/ext4.c:1564-1677 | No two file blocks, of one file or of two, share a disk block, and none shares one with a tree node. |
| `LostSplit.HazardOccurs` | kernel/fs/ext4.c:1571-1578 | For every node size from 5 to 340 entries there is a volume with single ownership that one call takes from it: the data block is freed and still mapped. |
| `TreeBlocks.FreedAtMost` | kernel/fs/ext4.c:1326-1355 | Truncation, whose recursion goes on in the buffer its callee has overwritten, frees no block more often than the file uses it, at any depth. |
| `TreeBlocks.FreesAllIff` | kernel/fs/ext4.c:1326-1355 | It frees every block as often as the file uses it if and only if no index node below the root has a second child. |
| `TreeBlocks.RecordedIff` | kernel/fs/ext4.c:1357-1418 | The total recorded in the inode is never less than the number of blocks truncation frees, and equal under the same condition. |
| `FreedPaths.FreesIff` | kernel/fs/ext4.c:1326-1355 | Block by block: the file uses a block if and only if some path of child numbers from the root leads to it, and truncation frees it if and only if such a path takes first children only below the root's entries. |
| `FreedPaths.RecordedExcess` | kernel/fs/ext4.c:1357-1418 | The recorded total exceeds the number of freed blocks by the number of children passed over in the nodes visited. |
| `TreeBlocks.SmallVolume` | kernel/fs/ext4.c:1348-1352 | On a volume of at most 65536 blocks the overwritten buffer never leads to a block of the volume. |
| `TreeBlocks.MisreadForm` | kernel/fs/ext4.c:1348-1352 | The block number an extent gives when it is read as an index entry, in closed form: its length plus 65536 times the bitwise or of the two halves of its address. |
| `TreeBlocks.StraysIff` | kernel/fs/ext4.c:1348-1352 | On a volume of at most 131072 blocks the overwritten buffer leads to a block of the volume if and only if below an index node under the root the second extent of the first leaf starts in block 1, 65536 or 65537 and its length plus 65536 is a block of the volume. |
| `Ownership.TruncateKeepsOwn` | kernel/fs/ext4.c:1637-1677 | At any depth, as long as it does not stray, truncation keeps single ownership; exactly the blocks it visits become free, each once, and the free count grows by their number. |
| `Ownership.TruncateFreesAllIff` | kernel/fs/ext4.c:1637-1677 | Nothing the file owned stays in use if and only if no index node below the root has a second child, and exactly then the free count grows by the recorded total. |
| `FreedPaths.LeaksIff` | kernel/fs/ext4.c:1637-1677 | After a truncation exactly those blocks of the file are still in use, owned by no file, to which every path takes a later child. |
| `Truncation.MisreadIs` | kernel/fs/ext4.c:1348-1352 | The bytes of an extent, read as an index entry, decode to the block number the model says. |
| `Truncation.FreeExtents` | kernel/fs/ext4.c:1336-1347 | The inner loops free the blocks of every extent, in order. |
| `Truncation.FreeTree` | kernel/fs/ext4.c:1326-1355 | For any nodes on disk, strays included, as long as the recursion ends and enters nodes only: it frees exactly the list of the walk, in order, and leaves in the shared page what the walk says. |
| `Truncation.TruncateInode` | kernel/fs/ext4.c:1637-1677 | The truncation loops free exactly the list the walk of the root gives, in order, and leave the empty root. |
| `Truncation.TruncateFrees` | kernel/fs/ext4.c:1637-1677 | On the stored tree of a file from which it does not stray, that list is the specified one, so that what is proved of it holds of the loops. |
| `Truncation.StrayFrees` | kernel/fs/ext4.c:1348-1355 | When the overwritten page leads to a leaf of at most two extents, that leaf and its data are freed, whoever owns them. |
| `Truncation.FreeingKeepsOwnIff` | kernel/fs/ext4.c:1637-1677 | Whatever list a truncation frees: single ownership stays if and only if no block of the list belongs to another file. |
| `Truncation.InodeBlocks` | kernel/fs/ext4.c:1357-1418 | The counting loops, through the same page and on any nodes, record the totals of their walk. |
| `Truncation.InodeBlocksIff` | kernel/fs/ext4.c:1357-1418 | On the stored tree of a file from which it does not stray, the totals are at least the number of blocks truncation frees, and exactly it if and only if no index node below the root has a second child. |
| `FileData.ClampIff` | kernel/fs/ext4.c:1951-1953 | The promised length min(count, size - off) is returned if and only if the 32-bit sum does not wrap. |
| `FileData.RunIs` | kernel/fs/ext4.c:1973-1984 | Reading a run of adjacent disk blocks gives the file's bytes at the run's positions. |
| `FileData.HoleIs` | kernel/fs/ext4.c:1964-1972 | A hole reads as zeros to the end of its block. |
| `FileData.RunLength` | kernel/fs/ext4.c:1973-1982 | The run loop finds the longest run of file blocks mapped to adjacent disk blocks within its bounds. |
| `FileData.Stream` | kernel/fs/ext4.c:1954-1989 | The streaming strategy fills the buffer with the byte-at-a-time contents. |
| `FileData.Buffered` | kernel/fs/ext4.c:1990-2028 | So does the buffered strategy, from wherever it starts. |
| `FileData.Read` | kernel/fs/ext4.c:1945-2033 | Whichever strategy runs, the call returns min(count, size - off) bytes equal to the byte-at-a-time read with zeros for holes, and touches nothing behind them, unless the 32-bit sum wraps; then too every byte before position 2^32 is the file's. |
| `FileWrite.EnsureApart` | kernel/fs/ext4.c:1564-1581 | The block a write goes to belongs to one file block only and is no tree node. |
| `FileWrite.ChunkWrites` | kernel/fs/ext4.c:1602-1619 | One chunk written: what every byte of every file is afterwards. |
| `FileWrite.HoleStaysZeroIff` | kernel/fs/ext4.c:1609-1616 | A byte of a hole beside the chunk still reads as zero if and only if the new block held a zero there: new data blocks are not cleared. |
| `FileWrite.StoresFiles` | kernel/fs/ext4.c:1044-1084 | Storing the nodes one insertion changed leaves the tree of every file decodable from the disk. |
| `FileWrite.EnsureRoom` | kernel/fs/ext4.c:1564-1581 | With three blocks free more than the tree is deep the call succeeds, and the blocks and the depth it leaves are bounded. |
| `FileWrite.FileSystem.Turn` | kernel/fs/ext4.c:1602-1619 | One turn of the loop stores the changed nodes and the chunk, and every tree stays in the bytes of its blocks. |
| `FileWrite.FileSystem.Stop` | kernel/fs/ext4.c:1605-1607 | A turn without a block leaves volume and trees consistent if and only if the call is not the ownership hazard, changes node blocks only, and changes nothing if no split is lost. |
| `FileWrite.FileSystem.Write` | kernel/fs/ext4.c:1591-1629 | For every state: how many bytes get a block, the trees, the allocator and the sizes afterwards, when the volume with all its trees on disk stays consistent, and when every block mapped before or written now stays mapped, each as an equation or an equivalence with a condition on the state before the call. When no split is lost: every byte of every file, the written ones being the data also where the position wraps at 2^32, the others as before wherever there was a block or still is none. When one is lost without the ownership hazard: the same, with holes in exactly the lost range. |
| `FileWrite.FileSystem.ReadAt` | kernel/fs/ext4.c:1933-1939 | Reading any file of the volume gives its contents up to its size, nothing from the size on, and leaves the rest of the buffer. |
| `FileWrite.RoomReaches` | kernel/fs/ext4.c:1591-1629 | With enough free blocks, a number computed from the depth and the turns, the whole write goes through. |
| `WriteRoom.WriteFitsIff` | kernel/fs/ext4.c:1591-1629 | When every leaf has room for as many extents as the write has unmapped file blocks: the whole write goes through if and only if that many blocks are free, and otherwise it is cut short and loses nothing. |
| `FileWrite.WriteThenRead` | kernel/fs/ext4.c:1591-2033 | A write followed by a read of the same place returns the written bytes; all of them with enough free blocks. |
| `FileWrite.WriteThenReadOld` | kernel/fs/ext4.c:1591-2033 | A write followed by a read of any place within the old size, in any file, returns the written bytes where they overlap and the old bytes everywhere else. |
| `DirBlock.FindSlotOk` | kernel/fs/ext4.c:1803-1841 | The slot search finds the first record with room: a free record or malformed rest that is long enough, or a used record with enough slack, and no record before it has room; it finds none only if no record has. |
| `DirBlock.SlotIff` | kernel/fs/ext4.c:1803-1841 | There is no slot if and only if no record that the walk gets to, freed ones included, has room for the entry. |
| `DirBlock.AddTake` | kernel/fs/ext4.c:1809-1854 | Adding over a free record or malformed rest inserts the one entry in walking order and keeps the block tiled. |
| `DirBlock.AddSplit` | kernel/fs/ext4.c:1822-1839 | Adding behind a used record's name does the same and leaves that record's entry as it was. |
| `DirBlock.RemoveAt` | kernel/fs/ext4.c:1906-1914 | Freeing the found record removes the first entry of that name and no other, and keeps the block tiled. |
| `DirBlock.SameRest` | kernel/fs/ext4.c:1739-1755 | Bytes behind the limit, such as the checksum tail, do not matter to the records. |
| `Directory.IterateAll` | kernel/fs/ext4.c:2043-2090 | Calling the iterator from the start until it fails yields every entry of every block, in order. |
| `DirectoryLaws.EntriesIff` | kernel/fs/ext4.c:2065-2086 | An entry is listed if and only if some record the walk gets to is in use, has a name and reads as it. |
| `DirectoryLaws.NextIs` | kernel/fs/ext4.c:2043-2090 | One call of the iterator gives the first such record at or behind the position and moves behind that record; it fails if and only if there is none. |
| `Directory.InsertedCounts` | kernel/fs/ext4.c:1783-1877 | Adding gives the old multiset of entries plus the new one. |
| `Directory.RemovedCounts` | kernel/fs/ext4.c:1886-1931 | Removing takes exactly one entry out of the multiset. |
| `DirectoryDriver.AddInBlock` | kernel/fs/ext4.c:1803-1854 | The search loop and the stores in place compute the slot and the new block. |
| `DirectoryDriver.RemoveInBlock` | kernel/fs/ext4.c:1900-1926 | The search loop frees the first matching record in place. |
| `DirectoryDriver.DirectoryFile.Add` | kernel/fs/ext4.c:1783-1877 | On a directory that is a file of the volume. Fails exactly for a bad name, or when no record before the first hole has room and no block is to be had. Accepted: the entry goes to the first block with room, else to a new one behind the others, the rest of the blocks stay, and the entry list is the old one with the new entry inserted, tiling kept, unless the 32-bit size wraps to 0. Sizes, trees and allocator afterwards are given in every case. Refused: nothing changes for a bad name or when no split is lost; when one is, the volume stays consistent if and only if the call is not the ownership hazard, exactly the blocks told by the state before the call are gone, and the entries are as they were if and only if those blocks had none. No other file changes. |
| `LostBlocks.EnsureUnmaps` | kernel/fs/ext4.c:1564-1581 | A call for a block that loses a split unmaps exactly a range of file blocks read off the tree and the free blocks before it, maps every other as before, and the new data block nowhere. |
| `DirectoryVolume.EmptiedEntries` | kernel/fs/ext4.c:2043-2090 | With a range of blocks gone the entries before and behind it are left, and all entries if and only if the range had none. |
| `DirectoryVolume.DenseLoses` | kernel/fs/ext4.c:1858-1863 | A directory without holes that grows and loses a split is never the ownership hazard, and always loses its last blocks, at least one. |
| `DirectoryVolume.DenseEntries` | kernel/fs/ext4.c:1858-1863 | It keeps the entries before the lost blocks, and all entries if and only if the lost blocks had none. |
| `LostEntries.EntriesVanish` | kernel/fs/ext4.c:1858-1863 | For every node size from 5 to 84 entries there is such a directory on a consistent volume: an addition under any name is refused, and entries are gone. |
| `DirectoryDriver.DirectoryFile.Remove` | kernel/fs/ext4.c:1886-1931 | Removal takes out the first entry of the name, and fails exactly for a bad name or when no block before the first hole has it. |
| `DirectoryDriver.DirectoryFile.NextEntry` | kernel/fs/ext4.c:2043-2090 | The iterator's loops, which pass over holes, answer what the iteration function answers. |
| `Tcp.FireEndIs` | drivers/net/tcp.c:128-146 | The cutting loop sends as much as a closed form of buffer, window and segment size says: it may pass the window by less than a segment. |
| `Tcp.FireAdvancesIff` | drivers/net/tcp.c:128-152 | `snd_nxt` covers everything emitted if and only if it plus that amount stays below 2^32. |
| `Tcp.WrapRefusesAck` | drivers/net/tcp.c:385-390 | After such a wrap an acknowledgement of everything emitted is refused, data included. |
| `Tcp.FireLeavesIff` | drivers/net/ip.c:73-78 | All segments of a send leave the host if and only if no more than 1440 bytes wait or fit the window: a full segment is refused by the IP layer. |
| `Tcp.ResendLeavesIff` | drivers/net/ip.c:73-78 | All segments of a retransmission leave if and only if the whole buffer holds at most 1440 bytes. |
| `Tcp.TakenIff` | drivers/net/tcp.c:406-432 | Data is taken exactly when the next expected byte lies in the segment modulo 2^32 and the ring has room, and it is the bytes from there on. |
| `TcpLaws.InputDoes` | drivers/net/tcp.c:375-452 | A segment whose acknowledgement is not ahead: the buffer loses exactly the acknowledged bytes, the ring gains exactly the bytes from the expected place on as far as there is room, and data is answered by an acknowledgement of everything taken so far with the room left. |
| `TcpLaws.AheadRefused` | drivers/net/tcp.c:385-390 | One whose acknowledgement is ahead is answered and changes the window only. |
| `TcpLaws.AckReleases` | drivers/net/tcp.c:391-404 | An acknowledgement releases exactly the bytes before it, and what the window lets through of the unsent rest leaves, in order. |
| `TcpLaws.SendIff` | drivers/net/tcp.c:205-221 | Data is accepted, whole, if and only if there is some and the buffer has room for all of it; then what the window lets through leaves at once. |
| `TcpLaws.FireCovers` | drivers/net/tcp.c:128-152 | The segments of a send carry the buffer from what was sent before up to the closed-form end, in order, without gap or overlap. |
| `TcpLaws.ResendCovers` | drivers/net/tcp.c:591-612 | Those of a retransmission carry the whole buffer. |
| `TcpLaws.ResendIff` | drivers/net/tcp.c:591-612 | The timer resends it, from the first byte not acknowledged on, if and only if something sent is not acknowledged. |
| `TcpLaws.RecvGives` | drivers/net/tcp.c:223-244 | Receiving returns the oldest bytes, as many as asked for and there, and announces the window again exactly when it was below a segment and no longer is. |
| `TcpLaws.WindowIff` | drivers/net/tcp.c:406-432 | The window an acknowledgement announces is the room there is: data at the expected place is taken whole if and only if it is no longer. |
| `TcpStream.SeqLtIsBefore` | drivers/net/tcp.c:25-27 | `seq_lt` is the order of places in the stream while they are less than 2^31 apart. |
| `TcpStream.ActKeepsInv` | drivers/net/tcp.c:375-452 | Every send, receive, timer and arrival, of any packet ever sent and not too old, keeps the invariant of the two endpoints and the network. |
| `TcpStream.StreamPrefix` | drivers/net/tcp.c:205-244 | Under any loss, duplication and reordering: the bytes received followed by the ring are a prefix of the bytes the peer's send accepted, in both directions. |
| `TcpStream.PacketsCarryStream` | drivers/net/tcp.c:128-152 | Every segment ever emitted, first or again, carries the stream's bytes at its sequence number, and `snd_una`, `snd_nxt` and the end of the buffer stay in order. |
| `TcpStream.InputIs` | drivers/net/tcp.c:375-452 | What an arrival does in the runs is what it does to the control block, with the same segments. |
| `TcpStream.StaleTakenIff` | drivers/net/tcp.c:406-432 | Of a segment of any age, data is taken exactly when its age modulo 2^32 is less than its length and there is room; it then continues the stream if and only if the stream repeats itself there. |
| `TcpBlock.ControlBlock.Cut` | drivers/net/tcp.c:128-146 | The cutting loop emits the specified segments and ends at the specified cursor. |
| `TcpBlock.ControlBlock.Send` | drivers/net/tcp.c:205-221 | Sending appends to the buffer in place and fires, or refuses; the timer is set exactly when `snd_nxt` moves, and runs while something is on the way. |
| `TcpBlock.ControlBlock.Recv` | drivers/net/tcp.c:223-244 | Receiving takes the oldest bytes of the ring and reopens the window. |
| `TcpBlock.ControlBlock.Release` | drivers/net/tcp.c:395-398 | The move in place drops the acknowledged bytes and keeps the rest. |
| `TcpBlock.ControlBlock.Input` | drivers/net/tcp.c:375-452 | Arrival of a segment does to the block, and emits, what the specification of `TcpLaws.InputDoes` and `TcpLaws.AheadRefused` says; the timer is stopped, set or left as the acknowledgement and the sending that follows say, and runs while something is on the way. |
| `TcpBlock.ControlBlock.Tick` | drivers/net/tcp.c:591-612 | The timer resends the whole buffer, or gives up exactly when five retries are counted, and changes no stream field; it is set again with the doubled delay. |
| `TcpBlock.SendsCount` | drivers/net/tcp.c:147-151 | Sends count as retries: the first timeout gives up without resending if and only if five sends or more moved `snd_nxt` since everything was acknowledged. |
| `Ext2Map.PointerAt` | scripts/make_ext2.py:435-440 | Entry j of a pointer block reads as the j-th word, or 0 behind the last. |
| `Ext2Map.AllocFileBlocks` | scripts/make_ext2.py:155-196 | The builder's loop lays out pointers, indirect blocks and the next free block as specified. |
| `Ext2Map.Contiguous` | scripts/make_ext2.py:170-194 | Data and pointer blocks are all distinct and fill one contiguous range. |
| `Ext2Map.ReadsBack` | kernel/fs/ext2.c:403-446 | For every payload up to the largest the map can hold, the kernel finds the i-th block for every i below the length and nothing for any other i. |
| `Ext2Image.WritePointers` | scripts/make_ext2.py:435-440 | The writer packs the words in place into a zeroed block. |
| `Ext2Image.ImageReadsBack` | scripts/make_ext2.py:435-443 | For any number of files, with other blocks between them: the image is built if and only if no payload is empty, and then every block of every file is found and holds what the builder wrote. |
| `Ext2Bitmap.CandidateIs` | kernel/fs/ext2.c:227-237 | The two masks leave exactly the clear bits of the range, most significant first. |
| `Ext2Bitmap.ScanBlock` | kernel/fs/ext2.c:225-244 | The byte-wise scan sets the smallest clear bit of the range. |
| `Ext2Bitmap.BlockMap.Alloc` | kernel/fs/ext2.c:207-248 | The smallest clear bit from the data start up to the total is set, alone, and counted; 0 exactly when there is none. The scan's counter is 32 bits wide. |
| `Ext2Bitmap.GuardFailsIff` | kernel/fs/ext2.c:212-216 | The guard of that scan fails for some counter if and only if the total lies at least a bitmap block below 2^32. |
| `Ext2Bitmap.BlockMap.Free` | kernel/fs/ext2.c:250-276 | A set bit is cleared and counted; a clear bit, block 0 and numbers behind the end change nothing. |
| `Ext2Bitmap.WithBlockIs` | kernel/fs/ext2.c:238-239 | Changing one bit changes the state of one block. |
| `Ext2Bitmap.AllocThenFree` | kernel/fs/ext2.c:207-276 | Freeing what was allocated restores the bitmap. |
| `FileSlots.StepKeepsInv` | kernel/fs/file.c:26-80 | Every step of every thread keeps: a bit is set exactly while its slot is reserved or owned, and owners are unique. |
| `FileSlots.SlotsExclusive` | kernel/fs/file.c:26-80 | In every interleaving of any number of threads no two hold one slot or write its fields at the same time, and a bit is set exactly while the slot is reserved or held. |
| `FileSlotCalls.AllocAlone` | kernel/fs/file.c:26-57 | A reservation without interference gets the smallest free slot, or none exactly when all are taken, and then changes nothing. |
| `FileSlotCalls.FreeAlone` | kernel/fs/file.c:59-80 | A release without interference frees exactly that slot. |
| `FileSlots.InitialInv` | kernel/fs/file.c:16-24 | The initial table satisfies the invariant, with slots 0 to 2 reserved. |
| `InodeCache.StepKeepsInv` | kernel/fs/inode.c:10-66 | Every interrupt-off section of open and close keeps one object per number and exact counts. |
| `InodeCache.CacheCoherent` | kernel/fs/inode.c:10-66 | In every interleaving an inode number has at most one cached object, every handle points to a cached object, and its count is the number of its handles. |
| `InodeCache.OpenGives` | kernel/fs/inode.c:10-52 | An open that ends with a handle gives one more on the object cached for the number asked for. |
| `InodeCache.NoneGiven` | kernel/fs/inode.c:10-66 | No other section gives a handle, and a close takes the one it is given. |
| `InodeCache.OpenAlone` | kernel/fs/inode.c:10-52 | An open of a number that is not cached, without interference: if the inode can be read, exactly that number is cached and held once more; if not, nothing has changed. |
| `InodeCache.CloseAlone` | kernel/fs/inode.c:54-66 | Closing it again gives back the cache as it was. |
| `InodeCache.CloseFrees` | kernel/fs/inode.c:54-66 | A close takes its number out of the cache exactly when no other handle is left, and never another number. |
| `IoQueue.Ring.TryPut` | drivers/char/ioqueue.c:48-63 | The producer's section stores in place or registers, and wakes a registered consumer. |
| `IoQueue.Ring.TryGet` | drivers/char/ioqueue.c:65-81 | The consumer's section likewise. |
| `IoQueue.StepKeepsInv` | drivers/char/ioqueue.c:48-81 | Every section keeps: got plus queued is put, and a side is registered exactly while blocked and only for good reason. |
| `IoQueue.NoLostWakeup` | drivers/char/ioqueue.c:35-81 | In every interleaving the bytes got are a prefix of the bytes put, the sides are never blocked together, and a blocked side is registered with the queue full or empty. |
| `Checksum.FoldIs` | drivers/net/ip.c:34-35 | The folding loop ends, keeps the value modulo 65535, and gives 0 only for 0. |
| `Checksum.FilledPasses` | drivers/net/ip.c:81-91 | Filling the zeroed field with the checksum makes the receiver's checksum 0, for any length, even or odd, and any pseudo-header. |
| `Checksum.AlteredPassesIff` | drivers/net/ip.c:46-47 | A passing packet with one word altered still passes if and only if the word went from 0000 to FFFF, or from FFFF to 0000 with a sum above 65535. |
| `Checksum.AlteredByteFails` | drivers/net/ip.c:23-47 | A passing packet of any length with any one byte altered, an odd last one included, does not pass. |
| `Checksum.PseudoIs` | drivers/net/tcp.c:29-42 | The pseudo-header sum is that of its twelve bytes: addresses, zero, protocol 6, length. |
| `Checksum.SumWords` | drivers/net/ip.c:23-37 | The summing loops on 32-bit words are exact as long as the sum fits. |
| `Checksum.IpCsum` | drivers/net/ip.c:23-37 | So the IP checksum is exact up to 65537 words. |
| `Checksum.TcpSum` | drivers/net/tcp.c:29-50 | The TCP checksum with its pseudo-header is exact for every segment length. |
| `Checksum.HeaderPasses` | drivers/net/ip.c:79-91 | The header the IP layer builds passes its own input test, whatever its fields. |
| `Checksum.IpHeader` | drivers/net/ip.c:79-91 | Stored field by field, checksum last, it is that header, passes, and reads back the length, protocol and addresses asked for. |
| `Checksum.SealSegment` | drivers/net/tcp.c:97-111 | A segment sealed by the sender passes the receiver's test. |

## Left out

- The inode table and path lookup of ext4: they repeat the shape of directory iteration. Inode allocation is modelled for its counts and bitmaps (`CrashRuns`), not for what an inode holds.
- Checksums of metadata (crc32c), timestamps, permissions and link counts: any value is allowed where the code stores them.
- Page allocation and device errors: every page request and device transfer succeeds, as a hypothesis. Allocation of disk blocks may fail and is modelled.
- In runs with crashes, logs of other writers: those runs start from a journal without transactions newer than the superblock's sequence number; a run is shorter than 2^32 transactions, and no journalled block starts with the magic number in either byte order. One recovery from any log is `ForeignLog.ReplayIs`. Revoke blocks are not known to the code.
- The counts of runs without a journal or with the block cache, where transactions themselves are not atomic (`JournalLimits.AtomicIff`), and releases of blocks in groups marked uninitialised, from which nothing is allocated.
- Extent trees with uninitialised extents longer than 32768 blocks, and file blocks from 2^32 - 1 on, which 32-bit file offsets cannot reach.
- ExtentStore.ExtentFile.LeafInsert: with block size 4096 the split of a full leaf overruns its scratch page (`ExtentDisk.ScratchFits`); the model's node has no such limit, so what the overrun damages is not said.
- ExtentStore.ExtentFile.InsNode: the same limit of the scratch page at block size 4096, for index nodes.
- ExtentStore.ExtentFile.ExtInsert: holds for block sizes up to 2048, where the scratch page suffices; at 4096 only until a node splits.
- Truncation.TruncateInode: a recursion that strays into a block that is not an extent node is not covered: the page then holds that block's bytes, and what is freed next depends on them. Nor is one that does not end.
- Truncation.InodeBlocks: the same two cases are not covered.
- Ownership.TruncateKeepsOwn: the function it speaks of visits blocks of the tree only; for a truncation that strays there is `Truncation.FreeingKeepsOwnIff`.
- Ownership.RunKeepsOwnIff: a run ends before a truncation that would stray, which `TreeBlocks.SmallVolume` and `TreeBlocks.StraysIff` tell by the tree.
- Ext2Bitmap.BlockMap.Alloc: a full volume whose total is less than a bitmap block below 2^32 is excluded: the scan does not end there (`Ext2Bitmap.GuardFailsIff`).
- FileWrite.FileSystem.Write: after the ownership hazard (`Breaks`) the contents are not described, only that consistency is lost; trees whose depth does not fit 16 bits are not claimed to be on disk.
- FileData.Read: in a read that passes position 2^32 the bytes from there on are not described.
- A directory whose size is not a whole number of blocks. A record header that would start in the last seven bytes of the page counts as malformed, where the driver would read past the page.
- TCP connection set-up, FIN and close, RST and SYN in the established state, and liveness of retransmission. `TcpStream` requires arriving packets to be less than 2^31 bytes old; sequence numbers may wrap.
- The send window: a segment is cut by the whole window, not by what remains of it, and nothing is claimed about respecting it beyond `Tcp.FireEndIs`.
- ext2 allocation of pointer blocks on write and ext2 truncation: only the builder's layout and the kernel's reading of it are modelled.
- Reference counts of file slots and the descriptor tables of tasks; a slot is freed only by its owner, as a hypothesis.
- Several partitions in the inode cache: close erases from the current partition's tree, which is the one the inode is in only when there is a single partition. Open counts are unbounded.
- More than one producer or consumer on the byte queue: the waiter fields hold one thread each.
- UDP, ICMP, ARP, the scheduler, locks, the red-black tree and all hardware drivers.
