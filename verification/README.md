# BPFS and the libfuse node layer in Dafny

BPFS keeps a file system in byte-addressable persistent memory. Every file, and the table of inodes itself, is a tree of
4096-byte blocks. A change is made on copies of blocks, and one 8-byte store at the highest block that had to change commits it.
This project models that machinery, the allocator and the shadow-paging layers below it, and the parts of libfuse 2.9.5 through
which requests reach a file system: path locks, node tables and reference counts, byte-range locks, buffers and option strings.

The memory is a map from block numbers to blocks of 512 words. Beside it the model keeps, as ghost state, the set of memories a
crash may leave: every store adds one, and a copy of many bytes adds every torn mixture. "Every crash" below quantifies over
that set. A block's ghost label is its place: the tree it belongs to, its level and the first byte it covers.

| file | what it models |
|---|---|
| Words, Sequences, Layouts, Tree | words and bytes, sequences, bucket layouts, the shape of a tree and what it shows |
| Bpram | stores, `atomic_memcpy`, allocation, the three copying operations of `bpfs.c`, commit and abort of allocations |
| Crawler, FileTree, ZeroFill, TreeWrite, Volume | a write: leaf, indirect block, tree root, inode tree, whole volume |
| Space | how many blocks a write takes, and which pointers it replaces before it may fail |
| Request | a request up to its commit or abort |
| OneFile, LostByte, LostBlock, WrongReads | concrete volumes and files on which a finding below shows |
| ReadCrawl, FileRead | a read, with holes and with files longer than their trees |
| Discovery | the two traversals that find the blocks of a file |
| Rename, RenameSpace | the change of two directory entries in one commit, and what it costs |
| Scsp, ScspStage | short-circuit shadow paging: staging, commit and abort |
| SuperBlock | the two super-block copies, their crashes and recovery |
| Bitmap, HashMap | the block bitmap with its transaction, the hash map with its iterator |
| TreeLock, NodeTable, NodeRefs, ByteLocks | path locks, linear-hashing tables, node references, byte-range locks |
| Buffer, FuseOpt | copies between buffer vectors, joining and splitting of option strings |

## Model

| member | source | states |
|---|---|---|
| `Bpram.CanAtomicWriteIffOneWord` | bpfs/bpfs.c:1066-1070 | The test accepts a range exactly when its bytes lie in one 8-byte word. |
| `Bpram.StoreUnit` | bpfs/bpfs.c:2492-2505 | The unit that `atomic_memcpy` stores is the least of 1, 2, 4 and 8 bytes that holds the range. |
| `Bpram.AtomicPatchArrived` | bpfs/bpfs.c:2492-2505 | What `atomic_memcpy` leaves: the bytes up to the end of the store unit are the new ones, the others the old ones. |
| `Bpram.AtomicPatchExact` | bpfs/bpfs.c:2492-2505 | `atomic_memcpy` delivers all its bytes, for every block and every content, if and only if the range does not cross the 1, 2, 4 or 8 byte unit it stores. |
| `Bpram.Bpram.CowBlock` | bpfs/bpfs.c:816-857 | A fresh block gets the bytes of the old one outside the range, up to the valid ones; no crash touches a block that was in use; without space nothing changes. |
| `Bpram.Bpram.CowBlockHole` | bpfs/bpfs.c:859-877 | A fresh block is zero outside the range up to its valid bytes, and its other bytes are whatever the free block held. |
| `Bpram.Bpram.CowBlockEntire` | bpfs/bpfs.c:879-910 | A fresh block equals the old one; no crash touches a block that was in use. |
| `Bpram.Bpram.AllocBlock` | bpfs/bpfs.c:558-573 | A block that was not in use is taken, if and only if there is one. |
| `Bpram.Bpram.CommitBlocks` | bpfs/bpfs.c:689-692 | The blocks in use are those of before without the ones staged as freed, and the next transaction begins with them. |
| `Bpram.Bpram.AbortBlocks` | bpfs/bpfs.c:684-687 | The allocations staged since the transaction began are taken back: the blocks in use are those it began with, and nothing is staged any more. |
| `CrawlArithmetic.ShareChild` | bpfs/crawler.c:154-207 | The offset, size, valid bytes and block offset computed for an entry describe exactly that entry's part of the range, at every height, for every entry from the first to the last. |
| `WriteCrawl.CallbackWrite` | bpfs/bpfs.c:3458-3493 | The write is in place exactly when the commit mode is free, or atomic with the bytes invisible or in one word; otherwise it is on a copy. It names the bytes that arrive and every memory a crash can leave. |
| `WriteCrawl.CrawlLeaf` | bpfs/crawler.c:18-72 | The leaf, new or rewritten, reads as the written contents; until the commit every crash reads as the old ones; a write in one word of an existing block succeeds in place. It fails exactly when it needs a block and none is free. |
| `WriteIndir.CrawlIndir` | bpfs/crawler.c:105-261 | The same for an indirect block of any height and any range: subtree by subtree the new tree reads as the write asked, the old tree stays readable until one store commits, and only blocks of this tree are touched. It takes exactly the blocks that `SpaceSpec.Need` counts from the old pointers and fails exactly when fewer are free; no leaf goes missing; and, seen with the blocks in use before, the old tree is intact if and only if no pointer of it was replaced in place (`SpaceSpec.Plugs`). |
| `SpaceSpec.NeedShape` | bpfs/crawler.c:105-261 | What a write needs depends only on the pointers that a reader of the old file follows. |
| `SpaceSpec.InsideDone` | bpfs/crawler.c:105-261 | A write inside the file that replaces a pointer in place has all the blocks it needs, so nothing fails after that store. |
| `SpaceSpec.AppendKeeps` | bpfs/crawler.c:105-261 | An append to a file whose last block exists replaces no pointer of the old file, with any number of free blocks. |
| `SpaceSpec.AppendMoves` | bpfs/crawler.c:208-228 | The pointer to a visible subtree changes in an append if and only if the subtree is missing, or the append crosses entries of its table and the pointer below the first of them changes in the same way. For a table that exists this is when the assertion at line 221 fails, if the blocks for the subtree are free; with fewer the crawl has returned before that line. |
| `Root.HaRoundTrip` | bpfs/bpfs.c:1240-1250 | Height and block number of a tree root are read back from the one word that holds both. |
| `Height.TreeMaxNblocks` | bpfs/bpfs.c:1155-1160 | The loop computes the number of blocks a tree of that height addresses. |
| `Height.TreeHeight` | bpfs/bpfs.c:1162-1170 | The height is the least one whose trees address that many blocks. |
| `Height.HeightBound` | bpfs/bpfs.c:1162-1170 | The height is at most 5 if and only if the size is at most 2^57 bytes, and only then does the capacity fit 64 bits. |
| `Height.RaiseHeight` | bpfs/bpfs.c:1172-1238 | Adding levels keeps the contents, the leaves, the size and every other word; the new levels lead nowhere but to the old tree, of which no pointer changes; every crash shows the same file. It takes one block a level. It fails if and only if there is a tree and fewer blocks are free than levels are added, and the root is then as it was. |
| `ZeroFill.TruncateBlockZero` | bpfs/bpfs.c:2313-2470 | After it the tree reads as the file followed by zeros up to the new end; the file itself, and what every crash shows, is unchanged. |
| `TreeWrite.Prepare` | bpfs/crawler.c:304-379 | Before the crawl the tree is tall enough and zero up to the start of the write, and neither the file nor any crash shows a difference. |
| `TreeWrite.CrawlTree` | bpfs/crawler.c:304-474 | A write of any bytes at any offset leaves the file with those bytes over the old or zero-padded ones, in place or under a copied root; every crash shows the old file or the new one. It takes exactly `TreeSpace.WriteCost` blocks, counted from the old memory whether or not the tree must be raised, and fails exactly when fewer are free. When a write failed, the old file is intact among the blocks in use before it if and only if not `TreeSpace.Loses`, which is read off the old tree and the number of free blocks. |
| `TreeSpace.StackedNeed` | bpfs/crawler.c:304-474 | What the crawl of a raised tree needs, read off the tree before it was raised: in each new level the first entry leads on and every other is a hole. |
| `TreeSpace.RaiseCosts` | bpfs/crawler.c:304-474 | A write that adds levels takes more blocks than levels. |
| `TreeSpace.GuardedWrite` | bpfs/crawler.c:304-474 | A write that needs no taller tree, or finds no tree, and that starts inside the file or finds its last block there, succeeds whenever it replaces a pointer of the old file. |
| `TreeSpace.WholeFills` | bpfs/crawler.c:304-474 | A file without holes has none after a write that starts inside it or at its end. |
| `Volume.WriteFile` | bpfs/bpfs.c:3538-3538 | For every file, offset and non-empty buffer, in a volume with an inode tree of any height: every crash shows all files as before the write or as after it, and every other file is unchanged. A write that runs out of space leaves all files showing what they did; the number of blocks it takes is exact; and going back to the blocks in use before leaves a proper volume if and only if not `TreeSpace.Loses`. |
| `Volume.ArrivesAll` | bpfs/bpfs.c:3524-3555 | The bytes that `WriteFile` leaves are the buffer's whenever the range does not cross the store unit. |
| `Volume.WriteExact` | bpfs/bpfs.c:3458-3493 | A write made in place gives the file that was asked for, for all files and buffers, if and only if the range does not cross the store unit. |
| `Volume.SolidKept` | bpfs/bpfs.c:1870-1897 | A write takes no block from another file, from a directory or from the inode tree, and a directory that grows at its end keeps having no hole. |
| `Request.CommitProper` | bpfs/bpfs.c:1672-1685 | A commit frees no block of a proper volume: afterwards every block that is reached is in use. |
| `Request.WriteRequest` | bpfs/bpfs.c:3524-3555 | A write request up to its commit or abort. It fails exactly when fewer blocks are free than `TreeSpace.WriteCost` counts. Committed, the volume is proper and shows the new file; aborted, the blocks in use are those of before, every file shows what it did, and the volume is proper if and only if not `TreeSpace.Loses` of the volume before the call. Directories keep having no holes; every crash shows the volume before or after. |
| `Request.GuardedRequest` | bpfs/bpfs.c:3524-3555 | A request for which the guard of `TreeSpace.GuardedWrite` holds leaves a proper volume, committed or aborted. |
| `Request.RaiseLost` | bpfs/bpfs.c:1172-1238 | A request that must raise the tree of a file that has one, while exactly the blocks for the new levels are free, fails and leaves an improper volume. |
| `LostBlock.AppendLosesFile` | bpfs/bpfs.c:1657-1670 | In a concrete volume with one free block, a byte appended to a file of one full block is refused, and the abort frees the new root of the file's tree while the inode points to it. |
| `LostBlock.TopPlugs` | bpfs/crawler.c:208-243 | An append that plugs a missing last block below its first entry and goes on to the next entry needs more than that block. |
| `LostBlock.AppendLosesBlock` | bpfs/bpfs.c:1657-1670 | In a concrete volume with one free block, a block appended to a sparse file of height 2 is refused, and the abort frees the block that plugs the hole while its table points to it. |
| `LostBlock.AppendCopiesTable` | bpfs/crawler.c:217-222 | For a file of 2093057 bytes and height 2 whose first table is missing, an append of 4096 bytes moves the pointer that the assertion says cannot move. |
| `LostByte.WriteLosesByte` | bpfs/bpfs.c:2492-2505 | In a concrete volume a write of two bytes at offset 1 succeeds and leaves the second byte as it was. |
| `ReadCrawl.CrawlHole` | bpfs/crawler.c:74-103 | The callbacks cover the range block by block exactly when the range starts at a block or stays in its first block. |
| `ReadCrawl.CrawlIndir` | bpfs/crawler.c:105-261 | The callbacks for a subtree's share cover it, and tell the truth about every block, unless the share starts inside a block of a hole and runs past it. |
| `FileRead.CrawlTree` | bpfs/crawler.c:304-474 | The reply assembled from the callbacks holds the file's bytes if and only if `ReadRight` holds of the range; the crawl aborts exactly when the range starts beyond the tree and the tree is not one indirect block high. |
| `FileRead.FuseRead` | bpfs/bpfs.c:3389-3456 | A read beyond the end is empty; any other is answered with the bytes of the file, as far as it goes, if and only if `ReadRight` holds. |
| `WrongReads.HoleWrong` | bpfs/crawler.c:74-103 | In a file of two blocks without a table, a read of 4097 bytes at offset 1 is not answered with the file's bytes. |
| `WrongReads.TrailWrong` | bpfs/crawler.c:417-420 | In a file of two blocks with a tree of one, a read of 8191 bytes at offset 1 is not answered with the file's bytes. |
| `WrongReads.BeyondAborts` | bpfs/crawler.c:395-406 | In the same file a read of one byte at offset 4097 aborts. |
| `Discovery.CrawlBlocknos` | bpfs/crawler.c:267-299 | The callback is called once for each block and for no other than: the data block of each byte of the range, and each indirect block on the way to such a byte that starts in the range; for a one-block file only if the range starts at 0. |
| `Discovery.DiscoverTree` | bpfs/bpfs.c:1299-1336 | The data block of every byte of the file is marked, and every indirect block on the way to it, each once, and no other block, for files no longer than their trees. |
| `DiscoverySpec.OnceFinds` | bpfs/crawler.c:105-261 | The blocks that a traversal collects subtree by subtree are exactly those on the way from the root down to a byte of the range. |
| `Discovery.DiscoverInside` | bpfs/bpfs.c:1299-1336 | The entries visited are inside the indirect block if and only if the file fits its tree. |
| `WrongReads.DiscoverOutside` | bpfs/bpfs.c:1299-1336 | For a file of 2097153 bytes and height 1 discovery reads a 513th entry. |
| `Discovery.TwoTraversals` | bpfs/crawler.c:267-299 | The crawl over a whole file and the discovery at mount visit the same blocks, each once: all data blocks of the file and all indirect blocks on the way to them. |
| `Rename.CrawlData2` | bpfs/crawler.c:575-732 | Two words of two directories, or of one, change in one commit: every crash shows both changes or neither, in every relative position of the inodes and of the words. It succeeds if and only if `Rename.RenameCost` blocks are free, and takes that many. Failed, it has changed no block in use, so the volume is proper again after an abort. No directory gets a hole. |
| `RenameSpace.PriceWhole` | bpfs/crawler.c:105-261 | What the entries of a table cost one after the other is what the ways to the two words come to: a block for each level, shared from where the ways meet, and in the atomic mode none above that. |
| `Rename.RenamePrice` | bpfs/crawler.c:640-732 | In one file the cost is twice the level at which the ways to the words meet, and one. In two files it is both heights, twice the level at which the ways to the inodes meet, and three. |
| `Rename.RenameCostBound` | bpfs/crawler.c:640-732 | As many free blocks as both heights, twice the height of the inode tree and three are always enough. |
| `Rename.OrderIrrelevant` | bpfs/crawler.c:699-732 | Sorting the two changes does not alter what they do together. |
| `Rename.SetDirents` | bpfs/bpfs.c:3007-3009 | The destination entry gets the inode number and the source entry loses it, both or neither, in every crash; all other files are unchanged. It succeeds if and only if `Rename.RenameCost` blocks are free. |
| `Request.ReplaceWords` | bpfs/bpfs.c:3007-3084 | The same up to the commit or abort: either way the blocks in use are those of a proper volume whose directories have no holes; it fails if and only if fewer than `Rename.RenameCost` blocks are free. |
| `Scsp.CowIsAtomicallyWritable` | bpfs/indirect_cow.c:319-354 | The loop accepts exactly the blocks that differ in at most one word, and returns that word and its place. |
| `Scsp.Cow.FindCommit` | bpfs/indirect_cow.c:402-421 | The chain from the super block down is found, each copy the only copied child of the one before and written by one store, to the first that is required or whose copied child differs in more than one word. |
| `Scsp.CommitSame` | bpfs/indirect_cow.c:356-481 | After the commit a reader of the persistent tree finds along every path what the running system finds in its copies. |
| `Scsp.OldSame` | bpfs/indirect_cow.c:444-458 | While only the copies' own blocks have been written, every path from the super block reads as before. |
| `Scsp.Cow.Commit` | bpfs/indirect_cow.c:356-481 | Every crash shows the old tree or the final memory, which shows the running system's tree. The copies that are reverted, and unallocated, are those from the super block down to the first that is required or whose one copied child differs in more than one word; their originals are no longer freed. All other allocations and frees stay. |
| `Scsp.CommitUnique` | bpfs/indirect_cow.c:402-421 | There is only one such descent, so what a commit unallocates is determined by the transaction. |
| `Scsp.StaysBelow` | bpfs/indirect_cow.c:429-442 | A copied child that stays while its parent is reverted hangs below the last copy reverted. |
| `StageSpec.Reaches` | bpfs/indirect_cow.c:147-298 | A stage that the operations below have built, with its children linked, is one that the commit accepts. |
| `ScspStage.Stager.ParentPush` | bpfs/indirect_cow.c:147-190 | The block is found by its copy's number or its own, or created below the top of the stack, and the stage stays well formed. |
| `ScspStage.Stager.ParentPop` | bpfs/indirect_cow.c:192-200 | The top of the stack goes, and the stage stays well formed. |
| `ScspStage.Stager.BlockCow` | bpfs/indirect_cow.c:203-280 | The block has the copy, is listed once among its parent's copied children, and all links made before still hold. |
| `ScspStage.Stager.BlockRequired` | bpfs/indirect_cow.c:290-298 | The copy must be written, and nothing else changes. |
| `ScspStage.Stager.Store` | bpfs/bpfs.c:816-857 | A store into a copy that is required, or into its pointer to a copied child, keeps the stage well formed and the links of all other copies. |
| `ScspStage.Stager.Link` | bpfs/crawler.c:208-243 | Storing the child's copy into its parent's copy makes that link and keeps all others. |
| `ScspStage.Stager.Abort` | bpfs/indirect_cow.c:483-509 | Exactly the copies are unallocated and exactly their originals unfreed; memory is unchanged. |
| `SuperBlock.Persistent.Persist` | bpfs/bpfs.c:1510-1556 | Both copies become the staged super block, and the crashes on the way are those of its stores; an equal super block is not written. |
| `SuperBlock.OneCrash` | bpfs/bpfs.c:1469-1495 | From copies with one root, every crash recovers to the old or the new root. |
| `SuperBlock.EveryCrash` | bpfs/bpfs.c:1469-1495 | Every crash recovers to the old or the new root if and only if the second copy's root is one of them, or there is nothing to write. |
| `SuperBlock.NotEqualised` | bpfs/bpfs.c:1469-1495 | Recovery leaves equal copies if and only if they were equal or one was inconsistent. |
| `SuperBlock.TwoCrashes` | bpfs/bpfs.c:1469-1495 | A crash, a recovery and a second crash can bring back a root older than both. |
| `SuperBlock.RecoverAgain` | bpfs/bpfs.c:1469-1495 | A crash during recovery, whatever it leaves of the copy being written, changes nothing about what is recovered next. |
| `SuperBlock.RecoverAtLast` | bpfs/bpfs.c:1469-1495 | The same for any number of crashes during recovery. |
| `SuperBlock.CrashesRecover` | bpfs/bpfs.c:1469-1556 | From copies with one root, a crash of the update followed by any number of crashes of the recovery still gives the old or the new root. |
| `SuperBlock.RecoverCodes` | bpfs/bpfs.c:1469-1495 | Recovery succeeds if and only if the modes agree and the mode is short-circuit shadow paging, or it is shadow paging with one copy consistent; it reports two torn copies exactly when there are. |
| `SuperBlock.RecoverTwice` | bpfs/bpfs.c:1469-1495 | In either mode a second recovery changes nothing, and the root is that of one of the copies. |
| `SuperBlock.ScspRecovers` | bpfs/bpfs.c:1469-1495 | With short-circuit shadow paging, recovery keeps what one store into the super block left: the old root or the new one. |
| `Bitmap.BlockBitmap.Alloc` | bpfs/bpfs.c:369-390 | The least number not in use is taken; there is none exactly when the free count is 0; a number staged as freed is not reused. |
| `Bitmap.BlockBitmap.Free` | bpfs/bpfs.c:414-426 | A free is only staged: the number stays in use. |
| `Bitmap.BlockBitmap.Unalloc` | bpfs/bpfs.c:461-480 | One allocation of the transaction is taken back, and no other. |
| `Bitmap.BlockBitmap.Unfree` | bpfs/bpfs.c:428-449 | One staged free is taken back, and no other. |
| `Bitmap.BlockBitmap.Grow` | bpfs/bpfs.c:326-367 | Growing keeps the numbers in use and records the size before the first growth. |
| `Bitmap.BlockBitmap.Abort` | bpfs/bpfs.c:482-499 | The numbers in use and the free count are those before the transaction; the size is, if and only if it was not 0 or has not grown. |
| `Bitmap.BlockBitmap.Commit` | bpfs/bpfs.c:501-512 | The numbers in use are those before, with the allocations, without the staged frees. |
| `Bitmap.Aborted` | bpfs/bpfs.c:482-499 | Any sequence of allocations, frees, their undoing and growths, followed by an abort, gives back the bitmap it began with. |
| `Bitmap.GrowFromNothing` | bpfs/bpfs.c:482-499 | An empty bitmap grown by any amount and aborted keeps the new size and counts its numbers as free. |
| `Primes.NextSize` | bpfs/hash_map.c:72-79 | The size is the least of the listed primes that is not less than the number asked for. |
| `HashMap.HashMap.Insert` | bpfs/hash_map.c:288-345 | The map gains or changes the key, and says which; without memory nothing changes; the table grows when it may. |
| `HashMap.HashMap.Erase` | bpfs/hash_map.c:377-440 | The key goes, its value is returned, and the order of the other elements stays. |
| `HashMap.HashMap.ChangeKey` | bpfs/hash_map.c:442-493 | The value moves to the new key unless that key exists or the old one does not. |
| `HashMap.HashMap.Resize` | bpfs/hash_map.c:575-626 | The map is unchanged at every size. |
| `HashMapIteration.Iterate` | bpfs/hash_map.c:638-706 | An iteration returns every element once, even if the caller erases elements as they are returned, and exactly those are gone afterwards. |
| `TreeLockPaths.Locks.UnlockPath` | fuse-2.9.5/lib/fuse.c:915-934 | The locks along the path, and the write lock, are dropped, with waiting marks cleared at the last reader. |
| `TreeLockPaths.Locks.TryGetPath` | fuse-2.9.5/lib/fuse.c:936-1016 | It succeeds exactly when the directory leads up to the root, no node on the way has a writer or one that waits, and the entry to be written is not locked; it fails for good exactly when the directory is cut off. Then it holds the whole path; on failure nothing. |
| `TreeLockPaths.Locks.WakeUpQueued` | fuse-2.9.5/lib/fuse.c:1034-1096 | Requests outside the queue keep what they hold, and the queue keeps its requests. Afterwards no request waits for something that could be locked. |
| `TreeLockPaths.Locks.GetPath` | fuse-2.9.5/lib/fuse.c:1149-1170 | The request runs with its path locked if and only if the path is free, fails for good if and only if the directory is cut off, and otherwise waits at the end of the queue. |
| `TreeLockPaths.Locks.GetPath2` | fuse-2.9.5/lib/fuse.c:1204-1256 | Both paths are locked or neither is. Both are if and only if each is free and neither writes an entry that the other locks. It fails for good if and only if the first directory is cut off, or the first path is free and the second directory is cut off. |
| `TreeLockPaths.SecondFree` | fuse-2.9.5/lib/fuse.c:1182-1202 | Once the first path is taken, the second is free exactly when the two were free together. |
| `TreeLockPaths.Locks.WaitPathDone` | fuse-2.9.5/lib/fuse.c:1127-1147 | A request that leaves the queue without error holds what it asked for; with an error it holds nothing. |
| `TreeLockPaths.Locks.FreePath` | fuse-2.9.5/lib/fuse.c:1258-1273 | Exactly the request's path is given back before the queue is woken; afterwards no request waits for something that could be locked. |
| `TreeLockPaths.Locks.FreePath2` | fuse-2.9.5/lib/fuse.c:1275-1286 | Exactly the request's two paths are given back before the queue is woken; afterwards no request waits for something that could be locked. |
| `TreeLockPaths.Locks.AddNode` | fuse-2.9.5/lib/fuse.c:843-880 | A new unlocked node below a directory, under a name that is free, breaks no path that is held. |
| `TreeLockPaths.Locks.ForgetWait` | fuse-2.9.5/lib/fuse.c:1300-1307 | A forget that waits for a locked node joins the end of the queue and holds nothing. |
| `TreeLockPaths.Locks.ForgetDone` | fuse-2.9.5/lib/fuse.c:1307-1313 | It leaves the queue without disturbing the others. |
| `TreeLockPaths.Locks.RemoveNode` | fuse-2.9.5/lib/fuse.c:1335-1344 | Unlinking a node that is locked for writing breaks no path that is held. |
| `TreeLockPaths.Locks.RenameNode` | fuse-2.9.5/lib/fuse.c:1346-1380 | Moving a node that is locked for writing below a directory whose path is held breaks no path that is held, and makes no cycle. |
| `TreeLockPaths.Locks.DeleteNode` | fuse-2.9.5/lib/fuse.c:789-801 | Deleting an unlocked node without children, which no request names, breaks nothing. |
| `TreeLockPaths.LocksSafe` | fuse-2.9.5/lib/fuse.c:915-1286 | In every reachable state a node has at most one writer and then no reader, the lock field is exactly the number of readers, the waiting mark or the writer, and a request that waits behind the first of the queue holds nothing. |
| `NodeTables.NodeTable.Lookup` | fuse-2.9.5/lib/fuse.c:497-507 | A node with the key is found whenever there is one. |
| `NodeTables.NodeTable.Hash` | fuse-2.9.5/lib/fuse.c:621-659 | The node is added, and one bucket is split when the load asks for it. |
| `NodeTables.NodeTable.Unhash` | fuse-2.9.5/lib/fuse.c:547-602 | The node goes, and at most eight buckets are merged when the load asks for it. |
| `NodeTables.EmptyAbove` | fuse-2.9.5/lib/fuse.c:486-495 | Buckets that no split has reached are empty, and every node is in one place: the bucket where the lookup searches. |
| `NodeTables.Run` | fuse-2.9.5/lib/fuse.c:547-659 | Any run of insertions and removals, with any memory failures, leaves the table that holds exactly what it should. |
| `NodeTables.NameHash` | fuse-2.9.5/lib/fuse.c:661-676 | Hashing a name with wrap-around at every character is the polynomial modulo 2^64. |
| `NodeTables.NewTables` | fuse-2.9.5/lib/fuse.c:4556-4568 | Both tables of a mount start empty and well formed. |
| `RefSpec.CascadeKeeps` | fuse-2.9.5/lib/fuse.c:789-809 | Dropping a reference, with all deletions that follow, keeps every count equal to its lookups, pins and children, and deletes no node that is looked up, pinned or a parent. |
| `NodeRefs.NodeTree.Unref` | fuse-2.9.5/lib/fuse.c:803-809 | The recursion of unref and delete computes that cascade. |
| `NodeRefs.NodeTree.FindNode` | fuse-2.9.5/lib/fuse.c:843-880 | The node of that name, or a new one, has one more lookup; a new one adds a reference to its parent, and every other node is unchanged; without memory nothing changes. Exactly a node that had one lookup stops waiting to be cleaned. |
| `NodeRefs.NodeTree.ForgetNode` | fuse-2.9.5/lib/fuse.c:1288-1324 | The node has that many lookups fewer; while some are left nothing else changes, and with the last of them one reference goes, and the node exactly if it was the only one; the root stays. A node left with one lookup waits to be cleaned, if names are remembered for a time. All nodes that wait still have one lookup, if and only if it did not take the last one of such a node that something else refers to. |
| `NodeRefs.ForgottenExact` | fuse-2.9.5/lib/fuse.c:1288-1324 | The same of the node map, with every other node that is looked up keeping its lookups and its name. |
| `NodeRefs.NodeTree.PinDot` | fuse-2.9.5/lib/fuse.c:2631-2656 | Looking up "." holds a reference to the directory for as long as it lasts. |
| `NodeRefs.NodeTree.UnpinDot` | fuse-2.9.5/lib/fuse.c:2680-2684 | Afterwards that reference is dropped, with the deletions that follow. |
| `NodeRefs.NodeTree.UnlinkNode` | fuse-2.9.5/lib/fuse.c:1326-1333 | The node loses its name and, when names are remembered, one lookup; every other node that stays keeps its name and lookups, and stays if it is looked up; a node kept only by its children may be unlinked too. |
| `NodeRefs.NodeTree.RemoveNode` | fuse-2.9.5/lib/fuse.c:1335-1344 | Afterwards no node has the name; nodes that wait to be cleaned keep their one lookup. |
| `NodeRefs.NodeTree.RenameNode` | fuse-2.9.5/lib/fuse.c:1346-1380 | The node takes the new name and the node that had it loses it, with the library's lookup; every other lookup stays; busy and out of memory are told apart, and every count stays right. |
| `NodeRefs.CleanedGood` | fuse-2.9.5/lib/fuse.c:4111-4146 | An expired node goes exactly when nothing else refers to it, and no node that is looked up goes with it. |
| `NodeRefs.NodeTree.CleanCache` | fuse-2.9.5/lib/fuse.c:4111-4146 | The same for all expired nodes in turn, whose one lookup the assertion asks for: an expired node stays exactly if at its turn something besides that lookup refers to it; a node that the kernel holds goes only if it is expired and has lost its name. |
| `NodeRefs.HeldNodeExpires` | fuse-2.9.5/lib/fuse.c:1288-1333 | Two lookups, the removal of the name and the forgetting of one lookup leave a node that expires while the kernel holds it. |
| `NodeRefs.ForgetNothing` | fuse-2.9.5/lib/fuse.c:1288-1324 | Forgetting 0 lookups of a node that is not looked up takes a reference that belongs to a child or a pin: a count of 1 deletes the node, any other becomes one too low. |
| `ByteLocks.Node.LocksConflict` | fuse-2.9.5/lib/fuse.c:3712-3723 | The first conflicting lock is returned, or there is none. |
| `ByteLocks.Node.LocksInsert` | fuse-2.9.5/lib/fuse.c:3738-3810 | On each byte of the range the owner now has the new kind of lock, on every other byte and for every other owner nothing changes, and the list stays sorted; each lock has the process of the new one or of one it is a part of; it fails without memory and then changes nothing. |
| `ByteLocks.OneProcess` | fuse-2.9.5/lib/fuse.c:3738-3810 | If each owner is one process, every lock in the list names the process of its owner. |
| `ByteLocks.Run` | fuse-2.9.5/lib/fuse.c:3712-3810 | If locks are set only where no conflict was found, no byte ever has a write lock of one owner and any lock of another. |
| `Buffer.BufSize` | fuse-2.9.5/lib/buffer.c:19-32 | The size is the number of bytes of all buffers. |
| `Buffer.CopyOne` | fuse-2.9.5/lib/buffer.c:224-252 | Exactly the bytes of the range are copied. |
| `Buffer.BufCopy` | fuse-2.9.5/lib/buffer.c:278-318 | As many bytes as both vectors have left are copied, in order, across every cut of source and destination; the source's cursor advances by that many, the destination's if and only if the source was not used up first. |
| `FuseOpt.AddOptCommon` | fuse-2.9.5/lib/fuse_opt.c:117-139 | The option is appended after a comma, escaped if asked, and fits the buffer that is allocated. |
| `FuseOpt.ProcessRealOptionGroup` | fuse-2.9.5/lib/fuse_opt.c:294-332 | Working in place, the loop hands on exactly the unescaped parts between commas, and never overtakes what it reads. |
| `FuseOpt.EmptyFirstLost` | fuse-2.9.5/lib/fuse_opt.c:117-139 | Of an empty option and "a", joined, only "a" comes back. |
| `FuseOpt.RoundTripStrings` | fuse-2.9.5/lib/fuse_opt.c:117-332 | Options joined with escapes are split into the same options, for all lists of C strings, if and only if the list is a single option or does not begin with an empty one. |

## Findings

Where the code does not do what is asked of it, the model keeps the code, and a member states exactly when it does.

- `atomic_memcpy` rounds up to a unit of 1, 2, 4 or 8 bytes and stores only the unit that holds the first byte. A write of 2 to
  4 bytes inside one word that crosses its unit loses the bytes beyond it, and the request succeeds (`Bpram.AtomicPatchExact`,
  `Volume.WriteExact`, `LostByte.WriteLosesByte`). Crash atomicity holds for these writes too.
- An abort gives the blocks that a failed write allocated back to the bitmap, also when the write has already stored a pointer to
  one of them in the old file. This happens in two ways. A write that needs a taller tree stores the new root before it crawls, and
  a later allocation may fail. An append whose first byte falls into a missing last block may plug that hole with one store and
  then fail at the next entry of a table above. The file still shows its old bytes, but the block is free and the next
  allocation may take it. `Request.WriteRequest` says exactly when, `Request.GuardedRequest` what a caller can check before the
  call, `Request.RaiseLost`, `LostBlock.AppendLosesFile` and `LostBlock.AppendLosesBlock` give inputs. A rename never does this
  (`Request.ReplaceWords`).
- The assertion at bpfs/crawler.c:221 fails for an append into a missing last block that crosses entries of the table above it
  while the blocks for it are free (`SpaceSpec.AppendMoves`, `LostBlock.AppendCopiesTable`).
- `crawl_hole` does not cut its first piece at the end of the block, so a read that starts inside a block of a missing indirect
  block and runs into the next block is answered wrongly (`ReadCrawl.CrawlHole`, `FileRead.CrawlTree`, `WrongReads.HoleWrong`).
- The last call of `crawl_tree_ref` for a file longer than its tree passes an offset relative to the range, and a range that
  starts beyond the tree fails an assertion (`FileRead.CrawlTree`, `WrongReads.TrailWrong`, `WrongReads.BeyondAborts`).
- Discovery runs past the top indirect block of a file longer than its tree (`Discovery.DiscoverInside`,
  `WrongReads.DiscoverOutside`).
- An abort after growing from a bitmap of size 0 keeps the new size, because 0 also means that no size was recorded
  (`Bitmap.BlockBitmap.Abort`, `Bitmap.GrowFromNothing`).
- Recovery from a crash between the two super-block copies leaves them different, and the next crash can bring back the older
  root (`SuperBlock.EveryCrash`, `SuperBlock.TwoCrashes`).
- An empty first option disappears when options are joined (`FuseOpt.RoundTripStrings`).
- With `remember`, a node whose name was removed can wait to be cleaned with a lookup that is the kernel's, and is deleted under
  it when it expires (`NodeRefs.NodeTree.CleanCache`, `NodeRefs.HeldNodeExpires`). If it has children and the kernel forgets that
  lookup, the assertion at fuse-2.9.5/lib/fuse.c:4133 fails instead (`NodeRefs.NodeTree.ForgetNode`).
- `forget_node` with a count of 0 on a node without lookups drops a reference it does not own (`NodeRefs.ForgetNothing`).
- `fuse_buf_copy` leaves the destination's cursor behind when the source ends first (`Buffer.BufCopy`).

## Left out

- WriteCrawl.CrawlLeaf: the mode in which every change may be made in place is excluded, because a write request passes only the atomic and the copying one; the callback's early stop is not modelled, because `callback_write` returns only 0 or out of space.
- WriteIndir.CrawlIndir: the same two cases are excluded; the assertion at bpfs/crawler.c:221 is not part of the method, which goes on as a build without assertions does. The indirect crawl is written out once for each callback (write, read, block numbers, double write).
- Height.RaiseHeight: the lowering half of `tree_change_height`, and the mode that copies the block of the root, are not modelled.
- TreeWrite.CrawlTree: sizes up to 2^57 bytes, beyond which the capacity of a tree overflows 64 bits, and buffers that are not empty; the kernel sends no write of 0 bytes.
- Volume.WriteFile: the same bounds; the update of the modification time that follows, the pointers to an anti-cache disk and the locks around requests are not modelled. Bytes that `atomic_memcpy` would store beyond its local buffer are modelled as bytes that do not arrive.
- Request.WriteRequest: the update of the modification time between the write and the commit is not modelled; nothing is staged when the request begins.
- Request.ReplaceWords: the calls of `fuse_rename` before and after `crawl_data_2` are not modelled.
- FileRead.FuseRead: the reply is the concatenation of what the callbacks deliver, while the code replies with one slot for each block of the range; for a range that starts inside a block and whose part beyond the tree is longer than that offset but at most one block, the "only if" half rests on the length of the concatenation. Sizes up to 2^57 bytes and reads that are not empty; the access time is not modelled. Bytes that no callback fills are an arbitrary parameter.
- Discovery.DiscoverTree: files longer than their trees are excluded, since `Discovery.DiscoverInside` shows that the traversal then leaves the block.
- Rename.CrawlData2: the inode tree and the directories have no holes; `Volume.SolidKept` and this method's own contract show that every operation of the model keeps it so, and a new directory is empty. Running out of space in the second of two separate crawls is an error of the whole.
- Rename.SetDirents: the same; link counts, times and the check for empty directories around it are not modelled.
- Scsp.Cow.Commit: the direct-write optimisation and the compile-time options of the shadow-paging layer are not modelled.
- ScspStage.Stager.BlockCow: memory failures of the tables are not modelled; a copy that need not be written starts as a copy of the whole block.
- HashMap.HashMap.Insert: sizes beyond the largest listed prime are excluded; a chain is a sequence, so the pointers inside it, here and in `NodeTables`, are not modelled.
- Bitmap.BlockBitmap.Grow: shrinking outside an abort, and the debugging loop over dropped bits, are not modelled.
- TreeLockPaths.Locks.GetPath: fewer than 2^30 requests at once, so that the lock field cannot overflow, and no failure to allocate a path string; fairness of waiting is not stated.
- TreeLockPaths.Locks.WakeUpQueued: the signal to a forget that waits for a node, and then looks at the node again, is not modelled.
- TreeLockPaths.Locks.RemoveNode: the node that is unlinked is the one locked for writing. The code looks the name up again under the lock, and only the kernel's lock on the directory keeps another node from getting the name in between.
- TreeLockPaths.Locks.RenameNode: the same for both names.
- TreeLockPaths.Locks.DeleteNode: the caller must know that no request names the node, which the lookup counts of the kernel guarantee.
- NodeRefs.NodeTree.RenameNode: the new parent is looked up and is not below the node that moves, as the kernel guarantees.
- ByteLocks.Run: that a conflict is checked before a lock is set is an assumption, since libfuse leaves the check to the file system.
- Buffer.BufCopy: buffers that are file descriptors, and splicing, are not modelled.
- FuseOpt.ProcessRealOptionGroup: what the option callbacks do, and their failure, is not modelled.
- Allocation is any free block, so the order in which the bitmap hands blocks out plays no part in the write path.
- Truncation to a smaller size is not modelled. Attributes, links, directory contents, `fsck`, `mkfs` and the benchmarks are not modelled either.
- The session loop, the kernel channel, the mount helpers, signals and the module loader of libfuse are input and output.
