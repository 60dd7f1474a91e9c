# Flatfs: verified models of its hash table, path walk, rename guard and address allocator

This project models three parts of the repository in Dafny and proves what they are for.

**The cuckoo hash table** (`flatfs/cuckoo_hash.c`, `flatfs/hash.c`). `CuckooHash.Cuckoo` is the table with its fields and
loops; every method is proved to compute a function of the table value (`CuckooSpec`), and the lemmas are about those
functions. Insertion with evictions adds exactly one entry and moves entries only between their own buckets, or fails
leaving everything as it was; a planned path is a simple path because a deterministic walk that repeats never ends
(`Orbit`); doubling the table can never run out of room; over whole runs the table answers queries as a finite map
(`CuckooRun`). `CuckooEviction` says what insertion and resizing do slot by slot, without the search and the plan. The
table proofs hold for every hash function. `XxHash` is the hash itself, over machine words kept as numbers (`Bits`): it
reads each byte once, is a bijection of its seed on short inputs, and cannot collide in a single tail lane.
`XxHashReference` is XXH64 as its specification words it, proved to be the same function on all inputs.

**Paths and renames** (`extra/namei.c`). `PathResolve` resolves a path by recursion, splicing in the body of each link;
`PathWalk.Nameidata` is the explicit-stack walker, proved to reach the same parent and last component or the same
error, within its stack; `PathSplice` is the resolution of POSIX, which works off a list of components and puts those of
a link in front, and both are proved to be it. `Rename.Dcache` is `lock_rename`, `do_renameat2` and `vfs_rename` over a tree of dentries.
Their specification never mentions the "trap": it says which dentries are above which, and the trap tests are proved to
decide exactly that; `RenameRules` says outright when a rename succeeds and which error it gives otherwise. `Forest` and `DentryTree` say exactly which moves and exchanges leave a rooted tree. `NameHash`
hashes path components a word at a time.

**The flat allocator** (`flatfs/lba.c`, `flatfs/flatfs_d.h`). `BkdrHash` is the name hash, `FlatAddress` the packing of
a file and a block into an address, `SlotTable.HashTable` the slot table with its directory scan, and `Volume` whole
runs over many directories.

Code that updates fields or variables step by step is a method, with the source's loops; address and index arithmetic
is functions. Long C functions are split into several methods, one per loop or phase.

Facts about the code that its own comments and constants do not suggest:

- `DEFAULT_FILE_BLOCK_BITS` gives a file 32 bits, but they count bytes: block indices are or-ed in shifted by 12, so the
  map from files and block indices to physical blocks is injective exactly up to 2^20 blocks a file
  (`FlatAddress.BoundsAreExact`). Block 2^20 of a file in an even slot is block 0 of the file in the next slot; in an odd
  slot it is block 0 of the file itself (`FlatAddress.BlockOverruns`).
- The guard of `delete_file` lets bucket 4096 and negative slots through (flatfs/lba.c:148), which are outside the
  table (`SlotTable.GuardAdmitsOutside`); `SlotTable.GuardExactly` says for which arguments an admitted call stays inside.
  Slot 8, one past the last, reads a padding bit that is never set. The one caller passes the fields of an inode: for a
  directory they are -1 (flatfs/inode.c:243-244) and turned away, for a file they were read off its inode number, and
  every inode number gives arguments in range (`SlotTable.DeletionByInoIsInside`).
- `big_ino_to_bucket` keeps 26 bits where 18 are hashed, so the bucket field of an expanded file also carries the low
  eight bits of its directory (`FlatAddress.BigFileIs`).
- `cuckoo_insert` does not look for the key it is given; inserting keeps the keys unique exactly if the key was not
  stored (`CuckooSpec.InsertKeepsKeysUniqueExactly`).

## Model

| member | source | states |
|---|---|---|
| `CuckooTable.ModDouble` | flatfs/cuckoo_hash.c:49-69 | Doubling the capacity sends an index c to c or to c plus the old capacity, whatever the hash |
| `CuckooTable.SeededIsModCapacity` | flatfs/cuckoo_hash.c:31-69 | The two buckets of a key are its two hash values modulo the capacity |
| `CuckooTable.SeededValid` | flatfs/cuckoo_hash.c:31-69 | The two seeded indices of any hash function stay below the capacity and split in two when it doubles |
| `CuckooTable.ItemsUpdate` | flatfs/cuckoo_hash.h:27-36 | Writing one slot exchanges that slot's entry for the new one in the multiset of entries and touches nothing else |
| `CuckooTable.ContentsSize` | flatfs/cuckoo_hash.c:142-147 | With unique keys the number of entries is the size of the map |
| `CuckooTable.SumBounded` | flatfs/cuckoo_hash.c:142-147 | The number of entries never exceeds the number of slots |
| `Orbit.SearchIsExact` | flatfs/cuckoo_hash.c:154-211 | A bounded walk from an admissible start is never stuck and returns exactly the first hit, or that there is none |
| `Orbit.OrbitIsSimple` | flatfs/cuckoo_hash.c:154-211 | Up to its first hit a deterministic walk meets nothing twice |
| `CuckooPath.Image.FindPathExact` | flatfs/cuckoo_hash.c:154-211 | In a well-placed table find_path is 0 iff the first MAX_EVICTION steps offer no empty slot, else the index of the first that does; its error branch is unreachable |
| `CuckooPath.Image.FoundPathIsChain` | flatfs/cuckoo_hash.c:154-211 | A found path starts at the slot asked for, has distinct occupied sources, each target the next source, an empty last target, and every key moved to one of its own buckets |
| `CuckooSpec.EvictAlongChain` | flatfs/cuckoo_hash.c:213-228 | Running a chain backwards and writing the new entry at its start adds exactly that entry and keeps every entry in one of its two buckets |
| `CuckooSpec.ChoiceIsChain` | flatfs/cuckoo_hash.c:261-303 | With both buckets full the path kept starts in one of them and is a chain, and none is kept iff all eight searches are exhausted |
| `CuckooSpec.InsertAddsEntry` | flatfs/cuckoo_hash.c:230-306 | A successful insertion adds exactly the new entry, keeps the table well placed and its capacity |
| `CuckooSpec.InsertFailsExactly` | flatfs/cuckoo_hash.c:230-306 | Insertion fails iff both buckets are full and every search from their slots is exhausted |
| `CuckooSpec.InsertKeepsKeysUniqueExactly` | flatfs/cuckoo_hash.c:230-306 | A successful insertion keeps the keys unique iff the key was not stored |
| `CuckooEviction.FindPathEscapes` | flatfs/cuckoo_hash.c:154-211 | find_path finds n moves iff the trail of displacements from the slot, each to the last slot of the key's other bucket, first meets a bucket with an empty slot at its n-th move, of at most 16 |
| `CuckooEviction.InsertFailsWithoutEscape` | flatfs/cuckoo_hash.c:230-306 | Insertion fails iff both buckets are full and no trail from any of their slots meets an empty slot within 16 moves |
| `CuckooEviction.ChoiceIsFollowed` | flatfs/cuckoo_hash.c:261-303 | The trail followed starts in the first slot number from which one escapes, in the first bucket if that one is strictly shorter and else in the second |
| `CuckooEviction.InsertDisplaces` | flatfs/cuckoo_hash.c:213-303 | Afterwards the new entry is where the trail starts, each key on it one place further, the last in the first empty slot of its other bucket, and every other position unchanged |
| `CuckooEviction.InsertDirectly` | flatfs/cuckoo_hash.c:241-258 | With room, the entry is in the lowest slot number empty in either bucket, the first bucket before the second, and every other position unchanged |
| `CuckooSpec.LocateExact` | flatfs/cuckoo_hash.c:308-358 | The alternating probe finds a slot with the key iff some slot of the table holds it |
| `CuckooSpec.QueryIsLookup` | flatfs/cuckoo_hash.c:335-358 | A query of a non-empty key answers what the finite map answers |
| `CuckooSpec.UpdateIsMapUpdate` | flatfs/cuckoo_hash.c:308-333 | An update succeeds iff the key is stored and changes that key's value only |
| `CuckooSpec.UpdateKeepsShape` | flatfs/cuckoo_hash.c:308-333 | Whatever the key, an update keeps the table well placed and its number of entries |
| `CuckooSpec.RehashSucceeds` | flatfs/cuckoo_hash.c:392-523 | While new buckets c and c plus capacity hold only what came from the first j slots of old bucket c, the entry of slot j finds a free slot in a bucket of its own |
| `CuckooSpec.ResizeNeverFails` | flatfs/cuckoo_hash.c:360-529 | From any well-placed table no error branch of a resize is reachable; the result holds the same entries, well placed for twice the capacity |
| `CuckooEviction.RehashPlaces` | flatfs/cuckoo_hash.c:392-523 | One entry goes to the first place its new buckets offer, both if its old buckets coincide and else the one that continues the old bucket; nothing else changes |
| `CuckooEviction.ResizeKeepsOffsets` | flatfs/cuckoo_hash.c:360-529 | Whatever new bucket b holds after a resize was held by old bucket b, or b minus the old capacity |
| `CuckooHash.Cuckoo.constructor` | flatfs/cuckoo_hash.c:100-152 | A new table is empty, well placed, and counts no entries |
| `CuckooHash.Cuckoo.FindPath` | flatfs/cuckoo_hash.c:154-211 | Computes the bounded walk and leaves the planned moves in one buffer, in bounds, without touching the other buffer or the table |
| `CuckooHash.Cuckoo.ExecutePath` | flatfs/cuckoo_hash.c:213-228 | The loop copies entries along the path, last move first |
| `CuckooHash.Cuckoo.Insert` | flatfs/cuckoo_hash.c:230-306 | SUCCESS leaves the table the specification gives, FAIL leaves every slot and the count unchanged; validity, with entry_num the number of entries, is kept |
| `CuckooHash.Cuckoo.InsertByEviction` | flatfs/cuckoo_hash.c:261-303 | The eviction half of an insertion, including the increment of entry_num |
| `CuckooHash.Cuckoo.Update` | flatfs/cuckoo_hash.c:308-333 | Leaves the table of the specified update, or FAIL and no change; the table stays valid, its count right |
| `CuckooHash.Cuckoo.Query` | flatfs/cuckoo_hash.c:335-358 | Returns the specified value and changes nothing |
| `CuckooHash.Cuckoo.Resize` | flatfs/cuckoo_hash.c:360-529 | Always succeeds on a valid table: leaves the table of the specified resize, valid for the doubled capacity, its count right |
| `CuckooRun.StepRefinesMap` | flatfs/cuckoo_hash.c:230-529 | For any three operations that are faithful: each insertion of a fresh key, update and resize does to the finite map what it says, and keeps the invariant |
| `CuckooRun.TableCallsAreFaithful` | flatfs/cuckoo_hash.c:230-529 | The operations of the table are faithful: insertion adds exactly its entry, update is the map update, resize always succeeds with the same entries |
| `CuckooRun.RunRefinesMap` | flatfs/cuckoo_hash.c:230-529 | The same over every run of calls of any faithful operations; `CuckooRun.QueriesFollowTheMap` applies it to the table |
| `CuckooRun.SizeIsBounded` | flatfs/cuckoo_hash.c:142-147 | In every reachable state entry_num is the size of the map and at most four times the capacity |
| `CuckooRun.QueriesFollowTheMap` | flatfs/cuckoo_hash.c:100-529 | From initialisation, over every run with fresh insertions, every query answers as the map built by the same calls, and entry_num is the size of that map |
| `CuckooRun.FlatfsTableFollowsTheMap` | flatfs/cuckoo_hash.c:31-69 | The same for the table with its own hash function and any two seeds |
| `CuckooRun.FlatfsEntriesAtHome` | flatfs/cuckoo_hash.c:31-69 | Over every run of the table with its own hash, every entry is in the bucket XXH64 of its key with one of the two seeds selects modulo the capacity |
| `CuckooRun.FlatfsInsertSucceeds` | flatfs/cuckoo_hash.c:230-258 | After every such run an insertion succeeds whenever one of those two buckets has an empty slot |
| `CuckooRun.QueryFindsStored` | flatfs/cuckoo_hash.c:335-358 | Keys unique or not, a query of a non-empty key succeeds iff some stored entry has the key, and answers with the value of one |
| `CuckooRun.AnyRunIsSound` | flatfs/cuckoo_hash.c:100-529 | Over every run from initialisation, stored keys inserted again or not, the table is well placed, entry_num is the number of entries and at most four times the capacity, and queries find exactly the stored keys |
| `CuckooRun.StorableKeysHashApart` | flatfs/cuckoo_hash.c:31-97 | F_HASH and S_HASH of a storable key differ iff the seeds differ |
| `XxHash.ReleaseAbsorb` | flatfs/hash.c:115-140 | Absorbing a tail lane can be undone: for a fixed lane it is injective in the hash so far |
| `XxHash.AbsorbInjectiveInLane` | flatfs/hash.c:115-140 | For a fixed hash so far, absorbing is injective in the lane |
| `XxHash.UnAvalancheAvalanche` | flatfs/hash.c:142-146 | The final mixing loses nothing |
| `XxHash.ShortHashIsBijectionOfSeed` | flatfs/hash.c:110-148 | For inputs shorter than 32 bytes the hash is a bijection of the seed, with an explicit inverse |
| `XxHash.SeedsSeparateShortKeys` | flatfs/hash.c:110-148 | Two seeds give a short input different hashes iff the seeds differ |
| `XxHash.NoCollisionInOneTailLane` | flatfs/hash.c:50-149 | Inputs of one length that agree on the striped part and on all tail lanes but one collide only if they are equal |
| `XxHashReference.HashIsXxh64` | flatfs/hash.c:50-149 | For every input and seed the hash is XXH64, steps 1 to 6 of its specification with the constants written there |
| `XxHashReference.OneByteHash` | flatfs/hash.c:135-148 | The hash of one byte under any seed, spelled out with its constants |
| `XxHashReference.Rotations` | flatfs/hash.c:68-146 | The rotations used, as products and quotients by literal powers of two |
| `XxHashReference.Shifts` | flatfs/hash.c:142-146 | The shifts of the last mixing, as quotients by literal powers of two |
| `Bits.XorBit` | flatfs/hash.c:115-146 | Each bit of an exclusive or is the sum of the two bits modulo 2 |
| `XxHash.StringKeyHash` | flatfs/hash.c:50-149 | The three loops compute the hash of the whole input, reading every byte exactly once, in order, and none past the end |
| `XxHash.HashStripes` | flatfs/hash.c:56-109 | The stripe loop consumes whole 32-byte stripes and leaves their merged accumulators |
| `XxHash.AbsorbTail` | flatfs/hash.c:115-140 | The tail loops consume the rest in 8-byte, 4-byte and 1-byte lanes |
| `PathResolve.ResolveViaParent` | extra/namei.c:2314-2342 | Resolving a path is resolving to the parent and then its last component |
| `PathResolve.ContinueStep` | extra/namei.c:2130-2175 | One turn of the walker keeps the meaning of the text and the suspended frames |
| `PathSplice.LookupIsSplice` | extra/namei.c:2314-2342 | A lookup works off the components of the name from the root or the given node: "." stays, ".." goes to the parent except at the root, a link is replaced by its components if more follow or links are to be followed, trailing slashes act as "." |
| `PathSplice.ParentIsSplice` | extra/namei.c:2076-2177 | The walk to the parent works off all words but the last, following every link, and must end at a directory |
| `PathSplice.SpliceAppend` | extra/namei.c:2130-2175 | Working off two lists one after the other is working off the first, every link followed, and then the second |
| `PathSplice.DotDotGoesUp` | extra/namei.c:1489-1506 | A directory's name and ".." lead to its parent, or stay at the root |
| `PathWalk.Nameidata.PutLink` | extra/namei.c:888-894 | Forgets the innermost frame and no other |
| `PathWalk.Nameidata.NdAllocStack` | extra/namei.c:543-589 | After it there is room for one more frame, and the frames there were are kept |
| `PathWalk.Nameidata.PickLink` | extra/namei.c:1726-1766 | ELOOP iff the links are used up, else the link is pushed below the end of the stack and counted |
| `PathWalk.Nameidata.StepInto` | extra/namei.c:1776-1795 | Drops the finished frame exactly in tail position and then stays, or pushes the link found |
| `PathWalk.Nameidata.WalkComponent` | extra/namei.c:1797-1838 | Takes the one hop of the recursive resolver for ".", ".." and names |
| `PathWalk.Nameidata.GetLink` | extra/namei.c:1055-1108 | Gives the body of the link just pushed, and starts at the root for an absolute one |
| `PathWalk.Nameidata.LinkPathWalk` | extra/namei.c:2076-2177 | Ends at the parent and last component, or the error, of the recursive resolver, which from a directory is what working off the words gives, with every frame it pushed popped; links left, then unread text, decrease at each turn |
| `PathWalk.Nameidata.TrailingSymlink` | extra/namei.c:2263-2273 | Hands the body of a link in last position to the next walk, its frame marked as holding no name |
| `PathWalk.Nameidata.PathInit` | extra/namei.c:2209-2260 | Starts at the root for an absolute name, else where it is told; ENOTDIR exactly for a relative name that is not empty from something that is not a directory |
| `PathWalk.Nameidata.PathLookupAt` | extra/namei.c:2314-2342 | From any node and for any name the whole lookup is the recursive lookup, and so the result of working off the components of the name: same node and link count, or same error |
| `Forest.NoCycle` | extra/namei.c:4395-4404 | In a rooted tree nothing but the root is above its own parent |
| `Forest.SameBranch` | extra/namei.c:2865-2893 | A node has one ancestor-or-self among the children of each proper ancestor, so the trap is unique |
| `Forest.MovedExactly` | extra/namei.c:4522-4527 | Rehanging a node keeps the tree rooted iff it is not above its new parent and what it replaces has no other child |
| `Forest.SwappedExactly` | extra/namei.c:4522-4527 | Swapping two nodes keeps the tree rooted iff neither is above the other's parent |
| `DentryTree.MoveKeepsTreeExactly` | extra/namei.c:4509-4527 | The same for d_move with names: exactly then the dentries remain a rooted tree of directories with unique names |
| `DentryTree.ExchangeKeepsTreeExactly` | extra/namei.c:4509-4527 | The same for d_exchange |
| `DentryTree.MoveRelinks` | extra/namei.c:4524 | After a move the new name finds the source, the old name nothing, and every other name what it found before |
| `DentryTree.ExchangeRelinks` | extra/namei.c:4526 | After an exchange the two names find each other's dentries and every other name what it found before |
| `Rename.TrapIsExact` | extra/namei.c:2865-2893 | The source is the trap iff it is the new directory or above it; the target is the trap iff it is the old directory or above it |
| `Rename.RenameKeepsTree` | extra/namei.c:4548-4689 | Whatever a rename returns it leaves a tree, and an error leaves the same tree |
| `Rename.RunKeepsTree` | extra/namei.c:4548-4689 | Over every run of plain and exchange renames the dentries stay a rooted acyclic tree with unique names; survivors keep inode and kind |
| `Rename.RefusedRenamesBreakTheTree` | extra/namei.c:4645-4653 | A plain rename of a source above the new directory, or an exchange with either dentry above the other's directory, would have broken the tree |
| `Rename.RenameRelinks` | extra/namei.c:4522-4527 | What every name stands for after a successful rename, whatever it replaced |
| `RenameRules.RenameSucceedsExactly` | extra/namei.c:4548-4689 | A rename succeeds iff the flags agree, both last components are names, the source exists, the target is free or taken as the flags demand, slashed names are directories, no dentry is above the other's directory, and either both names are of one inode or the kinds agree and the filesystem does |
| `RenameRules.EarlyErrors` | extra/namei.c:4562-4608 | EINVAL, EBUSY, EEXIST and ENOENT before the target is looked up, and an unchanged tree |
| `RenameRules.LateErrors` | extra/namei.c:4624-4653 | EEXIST, ENOENT, ENOTDIR, EINVAL and ENOTEMPTY once both names are looked up, each with its condition, and an unchanged tree |
| `RenameRules.FinalAnswer` | extra/namei.c:4423-4545 | Past the trap: nothing for one inode, ENOTDIR or EISDIR for different kinds, else the answer of the filesystem |
| `RenameRules.SuccessChangesTwoNames` | extra/namei.c:4522-4527 | After a success the new name finds the source, the old one nothing or the target exchanged for it, and every other name what it found before |
| `Rename.Dcache.DAncestor` | extra/namei.c:2876-2882 | The climb finds the child of a that is b or above b, iff there is one |
| `Rename.Dcache.LockRename` | extra/namei.c:2865-2893 | Returns the trap: a branch of the second directory towards the first, else one of the first towards the second, else nothing |
| `Rename.Dcache.Screen` | extra/namei.c:4624-4653 | The tests between the lookups and vfs_rename give the errors of the specification, in which the trap does not occur |
| `Rename.Dcache.VfsRename` | extra/namei.c:4423-4545 | Nothing for two names of one inode; ENOTDIR or EISDIR for mismatched kinds; else the filesystem's answer and, on success, the move or exchange |
| `Rename.Dcache.DoRename` | extra/namei.c:4548-4689 | Returns what the specification says, leaves the tree it says, and keeps a tree |
| `NameHash.RoundInjective` | extra/namei.c:1895-1899 | From one state, different words lead to different states |
| `NameHash.NoCollisionInTwoRounds` | extra/namei.c:1872-1875 | HASH_MIX cannot create a collision in two iterations |
| `NameHash.HashIsWordByWord` | extra/namei.c:1895-1963 | The hash of a name is one round for each of its words in order, with rotations by 12 and 45 and the factor 9, the remaining bytes xored into x, and the fold |
| `NameHash.RoundRotations` | extra/namei.c:1895-1899 | The two rotations of a round, as products and quotients by literal powers of two |
| `NameHash.ZeroBytesAreEnds` | extra/namei.c:1995-2018 | The lowest zero byte of a word and of the word xor repeated slashes together give its first NUL or '/' |
| `NameHash.LowIsMod` | extra/namei.c:1960 | Masking a word to its low k bytes is reduction modulo 256 to the power k |
| `NameHash.SpanIsFirstEnd` | extra/namei.c:1991-2018 | The length of a name is the first position of a NUL or, for components, a '/' |
| `NameHash.FullNameHash` | extra/namei.c:1946-1963 | The hash of the first len bytes, whatever follows them, including len 0 and multiples of eight |
| `NameHash.HashlenString` | extra/namei.c:1967-1989 | The length up to the NUL and the hash `FullNameHash` gives for that length |
| `NameHash.HashName` | extra/namei.c:1995-2018 | The length up to the first '/' or NUL and the hash `FullNameHash` gives for that length |
| `BkdrHash.PolyAppend` | flatfs/lba.c:82-85 | Horner's rule for the exact polynomial in 131 |
| `BkdrHash.PolyIsBase131` | flatfs/lba.c:77-88 | The exact polynomial is the name read as a number in base 131 |
| `BkdrHash.BKDRHash` | flatfs/lba.c:77-88 | The wrapping loop gives the name read as a number in base 131, modulo 2^31, for signed characters and names of any length |
| `BkdrHash.BucketsAreExact` | flatfs/lba.c:96-123 | The buckets of the base and the expanded table are that number modulo 2^12 and 2^18 |
| `BkdrHash.ExpandedBucketRefinesBase` | flatfs/lba.c:96-123 | The expanded bucket reduces modulo 2^12 to the base bucket |
| `FlatAddress.InoRoundTrip` | flatfs/flatfs_d.h:81-82 | ino_to_bucket and ino_to_slot recover the pair an inode number was made of |
| `FlatAddress.InoIs` | flatfs/lba.c:111-117 | The inode number of a file is 32768 * dir + 8 * bucket + slot |
| `FlatAddress.InoFieldsInRange` | flatfs/inode.c:278-279 | Bucket and slot read off any number are inside a base table |
| `FlatAddress.InoInjective` | flatfs/lba.c:296-310 | Different files have different inode numbers |
| `FlatAddress.DirIdRoundTrip` | flatfs/lba.h:20-28 | A directory's inode number is 32768 * dir + 1 and gives back its id |
| `FlatAddress.BaseIsIno` | flatfs/lba.c:196-200 | The base address of a file's data is its inode number shifted left by 32 |
| `FlatAddress.PblkIs` | flatfs/lba.c:231-239 | The physical block is the inode number shifted left by 20, or-ed with the block index |
| `FlatAddress.SmallPblkIs` | flatfs/lba.c:231-239 | Below 2^20 it is ((dir * 4096 + bucket) * 8 + slot) * 2^20 plus the block index |
| `FlatAddress.BlockOverruns` | flatfs/lba.c:231-239 | Block 2^20 of every file is block 0 of the file in the next slot if its slot is even, and its own block 0 if it is odd |
| `FlatAddress.InjectiveExactly` | flatfs/file.c:43-54 | For any files among which is one with the file it overruns into, files and block indices below n map injectively to physical blocks iff n is at most 2^20 |
| `FlatAddress.RegionsApartExactly` | flatfs/lba.c:205-248 | For any base files and any tagged files among which is the first file of directory 512: no base block with index below n is a tagged block, whatever its index, iff n is at most 2^49 |
| `FlatAddress.BlockReachesTag` | flatfs/lba.c:205-248 | Block 2^49 of every base file is a block of the first expanded file of directory 512 |
| `FlatAddress.BigFileIs` | flatfs/inode.c:299-301 | The bucket field of an expanded file is its hash bucket plus its directory id modulo 256, shifted left by 18, because the mask is wider than the bucket |
| `FlatAddress.BigAddressIs` | flatfs/lba.c:220-226 | For directories below 64 an expanded address without its tag is 2^23 * dir + 8 * bucket + slot, shifted left by 32 |
| `FlatAddress.BigFieldsIgnoreHighBits` | flatfs/lba.c:323 | The fields read off an expanded inode number depend on its low 29 bits only |
| `FlatAddress.TaggedIsHigh` | flatfs/lba.c:205-248 | Every tagged block, of any fields and index, is 2^49 or above |
| `FlatAddress.BoundsAreExact` | flatfs/file.c:43-54 | Both bounds are exact for the files of directories that can exist, ids 2 and up, expanded files having the bucket fields the code gives them |
| `LiveSlots.FirstZeroExact` | flatfs/lba.c:98 | The first free slot is the lowest clear bit |
| `LiveSlots.LiveRank` | flatfs/lba.c:328-418 | The k-th slot a scan meets is live and has exactly k live slots before it |
| `LiveSlots.LiveFromIsRanked` | flatfs/lba.c:328-418 | From cursor p exactly the live slots of rank p and more are left, each at its rank |
| `LiveSlots.LiveTotal` | flatfs/lba.c:328-418 | A scan meets as many slots as there are set bits |
| `LiveSlots.LiveAscends` | flatfs/lba.c:328-418 | A scan meets the slots in ascending order |
| `SlotTable.FreeSlotExact` | flatfs/lba.c:96-101 | Allocation takes the lowest free slot of the bucket and fails iff all eight are live |
| `SlotTable.SetKeepsCounts` | flatfs/lba.c:102-103 | Every valid_slot_count remains the number of set bits of its bucket, without wrapping around |
| `SlotTable.DeletionByInoIsInside` | flatfs/inode.c:364-371 | For every inode number the call of delete_file is admitted, inside the table, and frees that slot if it is live |
| `SlotTable.ScanInoIsIssued` | flatfs/lba.c:404-406 | The number a scan emits is the inode number the allocator issued |
| `SlotTable.ScanIsExact` | flatfs/lba.c:328-418 | With cursor p a scan emits, in ascending order, exactly the numbers 32768 * dir + i of the live slots i with p live slots or more before them |
| `SlotTable.HashTable.constructor` | flatfs/lba.c:25-44 | A new table has no live slots and right counts |
| `SlotTable.HashTable.InsertFile` | flatfs/lba.c:93-118 | Takes the free slot of the bucket of the name's exact polynomial, or changes nothing |
| `SlotTable.HashTable.SlotAllocByName` | flatfs/lba.c:296-310 | The same, with the inode number of the new file |
| `SlotTable.HashTable.DeleteFile` | flatfs/lba.c:146-161 | Frees exactly a live slot; an argument turned away, a free slot or the padding slot 8 changes nothing |
| `SlotTable.HashTable.Seek` | flatfs/lba.c:345-356 | Stands where exactly the live slots of rank at least the cursor are left |
| `SlotTable.HashTable.ReadDirFiles` | flatfs/lba.c:328-418 | Emits exactly the live inode numbers of rank at least the cursor, in bucket order, and moves both cursors by their number; so a resumed scan is a suffix of the full one |
| `Volume.SetsOneFile` | flatfs/lba.c:102-160 | Taking or freeing a slot changes the liveness of that file only and keeps every count |
| `Volume.FirstFileOfName` | flatfs/lba.c:93-118 | In a directory without files a name gets slot 0 of the bucket its number in base 131 selects modulo 4096 |
| `Volume.TwoCharacterName` | flatfs/lba.c:77-118 | A name of the characters c, d gets bucket (131 * c + d) modulo 4096 |
| `Volume.StepKeepsInv` | flatfs/inode.c:259-279 | Each creation and deletion keeps the live files those created and not deleted |
| `Volume.IssuedInoIsNew` | flatfs/lba.c:296-310 | An issued inode number is the number of no live file of any directory |
| `Volume.DeletingUndoesCreating` | flatfs/inode.c:277-279 | Deleting a new file by its inode number restores all tables |
| `Volume.LiveFilesShareNoBlock` | flatfs/file.c:43-54 | Over every run, the live files are those created and not deleted, every count is right, and no two of them share a physical block with indices below 2^20 |
| `SlotTable.GuardExactly` | flatfs/lba.c:148 | Read off the guard: a call the guard of delete_file admits stays inside the table iff bucket and slot are in range; the failing arguments are exactly bucket 4096, buckets below -1 and negative slots |
| `SlotTable.GuardAdmitsOutside` | flatfs/lba.c:148 | The guard admits (4096, 0) and (0, -1), which leave the table |

## Left out

The cuckoo table

- The capacity is an unbounded number: overflow of doubling it is not modelled, and allocation is taken to succeed.
- Slots are a sequence field that methods reassign, in bucket order, not a block of memory: aliasing and the freeing of
  the old block are not captured.
- The counters `find_path`, `evict_len`, `resize_write` and `init_write` and all printing: nothing reads them.
- The branches for tables without `RESIZE_SAME_OFFSET`, which is defined.
- How seeds are drawn; the lemmas say what holds for equal and for different seeds.
- The reaction of `cuckoo_insert` to the error return of `find_path` is not told apart from an exhausted search:
  `CuckooPath.Image.FindPathExact` shows that it cannot happen.
- Injectivity of the hash in bytes of the striped part of inputs of 32 bytes and more. Words are read little-endian.

The path walk

- RCU mode, sequence counts, mounts, automounts, permissions and reference counts; `LOOKUP_JUMPED`, `get_link`
  callbacks and jumps to a node without a body; the `LOOKUP_ROOT` branch of `path_init`. A walk starts from a node that is given.
- The value of `path` after an error. MAXSYMLINKS is a parameter, as its header is not part of the repository.

Renames

- Locks and their order; retries after delegations and stale handles; unknown flag bits and the capability test for
  whiteouts; different mounts. The object a whiteout leaves behind.
- The checks of `vfs_rename` that need permissions, mount points or link counts, and the filesystem's own operation,
  are one parameter of a request, the answer `fs`.
- Rename.RenameKeepsTree: assumes that the filesystem does not agree to replace a dentry that has children
  when it is asked (`Rename.Lawful`); `DentryTree.MoveKeepsTreeExactly` says what happens if it does.
- Directories that were removed while a path to them was being walked (IS_DEADDIR).
- `d_ancestor`, `d_move`, `d_exchange` and the hash lookup are not part of the repository; they are modelled by what
  they do to parents and names.

Name hashes

- The macros of the word-at-a-time header are not part of the repository: `has_zero`, `find_zero` and the masks are
  modelled by the bytes they find and keep. `hashlen_create` is a pair. GOLDEN_RATIO_64 is a parameter. The 32-bit and
  the byte-at-a-time versions.

The allocator

- SlotTable.HashTable.DeleteFile: promises nothing for the arguments the guard admits outside the table, where the C
  code has no defined result; `SlotTable.GuardExactly` says which they are.
- Volume.LiveFilesShareNoBlock: speaks of block indices below 2^20, the exact bound of `FlatAddress.InjectiveExactly`.
- `bkt_lock`: each call is one atomic step.
- Shifting a directory id of 1024 or more as an `int` (flatfs/lba.c:323) overflows; the model shifts without a width,
  which gives the same low bits and so the same fields (`FlatAddress.BigFieldsIgnoreHighBits`).
- The inode-address branches of `compose_lba` and `compose_big_file_lba`, the expanded table beyond its hash bucket, inode fields and
  tag bit, name lookup, directories' own inode numbers among file inode numbers, and the allocation of directory ids.
- Disk and page-cache code: a scan emits inode numbers without reading names, and every entry is accepted.
- The subdirectory lists of flatfs/dir.c.
