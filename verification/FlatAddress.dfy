/**
  How flatfs packs a file and a block into one address (flatfs/flatfs_d.h, flatfs/lba.c) and why
  files of the base region never share a data block: the block number is the file's inode number
  shifted left by 20 bits with the index of the block or-ed under it.
 */
module FlatAddress {
  import opened Bits

  const MIN_DIR_BITS: nat := 6
  /** FLATFS_ROOT_INO: the id of the root directory; other directories get greater ids. */
  const ROOT_DIR: nat := 2
  const MAX_FILE_BUCKET_BITS: nat := 20
  const MIN_FILE_BUCKET_BITS: nat := 12
  const FILE_SLOT_BITS: nat := 3
  const DEFAULT_FILE_BLOCK_BITS: nat := 32
  const BLOCK_SHIFT: nat := 12

  /** The directory, bucket and slot of a file. */
  datatype File = File(dir: nat, bucket: nat, slot: nat) {
    /** A file of the base region. */
    predicate InBase() { dir < 0x4000 && bucket < 4096 && slot < 8 }
  }

  /** Truncation to `lba_t`. */
  function Trunc(a: nat): Word { a % WORD }

  // ---------- Inode numbers ----------

  /** `file_seg` as `insert_file` builds it. */
  function Seg(bucket: nat, slot: nat): nat { Or(Or(0, slot), Shl(bucket, FILE_SLOT_BITS)) }

  /** The inode number `flatfs_file_slot_alloc_by_name` issues. */
  function Ino(f: File): nat {
    Or(Seg(f.bucket, f.slot), Shl(f.dir, FILE_SLOT_BITS + MIN_FILE_BUCKET_BITS))
  }

  /** `ino_to_slot`. */
  function InoToSlot(ino: nat): nat { And(ino, Pow2(FILE_SLOT_BITS) - 1) }

  /** `ino_to_bucket`. */
  function InoToBucket(ino: nat): nat { And(Shr(ino, FILE_SLOT_BITS), Pow2(MIN_FILE_BUCKET_BITS) - 1) }

  /** `dir_id_to_inode` and `inode_to_dir_id`. */
  function DirIdToInode(dir: nat): nat { Shl(dir, MIN_FILE_BUCKET_BITS + FILE_SLOT_BITS) + 1 }

  function InodeToDirId(ino: nat): nat
    requires ino > 0
  {
    Shr(ino - 1, MIN_FILE_BUCKET_BITS + FILE_SLOT_BITS)
  }

  lemma SegIs(bucket: nat, slot: nat)
    requires slot < 8
    ensures Seg(bucket, slot) == 8 * bucket + slot
  {
    OrZero(slot);
    OrCommutes(0, slot);
    OrCommutes(slot, Shl(bucket, 3));
    Pow2Values();
    OrOfDisjoint(bucket, slot, 3);
    ShlIsMul(bucket, 3);
  }

  lemma InoIs(f: File)
    requires f.InBase()
    ensures Ino(f) == 32768 * f.dir + 8 * f.bucket + f.slot
  {
    var seg := Seg(f.bucket, f.slot);
    SegIs(f.bucket, f.slot);
    OrCommutes(seg, Shl(f.dir, 15));
    Pow2Values();
    OrOfDisjoint(f.dir, seg, 15);
    ShlIsMul(f.dir, 15);
  }

  lemma SlotField(ino: nat)
    ensures InoToSlot(ino) == ino % 8
  {
    Pow2Values();
    AndMask(ino, 3);
  }

  lemma BucketField(ino: nat)
    ensures InoToBucket(ino) == ino / 8 % 4096
  {
    Pow2Values();
    ShrIsDiv(ino, 3);
    AndMask(Shr(ino, 3), 12);
  }

  lemma TakeApart(d: nat, b: nat, s: nat)
    requires b < 4096 && s < 8
    ensures var ino := 32768 * d + 8 * b + s; ino % 8 == s && ino / 8 % 4096 == b
  {
    DivUnique(32768 * d + 8 * b + s, 8, 4096 * d + b, s);
    DivUnique(4096 * d + b, 4096, d, b);
  }

  /** The bucket and the slot can be read off an issued inode number. */
  lemma InoRoundTrip(f: File)
    requires f.InBase()
    ensures InoToBucket(Ino(f)) == f.bucket && InoToSlot(Ino(f)) == f.slot
  {
    InoIs(f);
    SlotField(Ino(f));
    BucketField(Ino(f));
    TakeApart(f.dir, f.bucket, f.slot);
  }

  /** Whatever the number, the bucket and the slot read off it are inside a base table. */
  lemma InoFieldsInRange(ino: nat)
    ensures InoToBucket(ino) < 4096 && InoToSlot(ino) < 8
  {
    SlotField(ino);
    BucketField(ino);
  }

  lemma DirIdRoundTrip(dir: nat)
    ensures InodeToDirId(DirIdToInode(dir)) == dir && DirIdToInode(dir) == 32768 * dir + 1
  {
    ShlIsMul(dir, 15);
    Pow2Values();
    ShrShl(dir, 15);
  }

  /** Different files have different inode numbers. */
  lemma InoInjective(f: File, g: File)
    requires f.InBase() && g.InBase() && Ino(f) == Ino(g)
    ensures f == g
  {
    InoIs(f);
    InoIs(g);
  }

  // ---------- Data addresses ----------

  /** `compose_lba` of a file's data. */
  function ComposeLba(f: File): nat {
    Or(Or(Or(0, Trunc(Shl(f.dir, MIN_FILE_BUCKET_BITS + FILE_SLOT_BITS + DEFAULT_FILE_BLOCK_BITS))),
          Trunc(Shl(f.bucket, FILE_SLOT_BITS + DEFAULT_FILE_BLOCK_BITS))),
       Trunc(Shl(f.slot, DEFAULT_FILE_BLOCK_BITS)))
  }

  /** `compose_big_file_lba`, without its tag. */
  function ComposeBigUntagged(f: File): nat {
    Or(Or(Or(0, Trunc(Shl(f.dir, MAX_FILE_BUCKET_BITS + FILE_SLOT_BITS + DEFAULT_FILE_BLOCK_BITS))),
          Trunc(Shl(f.bucket, FILE_SLOT_BITS + DEFAULT_FILE_BLOCK_BITS))),
       Trunc(Shl(f.slot, DEFAULT_FILE_BLOCK_BITS)))
  }

  /** BIG_TAG_BASE. */
  function BigTagBase(): nat {
    Shl(1, MIN_DIR_BITS + MAX_FILE_BUCKET_BITS + FILE_SLOT_BITS + DEFAULT_FILE_BLOCK_BITS)
  }

  function ComposeBigLba(f: File): nat { Or(ComposeBigUntagged(f), BigTagBase()) }

  /** `ffs_get_lba_data` and `ffs_get_big_file_lba_data`. */
  function LbaData(f: File, iblock: nat): nat { Or(ComposeLba(f), Trunc(Shl(iblock, BLOCK_SHIFT))) }

  function BigLbaData(f: File, iblock: nat): nat { Or(ComposeBigLba(f), Trunc(Shl(iblock, BLOCK_SHIFT))) }

  /** The physical block `ffs_get_block_prep` maps. */
  function Pblk(f: File, iblock: nat): nat { Shr(LbaData(f, iblock), BLOCK_SHIFT) }

  function BigPblk(f: File, iblock: nat): nat { Shr(BigLbaData(f, iblock), BLOCK_SHIFT) }

  lemma {:induction false} ShlBound(a: nat, k: nat, bits: nat)
    requires a < Pow2(bits)
    ensures Shl(a, k) < Pow2(bits + k)
    decreases k
  {
    if k > 0 {
      ShlBound(a, k - 1, bits);
    }
  }

  lemma {:induction false} Pow2Grows(j: nat, k: nat)
    requires j <= k
    ensures Pow2(j) <= Pow2(k)
    decreases k - j
  {
    if j < k {
      Pow2Grows(j, k - 1);
    }
  }

  lemma {:induction false} ShlOne(k: nat)
    ensures Shl(1, k) == Pow2(k)
    decreases k
  {
    if k > 0 {
      ShlOne(k - 1);
    }
  }

  lemma Fits(a: nat, k: nat, bits: nat)
    requires a < Pow2(bits) && bits + k <= 64
    ensures Shl(a, k) < Pow2(bits + k) && Trunc(Shl(a, k)) == Shl(a, k)
  {
    ShlBound(a, k, bits);
    Pow2Grows(bits + k, 64);
    Pow2Values();
  }

  lemma RangeBits(f: File)
    requires f.InBase()
    ensures f.dir < Pow2(14) && f.bucket < Pow2(12) && f.slot < Pow2(3)
  {
    Pow2Values();
    assert Pow2(15) == 2 * Pow2(14);
  }

  /** The base address of a file is its inode number shifted left by 32 bits. */
  lemma BaseIsIno(f: File)
    requires f.InBase()
    ensures ComposeLba(f) == Shl(Ino(f), 32)
  {
    RangeBits(f);
    Fits(f.dir, 47, 14);
    Fits(f.bucket, 35, 12);
    Fits(f.slot, 32, 3);
    ShlAdd(f.dir, 15, 32);
    ShlAdd(f.bucket, 3, 32);
    BasePacks(f, Shl(f.dir, 15), Shl(f.bucket, 3));
  }

  lemma BasePacks(f: File, d: nat, b: nat)
    requires f.InBase() && d == Shl(f.dir, 15) && b == Shl(f.bucket, 3)
    ensures Or(Or(Or(0, Shl(d, 32)), Shl(b, 32)), Shl(f.slot, 32)) == Shl(Ino(f), 32)
  {
    OrCommutes(0, Shl(d, 32));
    OrZero(Shl(d, 32));
    OrShl(d, b, 32);
    OrShl(Or(d, b), f.slot, 32);
    FieldsPack(f);
  }

  lemma FieldsPack(f: File)
    requires f.InBase()
    ensures Or(Or(Shl(f.dir, 15), Shl(f.bucket, 3)), f.slot) == Ino(f)
  {
    var x := Shl(f.dir, 12);
    ShlAdd(f.dir, 12, 3);
    OrShl(x, f.bucket, 3);
    RangeBits(f);
    OrOfDisjoint(f.dir, f.bucket, 12);
    OrOfDisjoint(Or(x, f.bucket), f.slot, 3);
    ShlIsMul(Or(x, f.bucket), 3);
    ShlIsMul(f.dir, 12);
    Pow2Values();
    InoIs(f);
  }

  /** The physical block of any block index that does not overflow the address. */
  lemma PblkIs(f: File, iblock: nat)
    requires f.InBase() && iblock < Pow2(52)
    ensures Pblk(f, iblock) == Or(Shl(Ino(f), 20), iblock)
  {
    BaseIsIno(f);
    Fits(iblock, 12, 52);
    ShlAdd(Ino(f), 20, 12);
    OrShl(Shl(Ino(f), 20), iblock, 12);
    ShrShl(Or(Shl(Ino(f), 20), iblock), 12);
  }

  /** Below 2 to the power 20 blocks, the physical block is a number in base 2 to the power 20. */
  lemma SmallPblkIs(f: File, iblock: nat)
    requires f.InBase() && iblock < 0x10_0000
    ensures Pblk(f, iblock) == Ino(f) * 0x10_0000 + iblock
    ensures Pblk(f, iblock) == ((f.dir * 4096 + f.bucket) * 8 + f.slot) * 0x10_0000 + iblock
  {
    InoIs(f);
    Pow2Values();
    Pow2Grows(20, 52);
    PblkIs(f, iblock);
    OrOfDisjoint(Ino(f), iblock, 20);
    ShlIsMul(Ino(f), 20);
  }

  // ---------- Files do not share blocks ----------

  predicate SameBlock(f: File, i: nat, g: File, j: nat) { Pblk(f, i) == Pblk(g, j) }

  /** Among these files no two blocks with indices below n are the same physical block. */
  ghost predicate InjectiveBelow(files: iset<File>, n: nat) {
    forall f: File, i: nat, g: File, j: nat {:trigger SameBlock(f, i, g, j)} |
      f in files && g in files && i < n && j < n && SameBlock(f, i, g, j) :: f == g && i == j
  }

  lemma DisjointBlocks(f: File, i: nat, g: File, j: nat)
    requires f.InBase() && g.InBase() && i < 0x10_0000 && j < 0x10_0000
    requires SameBlock(f, i, g, j)
    ensures f == g && i == j
  {
    SmallPblkIs(f, i);
    SmallPblkIs(g, j);
    InoInjective(f, g);
  }

  /** The file block 2^20 of a file runs into: the next one for an even slot, the file itself for an odd one. */
  function Overrun(f: File): File {
    File(f.dir, f.bucket, if f.slot % 2 == 0 then f.slot + 1 else f.slot)
  }

  lemma OrOne(a: nat)
    ensures Or(a, 1) == if a % 2 == 0 then a + 1 else a
  {
    OrZero(a / 2);
  }

  lemma Parity(d: nat, b: nat, s: nat)
    ensures (32768 * d + 8 * b + s) % 2 == s % 2
  {
    DivUnique(32768 * d + 8 * b + s, 2, 16384 * d + 4 * b + s / 2, s % 2);
  }

  lemma OverrunIno(f: File)
    requires f.InBase()
    ensures Overrun(f).InBase() && Ino(Overrun(f)) == Or(Ino(f), 1)
  {
    InoIs(f);
    InoIs(Overrun(f));
    Parity(f.dir, f.bucket, f.slot);
    OrOne(Ino(f));
  }

  /** Block 2^20 of any file is block 0 of the next file or of itself. */
  lemma BlockOverruns(f: File)
    requires f.InBase()
    ensures SameBlock(f, 0x10_0000, Overrun(f), 0)
  {
    OverrunIno(f);
    Pow2Values();
    assert Pow2(21) == 0x20_0000;
    Pow2Grows(21, 52);
    PblkIs(f, 0x10_0000);
    PblkIs(Overrun(f), 0);
    ShlOne(20);
    OrShl(Ino(f), 1, 20);
    OrZero(Shl(Ino(Overrun(f)), 20));
  }

  /**
    For any files of the base region, among them one with the file its block 2^20 runs into, the
    map from files and block indices to physical blocks is injective exactly up to 2^20 blocks a file.
   */
  lemma InjectiveExactly(files: iset<File>, some: File, n: nat)
    requires forall f | f in files :: f.InBase()
    requires some in files && Overrun(some) in files
    ensures InjectiveBelow(files, n) <==> n <= 0x10_0000
  {
    if n > 0x10_0000 {
      BlockOverruns(some);
    } else {
      forall f: File, i: nat, g: File, j: nat {:trigger SameBlock(f, i, g, j)} |
        f in files && g in files && i < n && j < n && SameBlock(f, i, g, j)
        ensures f == g && i == j
      {
        DisjointBlocks(f, i, g, j);
      }
    }
  }

  // ---------- The two regions do not meet ----------

  lemma {:induction false} ShrAtLeast(a: nat, j: nat, k: nat)
    requires a >= Pow2(j + k)
    ensures Shr(a, k) >= Pow2(j)
    decreases k
  {
    if k > 0 {
      ShrAtLeast(a / 2, j, k - 1);
    }
  }

  lemma TaggedIsHigh(f: File, iblock: nat)
    ensures BigPblk(f, iblock) >= Pow2(49)
  {
    OrAtLeast(ComposeBigUntagged(f), BigTagBase());
    OrAtLeast(ComposeBigLba(f), Trunc(Shl(iblock, 12)));
    ShlOne(61);
    ShrAtLeast(BigLbaData(f, iblock), 49, 12);
  }

  lemma InoBits(f: File)
    requires f.InBase()
    ensures Ino(f) < Pow2(29)
  {
    InoIs(f);
    Pow2Values();
    Pow2Add(14, 15);
    assert Pow2(15) == 2 * Pow2(14);
  }

  lemma BaseIsLow(f: File, iblock: nat)
    requires f.InBase() && iblock < Pow2(49)
    ensures Pblk(f, iblock) < Pow2(49)
  {
    Pow2Grows(49, 52);
    PblkIs(f, iblock);
    InoBits(f);
    ShlBound(Ino(f), 20, 29);
    OrBound(Shl(Ino(f), 20), iblock, 49);
  }

  /** Among these files no block of the base region with an index below n is a tagged block, whatever its index. */
  ghost predicate RegionsApartBelow(base: iset<File>, tagged: iset<File>, n: nat) {
    forall f: File, i: nat, g: File, j: nat {:trigger Pblk(f, i), BigPblk(g, j)} |
      f in base && g in tagged && i < n :: Pblk(f, i) != BigPblk(g, j)
  }

  lemma {:induction false} ShlZero(k: nat)
    ensures Shl(0, k) == 0
    decreases k
  {
    if k > 0 {
      ShlZero(k - 1);
    }
  }

  // ---------- Files of the expanded region ----------

  /** The inode number `flatfs_big_file_slot_alloc_by_name` issues. */
  function BigIno(dir: nat, bucket: nat, slot: nat): nat {
    Or(Seg(bucket, slot), Shl(dir, FILE_SLOT_BITS + MIN_FILE_BUCKET_BITS + MIN_DIR_BITS))
  }

  /** `big_ino_to_bucket`: the mask is wider than the bucket the name hashes to. */
  function BigInoToBucket(ino: nat): nat {
    And(Shr(ino, FILE_SLOT_BITS), Pow2(MAX_FILE_BUCKET_BITS + MIN_DIR_BITS) - 1)
  }

  /** The fields an inode of the expanded region is given: both come from its number. */
  function BigFile(dir: nat, bucket: nat, slot: nat): File {
    File(dir, BigInoToBucket(BigIno(dir, bucket, slot)), InoToSlot(BigIno(dir, bucket, slot)))
  }

  lemma BigPow2Values()
    ensures Pow2(18) == 0x4_0000 && Pow2(21) == 0x20_0000 && Pow2(26) == 0x400_0000
  {
    Pow2Values();
    Pow2Add(3, 15);
    Pow2Add(3, 18);
    Pow2SixIs64();
    Pow2Add(6, 20);
  }

  lemma BigInoIs(dir: nat, bucket: nat, slot: nat)
    requires bucket < 0x4_0000 && slot < 8
    ensures BigIno(dir, bucket, slot) == 0x20_0000 * dir + 8 * bucket + slot
  {
    var seg := Seg(bucket, slot);
    SegIs(bucket, slot);
    OrCommutes(seg, Shl(dir, 21));
    BigPow2Values();
    OrOfDisjoint(dir, seg, 21);
    ShlIsMul(dir, 21);
  }

  lemma BigBucketField(ino: nat)
    ensures BigInoToBucket(ino) == ino / 8 % 0x400_0000
  {
    BigPow2Values();
    Pow2Values();
    ShrIsDiv(ino, 3);
    AndMask(Shr(ino, 3), 26);
  }

  lemma BigTakeApart(d: nat, b: nat, s: nat)
    requires b < 0x4_0000 && s < 8
    ensures var ino := 0x20_0000 * d + 8 * b + s;
            ino % 8 == s && ino / 8 % 0x400_0000 == b + d % 256 * 0x4_0000
  {
    DivUnique(0x20_0000 * d + 8 * b + s, 8, 0x4_0000 * d + b, s);
    DivUnique(0x4_0000 * d + b, 0x400_0000, d / 256, b + d % 256 * 0x4_0000);
  }

  /** The bucket field of an expanded file carries low bits of its directory above the hash bits. */
  lemma BigFileIs(dir: nat, bucket: nat, slot: nat)
    requires bucket < 0x4_0000 && slot < 8
    ensures BigFile(dir, bucket, slot) == File(dir, bucket + dir % 256 * 0x4_0000, slot)
  {
    BigInoIs(dir, bucket, slot);
    SlotField(BigIno(dir, bucket, slot));
    BigBucketField(BigIno(dir, bucket, slot));
    BigTakeApart(dir, bucket, slot);
  }

  /** The fields do not see the bits of the number that shifting a directory id as an `int` may spoil. */
  lemma BigFieldsIgnoreHighBits(ino: nat)
    ensures BigInoToBucket(ino % 0x2000_0000) == BigInoToBucket(ino)
    ensures InoToSlot(ino % 0x2000_0000) == InoToSlot(ino)
  {
    SlotField(ino);
    SlotField(ino % 0x2000_0000);
    BigBucketField(ino);
    BigBucketField(ino % 0x2000_0000);
    LowBits(ino);
  }

  lemma LowBits(x: nat)
    ensures x % 0x2000_0000 % 8 == x % 8 && x % 0x2000_0000 / 8 % 0x400_0000 == x / 8 % 0x400_0000
  {
    var q, r := x / 0x2000_0000, x % 0x2000_0000;
    DivUnique(x, 8, 0x400_0000 * q + r / 8, r % 8);
    DivUnique(x / 8, 0x400_0000, q, r / 8);
    DivUnique(r / 8, 0x400_0000, 0, r / 8);
  }

  lemma BigShiftsFit(f: File)
    requires f.dir < 64 && f.bucket < 0x10_0000 && f.slot < 8
    ensures Trunc(Shl(f.dir, 55)) == Shl(f.dir, 55) && Trunc(Shl(f.bucket, 35)) == Shl(f.bucket, 35)
    ensures Trunc(Shl(f.slot, 32)) == Shl(f.slot, 32)
  {
    Pow2SixIs64();
    Pow2Values();
    Fits(f.dir, 55, 6);
    Fits(f.bucket, 35, 20);
    Fits(f.slot, 32, 3);
  }

  /** As long as its fields do not overlap, an expanded address packs directory, bucket and slot. */
  lemma BigAddressIs(f: File)
    requires f.dir < 64 && f.bucket < 0x10_0000 && f.slot < 8
    ensures ComposeBigUntagged(f) == Shl(0x80_0000 * f.dir + 8 * f.bucket + f.slot, 32)
  {
    BigShiftsFit(f);
    ShlAdd(f.dir, 23, 32);
    ShlAdd(f.bucket, 3, 32);
    BigPacks(f, Shl(f.dir, 23), Shl(f.bucket, 3));
  }

  lemma BigPacks(f: File, d: nat, b: nat)
    requires f.bucket < 0x10_0000 && f.slot < 8 && d == Shl(f.dir, 23) && b == Shl(f.bucket, 3)
    ensures Or(Or(Or(0, Shl(d, 32)), Shl(b, 32)), Shl(f.slot, 32)) == Shl(0x80_0000 * f.dir + 8 * f.bucket + f.slot, 32)
  {
    OrCommutes(0, Shl(d, 32));
    OrZero(Shl(d, 32));
    OrShl(d, b, 32);
    OrShl(Or(d, b), f.slot, 32);
    BigFieldsPack(f);
  }

  lemma BigFieldsPack(f: File)
    requires f.bucket < 0x10_0000 && f.slot < 8
    ensures Or(Or(Shl(f.dir, 23), Shl(f.bucket, 3)), f.slot) == 0x80_0000 * f.dir + 8 * f.bucket + f.slot
  {
    var x := Shl(f.dir, 20);
    Pow2Values();
    ShlAdd(f.dir, 20, 3);
    OrShl(x, f.bucket, 3);
    OrOfDisjoint(f.dir, f.bucket, 20);
    OrOfDisjoint(Or(x, f.bucket), f.slot, 3);
    ShlIsMul(Or(x, f.bucket), 3);
    ShlIsMul(f.dir, 20);
  }

  /** A file of the expanded region whose directory can exist. */
  ghost predicate IsExpanded(f: File) {
    ROOT_DIR <= f.dir < 0x4000 && f.slot < 8 && exists b: nat | b < 0x4_0000 :: f == BigFile(f.dir, b, f.slot)
  }

  /** The first file of expanded directory 512: its directory number drops out of the address. */
  const UNDER_TAG: File := File(512, 0, 0)

  lemma UnderTagIsExpanded()
    ensures IsExpanded(UNDER_TAG)
  {
    BigFileIs(512, 0, 0);
  }

  lemma DirectoryDropsOut()
    ensures Trunc(Shl(512, 55)) == 0
  {
    Pow2Values();
    Pow2SixIs64();
    Pow2Add(3, 6);
    ShlOneAdd(9, 55);
    ShlOne(64);
  }

  /** The address of that file is the tag. */
  lemma UnderTagIsTag()
    ensures ComposeBigLba(UNDER_TAG) == BigTagBase()
  {
    DirectoryDropsOut();
    ShlZero(35);
    ShlZero(32);
    OrZero(0);
    OrCommutes(0, BigTagBase());
    OrZero(BigTagBase());
  }

  lemma ShlOneAdd(j: nat, k: nat)
    ensures Shl(1, j + k) == Shl(Pow2(j), k)
  {
    ShlOne(j);
    ShlAdd(1, j, k);
  }

  lemma Pow2SixIs64()
    ensures Pow2(6) == 64 && Pow2(7) == 128
  {
    Pow2Values();
    Pow2Add(3, 3);
  }

  /** The blocks of that file are the tag or-ed with their indices. */
  lemma UnderTagPblkIs(j: nat, tag: nat)
    requires j < Pow2(52) && tag == Pow2(49)
    ensures BigPblk(UNDER_TAG, j) == Or(tag, j)
  {
    UnderTagIsTag();
    ShlOneAdd(49, 12);
    Fits(j, 12, 52);
    OrShl(tag, j, 12);
    ShrShl(Or(tag, j), 12);
  }

  /** Block 2^49 of any base file is a block of that expanded file, at the base address of the former. */
  lemma BlockReachesTag(f: File)
    requires f.InBase()
    ensures Pblk(f, Pow2(49)) == BigPblk(UNDER_TAG, Shl(Ino(f), 20))
  {
    var a, tag := Shl(Ino(f), 20), Pow2(49);
    assert Pow2(50) == 2 * tag;
    Pow2Grows(50, 52);
    PblkIs(f, tag);
    InoBits(f);
    ShlBound(Ino(f), 20, 29);
    UnderTagPblkIs(a, tag);
    OrCommutes(tag, a);
  }

  /**
    For any base and expanded files, among them some base file and the first file of expanded
    directory 512, no block of the base region is a block of the expanded region exactly up to 2^49
    blocks a file.
   */
  lemma RegionsApartExactly(base: iset<File>, tagged: iset<File>, some: File, n: nat)
    requires forall f | f in base :: f.InBase()
    requires some in base && UNDER_TAG in tagged
    ensures RegionsApartBelow(base, tagged, n) <==> n <= Pow2(49)
  {
    if n > Pow2(49) {
      BlockReachesTag(some);
    } else {
      forall f: File, i: nat, g: File, j: nat {:trigger Pblk(f, i), BigPblk(g, j)} |
        f in base && g in tagged && i < n
        ensures Pblk(f, i) != BigPblk(g, j)
      {
        BaseIsLow(f, i);
        TaggedIsHigh(g, j);
      }
    }
  }

  /** Files of the base region whose directory can exist: ids below 2 are never used, the root is 2. */
  ghost const BASE_FILES: iset<File> := iset f: File | f.InBase() && f.dir >= ROOT_DIR

  /** Files of the expanded region whose directory can exist, with the fields the code gives them. */
  ghost const EXPANDED_FILES: iset<File> := iset f: File | IsExpanded(f)

  /** Both bounds are exact for the files that can exist. */
  lemma BoundsAreExact(n: nat)
    ensures InjectiveBelow(BASE_FILES, n) <==> n <= 0x10_0000
    ensures RegionsApartBelow(BASE_FILES, EXPANDED_FILES, n) <==> n <= Pow2(49)
  {
    UnderTagIsExpanded();
    InjectiveExactly(BASE_FILES, File(ROOT_DIR, 0, 0), n);
    RegionsApartExactly(BASE_FILES, EXPANDED_FILES, File(ROOT_DIR, 0, 0), n);
  }
}
