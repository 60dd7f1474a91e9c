/**
  The slot table of a directory (flatfs/lba.c): a name hashes to a bucket of eight slots, the first
  free slot of the bucket is taken, and the pair becomes the file's inode number.
 */
module SlotTable {
  import opened Wrappers
  import opened Bits
  import BkdrHash
  import opened FlatAddress
  import opened LiveSlots

  /** The bitmaps, bucket after bucket, and the `valid_slot_count` of each bucket. */
  datatype Table = Table(bits: seq<bool>, counts: seq<Byte>) {
    predicate Sized() { |bits| == BUCKETS * SLOTS && |counts| == BUCKETS }
  }

  /** `++` and `--` on a `__u8`. */
  function Up8(c: Byte): Byte { if c == 255 then 0 else c + 1 }

  function Down8(c: Byte): Byte { if c == 0 then 255 else c - 1 }

  /** Every count is the number of set bits of its bucket. */
  ghost predicate Counted(t: Table)
    requires t.Sized()
  {
    forall b {:trigger t.counts[b]} | 0 <= b < BUCKETS :: t.counts[b] == Ones(t.bits, SLOTS * b, SLOTS)
  }

  predicate Has(t: Table, bucket: nat, slot: nat)
    requires t.Sized()
  {
    bucket < BUCKETS && slot < SLOTS && t.bits[SLOTS * bucket + slot]
  }

  // ---------- Taking and freeing a slot ----------

  function Taken(t: Table, bucket: nat, slot: nat): Table
    requires t.Sized() && bucket < BUCKETS && slot < SLOTS
  {
    Table(t.bits[SLOTS * bucket + slot := true], t.counts[bucket := Up8(t.counts[bucket])])
  }

  function Freed(t: Table, bucket: nat, slot: nat): Table
    requires t.Sized() && bucket < BUCKETS && slot < SLOTS
  {
    Table(t.bits[SLOTS * bucket + slot := false], t.counts[bucket := Down8(t.counts[bucket])])
  }

  /** The free slot `insert_file` finds in a bucket, if any. */
  function FreeSlot(t: Table, bucket: nat): Option<nat>
    requires t.Sized() && bucket < BUCKETS
  {
    var slot := FirstZero(t.bits, SLOTS * bucket, SLOTS);
    if slot == SLOTS then None else Some(slot)
  }

  /** An allocation fails exactly when all eight slots of the bucket are live. */
  lemma FreeSlotExact(t: Table, bucket: nat, slot: Option<nat>)
    requires t.Sized() && bucket < BUCKETS
    ensures FreeSlot(t, bucket) == slot <==>
              match slot
              case None => forall i: nat | i < SLOTS :: Has(t, bucket, i)
              case Some(s) => s < SLOTS && !Has(t, bucket, s) && forall i: nat | i < s :: Has(t, bucket, i)
  {
    var k := if slot.Some? && slot.value < SLOTS then slot.value else SLOTS;
    FirstZeroExact(t.bits, SLOTS * bucket, SLOTS, k);
    assert forall i | SLOTS * bucket <= i < SLOTS * bucket + k :: t.bits[i] <==> Has(t, bucket, i - SLOTS * bucket);
    assert forall i: nat | i < k :: Has(t, bucket, i) <==> t.bits[SLOTS * bucket + i];
  }

  /** Only the bit and the count of one bucket change, together; the count never wraps around. */
  lemma SetKeepsCounts(t: Table, t': Table, bucket: nat, slot: nat, v: bool)
    requires t.Sized() && Counted(t) && bucket < BUCKETS && slot < SLOTS
    requires t.bits[SLOTS * bucket + slot] != v
    requires t' == if v then Taken(t, bucket, slot) else Freed(t, bucket, slot)
    ensures t'.Sized() && Counted(t')
    ensures t'.counts[bucket] as int - t.counts[bucket] as int == if v then 1 else -1
  {
    forall b | 0 <= b < BUCKETS ensures t'.counts[b] == Ones(t'.bits, SLOTS * b, SLOTS) {
      OnesUpdate(t.bits, SLOTS * bucket + slot, v, SLOTS * b, SLOTS);
    }
    OnesUpdate(t.bits, SLOTS * bucket + slot, v, SLOTS * bucket, SLOTS);
  }

  /** Freeing what was taken gives the previous table, bits and counts. */
  lemma FreeingRestores(t: Table, bucket: nat, slot: nat)
    requires t.Sized() && bucket < BUCKETS && slot < SLOTS && !Has(t, bucket, slot)
    ensures Has(Taken(t, bucket, slot), bucket, slot)
    ensures Freed(Taken(t, bucket, slot), bucket, slot) == t
  {
    var i, t' := SLOTS * bucket + slot, Taken(t, bucket, slot);
    assert t.bits[i := true][i := false] == t.bits;
    assert t'.counts[bucket := t.counts[bucket]] == t.counts;
  }

  // ---------- The code ----------

  /** The arguments `delete_file` turns away. */
  predicate TurnedAway(bucket: int, slot: int) {
    bucket == -1 || bucket > BUCKETS || slot > SLOTS
  }

  /** A bitmap of eight bits occupies one `unsigned long`. */
  const BITS_PER_LONG: nat := 64

  /**
    `test_bit` on the bitmap of a bucket; None is a read outside the buckets or outside the word of
    the bitmap. The bits from SLOTS on are padding that nothing ever sets.
   */
  function TestBit(t: Table, bucket: int, slot: int): Option<bool>
    requires t.Sized()
  {
    if !(0 <= bucket < BUCKETS && 0 <= slot < BITS_PER_LONG) then None else Some(Has(t, bucket, slot))
  }

  /** What `delete_file` returns and the table it leaves; None when it leaves the table. */
  function Deletion(t: Table, bucket: int, slot: int): Option<(bool, Table)>
    requires t.Sized()
  {
    if TurnedAway(bucket, slot) then Some((false, t))
    else
      match TestBit(t, bucket, slot)
      case None => None
      case Some(set') => Some(if set' then (true, Freed(t, bucket, slot)) else (false, t))
  }

  /** A call the guard admits stays inside the table exactly if bucket and slot are in range. */
  lemma GuardExactly(t: Table, bucket: int, slot: int)
    requires t.Sized()
    ensures !TurnedAway(bucket, slot) ==>
              (Deletion(t, bucket, slot).Some? <==> 0 <= bucket < BUCKETS && 0 <= slot <= SLOTS)
    ensures Deletion(t, bucket, slot).None? <==>
              (bucket == BUCKETS || bucket < -1 || (0 <= bucket < BUCKETS && slot < 0)) && slot <= SLOTS
  {
  }

  /** The guard is not enough: it admits one bucket past the end and negative slots. */
  lemma GuardAdmitsOutside(t: Table)
    requires t.Sized()
    ensures !TurnedAway(4096, 0) && Deletion(t, 4096, 0) == None
    ensures !TurnedAway(0, -1) && Deletion(t, 0, -1) == None
  {
  }

  /**
    Its caller takes bucket and slot from an inode number; every number gives a pair that the guard
    admits and that is in the table, so the call frees that slot if it is live and else does nothing.
   */
  lemma DeletionByInoIsInside(t: Table, ino: nat)
    requires t.Sized()
    ensures var b, s := InoToBucket(ino), InoToSlot(ino);
            && b < BUCKETS && s < SLOTS && !TurnedAway(b, s)
            && Deletion(t, b, s) == Some(if Has(t, b, s) then (true, Freed(t, b, s)) else (false, t))
  {
    InoFieldsInRange(ino);
  }

  /** Where a scan delivers directory entries; it always accepts another one. */
  class DirContext {
    var pos: nat
    var emitted: seq<nat>

    method DirEmit(ino: nat)
      modifies this
      ensures emitted == old(emitted) + [ino % 0x1_0000_0000] && pos == old(pos) + 1
    {
      emitted := emitted + [ino % 0x1_0000_0000];
      pos := pos + 1;
    }
  }

  /** The inode number the allocator issues for slot i of a directory's table. */
  function InoAt(dir: nat, i: nat): nat { Ino(File(dir, i / SLOTS, i % SLOTS)) }

  function Inos(dir: nat, s: seq<nat>): (r: seq<nat>)
    ensures |r| == |s|
  {
    if s == [] then [] else [InoAt(dir, s[0])] + Inos(dir, s[1..])
  }

  /** The inode number `read_dir_files` computes. */
  function ScanIno(dir: nat, bkt: nat, slt: nat): nat {
    slt + Shl(bkt + Shl(dir, MIN_FILE_BUCKET_BITS), FILE_SLOT_BITS)
  }

  lemma ScanInoIs(dir: nat, bkt: nat, slt: nat)
    ensures ScanIno(dir, bkt, slt) == 32768 * dir + 8 * bkt + slt
  {
    ShlIsMul(bkt + Shl(dir, 12), 3);
    ShlIsMul(dir, 12);
    Pow2Values();
  }

  /** A scan emits the number the allocator issued, and it fits the 32 bits it is emitted in. */
  lemma ScanInoIsIssued(dir: nat, bkt: nat, slt: nat)
    requires File(dir, bkt, slt).InBase()
    ensures ScanIno(dir, bkt, slt) % 0x1_0000_0000 == Ino(File(dir, bkt, slt))
  {
    InoIs(File(dir, bkt, slt));
    ScanInoIs(dir, bkt, slt);
    FitsHalfWord(ScanIno(dir, bkt, slt));
  }

  lemma FitsHalfWord(x: nat)
    requires x < 0x1_0000_0000
    ensures x % 0x1_0000_0000 == x
  {
  }

  lemma SlotIno(dir: nat, bkt: nat, slt: nat)
    requires File(dir, bkt, slt).InBase()
    ensures ScanIno(dir, bkt, slt) % 0x1_0000_0000 == InoAt(dir, SLOTS * bkt + slt)
  {
    ScanInoIsIssued(dir, bkt, slt);
    SlotIndex(bkt, slt);
  }

  lemma SlotIndex(bkt: nat, slt: nat)
    requires slt < 8
    ensures (8 * bkt + slt) / 8 == bkt && (8 * bkt + slt) % 8 == slt
  {
  }

  lemma {:induction false} InosAt(dir: nat, s: seq<nat>, k: nat)
    requires k < |s| && dir < 0x4000 && s[k] < 32768
    ensures Inos(dir, s)[k] == 32768 * dir + s[k]
    decreases k
  {
    if k > 0 {
      InosAt(dir, s[1..], k - 1);
    } else {
      InoIs(File(dir, s[0] / SLOTS, s[0] % SLOTS));
    }
  }

  /**
    What a scan with cursor p emits, number by number: in ascending order exactly the numbers of the
    live slots that have p live slots or more before them.
   */
  lemma ScanIsExact(bits: seq<bool>, dir: nat, p: nat, i: nat)
    requires |bits| == 32768 && dir < 0x4000 && i < 32768
    ensures var e := Inos(dir, LiveFrom(bits, p));
            && (32768 * dir + i in e <==> bits[i] && Ones(bits, 0, i) >= p)
            && forall j, k | 0 <= j < k < |e| :: e[j] < e[k]
  {
    var rest, all := LiveFrom(bits, p), Live(bits, 0);
    var e, q := Inos(dir, rest), Min(p, |all|);
    forall k | 0 <= k < |rest| ensures e[k] == 32768 * dir + rest[k] && rest[k] == all[q + k] {
      LiveMember(bits, 0, all[q + k]);
      InosAt(dir, rest, k);
    }
    forall j, k | 0 <= j < k < |e| ensures e[j] < e[k] {
      LiveAscends(bits, 0, q + j, q + k);
    }
    EmittedIffLeft(dir, rest, e, i);
    LiveMember(bits, 0, i);
    if bits[i] {
      LiveFromIsRanked(bits, p, i);
    }
  }

  lemma EmittedIffLeft(dir: nat, rest: seq<nat>, e: seq<nat>, i: nat)
    requires |e| == |rest| && forall k | 0 <= k < |rest| :: e[k] == 32768 * dir + rest[k]
    ensures 32768 * dir + i in e <==> i in rest
  {
    if i in rest {
      var k :| 0 <= k < |rest| && rest[k] == i;
      assert e[k] == 32768 * dir + i;
    }
  }

  /** How far a scan is: what it has emitted and what is left make up what it had to emit. */
  ghost predicate Scanned(bits: seq<bool>, dir: nat, start: seq<nat>, i: nat, emitted: seq<nat>, j: nat) {
    emitted + Inos(dir, Live(bits, j)) == start + Inos(dir, Live(bits, i))
  }

  lemma ScanOne(bits: seq<bool>, dir: nat, start: seq<nat>, i: nat, emitted: seq<nat>, j: nat)
    requires j < |bits| && Scanned(bits, dir, start, i, emitted, j)
    ensures Scanned(bits, dir, start, i, if bits[j] then emitted + [InoAt(dir, j)] else emitted, j + 1)
  {
    if bits[j] {
      assert Live(bits, j)[1..] == Live(bits, j + 1);
      Regroup(emitted, InoAt(dir, j), Inos(dir, Live(bits, j + 1)));
    }
  }

  lemma Regroup(a: seq<nat>, x: nat, b: seq<nat>)
    ensures a + [x] + b == a + ([x] + b)
  {
  }

  lemma ScanChain(bits: seq<bool>, dir: nat, start: seq<nat>, i: nat, mid: seq<nat>, j: nat, emitted: seq<nat>, k: nat)
    requires Scanned(bits, dir, start, i, mid, j) && Scanned(bits, dir, mid, j, emitted, k)
    ensures Scanned(bits, dir, start, i, emitted, k)
  {
  }

  class HashTable {
    var bits: seq<bool>
    var counts: seq<Byte>
    /** The cursor of directory scans. */
    var pos: nat

    ghost function Value(): Table
      reads this
    {
      Table(bits, counts)
    }

    constructor ()
      ensures Value().Sized() && Counted(Value()) && pos == 0
      ensures forall b: nat, s: nat :: !Has(Value(), b, s)
    {
      bits := seq(BUCKETS * SLOTS, _ => false);
      counts := seq(BUCKETS, _ => 0);
      pos := 0;
      new;
      forall b | 0 <= b < BUCKETS ensures counts[b] == Ones(bits, SLOTS * b, SLOTS) {
        NoOnes(bits, SLOTS * b, SLOTS);
      }
    }

    method FindFirstZeroBit(bucket: nat) returns (slot: nat)
      requires Value().Sized() && bucket < BUCKETS
      ensures slot == FirstZero(bits, SLOTS * bucket, SLOTS)
    {
      slot := 0;
      while slot < SLOTS && bits[SLOTS * bucket + slot]
        invariant slot <= SLOTS
        invariant forall i | SLOTS * bucket <= i < SLOTS * bucket + slot :: bits[i]
      {
        slot := slot + 1;
      }
      FirstZeroExact(bits, SLOTS * bucket, SLOTS, slot);
    }

    /** The segment number of the slot taken, or None for -1. */
    method InsertFile(filename: seq<BkdrHash.Char>) returns (seg: Option<nat>)
      requires Value().Sized()
      modifies `bits, `counts
      ensures Value().Sized()
      ensures var b := BkdrHash.Poly(filename) % BUCKETS;
              match FreeSlot(old(Value()), b)
              case None => seg == None && Value() == old(Value())
              case Some(slot) => seg == Some(Seg(b, slot)) && Value() == Taken(old(Value()), b, slot)
    {
      var hashcode := BkdrHash.BKDRHash(filename);
      var bucket := BkdrHash.Bucket(hashcode);
      BkdrHash.BucketsAreExact(filename);
      var slot := FindFirstZeroBit(bucket);
      if slot == SLOTS {
        return None;
      }
      bits := bits[SLOTS * bucket + slot := true];
      counts := counts[bucket := Up8(counts[bucket])];
      var fileSeg := Or(0, slot);
      fileSeg := Or(fileSeg, Shl(bucket, FILE_SLOT_BITS));
      seg := Some(fileSeg);
    }

    /** `flatfs_file_slot_alloc_by_name`: the inode number of the new file. */
    method SlotAllocByName(dir: nat, filename: seq<BkdrHash.Char>) returns (ino: Option<nat>)
      requires Value().Sized()
      modifies `bits, `counts
      ensures Value().Sized()
      ensures var b := BkdrHash.Poly(filename) % BUCKETS;
              match FreeSlot(old(Value()), b)
              case None => ino == None && Value() == old(Value())
              case Some(slot) => ino == Some(Ino(File(dir, b, slot))) && Value() == Taken(old(Value()), b, slot)
    {
      var seg := InsertFile(filename);
      if seg.None? {
        return None;
      }
      ino := Some(Or(seg.value, Shl(dir, FILE_SLOT_BITS + MIN_FILE_BUCKET_BITS)));
    }

    method DeleteFile(bucket: int, slot: int) returns (ok: bool)
      requires Value().Sized()
      requires TurnedAway(bucket, slot) || (0 <= bucket < BUCKETS && 0 <= slot)
      modifies `bits, `counts
      ensures Some((ok, Value())) == Deletion(old(Value()), bucket, slot)
      ensures ok == (!TurnedAway(bucket, slot) && Has(old(Value()), bucket, slot))
    {
      if bucket == -1 || bucket > BUCKETS || slot > SLOTS {
        return false;
      }
      if slot == SLOTS || !bits[SLOTS * bucket + slot] {
        return false;
      }
      counts := counts[bucket := Down8(counts[bucket])];
      bits := bits[SLOTS * bucket + slot := false];
      return true;
    }

    /** Passes as many live slots as the cursor says. */
    method Seek() returns (bkt: nat, slt: nat)
      requires Value().Sized() && pos > 0
      ensures bkt <= BUCKETS && slt <= SLOTS && (bkt == BUCKETS ==> slt == SLOTS)
      ensures Live(bits, SLOTS * bkt + slt) == LiveFrom(bits, pos)
    {
      var p: nat := 0;
      bkt, slt := 0, SLOTS;
      PassNone(bits);
      while bkt < BUCKETS
        invariant bkt <= BUCKETS && p <= pos && slt == SLOTS && (p < pos || bkt == 0)
        invariant Passed(bits, SLOTS * bkt, p)
      {
        slt, p := SeekInBucket(bkt, p);
        if p >= pos {
          PassedAll(bits, SLOTS * bkt + slt, p, pos);
          return;
        }
        bkt := bkt + 1;
      }
      PassedAll(bits, SLOTS * bkt, p, pos);
    }

    method SeekInBucket(bkt: nat, p0: nat) returns (slt: nat, p: nat)
      requires Value().Sized() && bkt < BUCKETS && p0 <= pos && Passed(bits, SLOTS * bkt, p0)
      ensures slt <= SLOTS && p <= pos && Passed(bits, SLOTS * bkt + slt, p)
      ensures p == pos || slt == SLOTS
    {
      slt, p := 0, p0;
      while slt < SLOTS
        invariant slt <= SLOTS && p <= pos && Passed(bits, SLOTS * bkt + slt, p)
      {
        if p >= pos {
          break;
        }
        PassOne(bits, SLOTS * bkt + slt, p);
        if bits[SLOTS * bkt + slt] {
          p := p + 1;
        }
        slt := slt + 1;
      }
    }

    method EmitSlot(dir: nat, bkt: nat, slt: nat, ctx: DirContext)
      requires Value().Sized() && File(dir, bkt, slt).InBase()
      modifies `pos, ctx
      ensures ctx.emitted == if bits[SLOTS * bkt + slt] then old(ctx.emitted) + [InoAt(dir, SLOTS * bkt + slt)]
                             else old(ctx.emitted)
      ensures pos - old(pos) == ctx.pos - old(ctx.pos) == |ctx.emitted| - |old(ctx.emitted)|
    {
      if bits[SLOTS * bkt + slt] {
        SlotIno(dir, bkt, slt);
        ctx.DirEmit(ScanIno(dir, bkt, slt));
        pos := pos + 1;
      }
    }

    /** Emits the live slots of a bucket from slot `from` on. */
    method EmitBucket(dir: nat, bkt: nat, from: nat, ctx: DirContext)
      requires Value().Sized() && dir < 0x4000 && from <= SLOTS && (bkt < BUCKETS || from == SLOTS)
      modifies `pos, ctx
      ensures Scanned(bits, dir, old(ctx.emitted), SLOTS * bkt + from, ctx.emitted, SLOTS * bkt + SLOTS)
      ensures pos - old(pos) == ctx.pos - old(ctx.pos) == |ctx.emitted| - |old(ctx.emitted)|
    {
      var slt := from;
      while slt < SLOTS
        invariant from <= slt <= SLOTS
        invariant Scanned(bits, dir, old(ctx.emitted), SLOTS * bkt + from, ctx.emitted, SLOTS * bkt + slt)
        invariant pos - old(pos) == ctx.pos - old(ctx.pos) == |ctx.emitted| - |old(ctx.emitted)|
      {
        ScanOne(bits, dir, old(ctx.emitted), SLOTS * bkt + from, ctx.emitted, SLOTS * bkt + slt);
        EmitSlot(dir, bkt, slt, ctx);
        slt := slt + 1;
      }
    }

    /** Whether any slot of a bucket is live. */
    method InUse(bkt: nat) returns (flag: bool)
      requires Value().Sized() && bkt < BUCKETS
      ensures !flag ==> Live(bits, SLOTS * bkt) == Live(bits, SLOTS * bkt + SLOTS)
      ensures flag <==> exists slt: nat :: Has(Value(), bkt, slt)
    {
      var slt := 0;
      while slt < SLOTS
        invariant slt <= SLOTS && Live(bits, SLOTS * bkt) == Live(bits, SLOTS * bkt + slt)
        invariant forall s: nat | s < slt :: !Has(Value(), bkt, s)
      {
        if bits[SLOTS * bkt + slt] {
          assert Has(Value(), bkt, slt);
          return true;
        }
        slt := slt + 1;
      }
      return false;
    }

    /** Emits the live slots of every bucket from bkt0 on, skipping empty buckets. */
    method EmitBuckets(dir: nat, bkt0: nat, ctx: DirContext)
      requires Value().Sized() && dir < 0x4000 && bkt0 <= BUCKETS + 1
      modifies `pos, ctx
      ensures ctx.emitted == old(ctx.emitted) + Inos(dir, Live(bits, SLOTS * bkt0))
      ensures pos - old(pos) == ctx.pos - old(ctx.pos) == |ctx.emitted| - |old(ctx.emitted)|
    {
      var bkt := bkt0;
      while bkt < BUCKETS
        invariant bkt0 <= bkt && (bkt <= BUCKETS || bkt == bkt0)
        invariant Scanned(bits, dir, old(ctx.emitted), SLOTS * bkt0, ctx.emitted, SLOTS * bkt)
        invariant pos - old(pos) == ctx.pos - old(ctx.pos) == |ctx.emitted| - |old(ctx.emitted)|
      {
        var flag := InUse(bkt);
        if flag {
          ghost var mid := ctx.emitted;
          EmitBucket(dir, bkt, 0, ctx);
          ScanChain(bits, dir, old(ctx.emitted), SLOTS * bkt0, mid, SLOTS * bkt, ctx.emitted, SLOTS * bkt + SLOTS);
        }
        bkt := bkt + 1;
      }
      assert ctx.emitted + [] == ctx.emitted;
    }

    /**
      A scan emits exactly the live inode numbers of rank at least the cursor, in bucket order, as
      the allocator issued them, and moves both cursors past them.
     */
    method ReadDirFiles(ino: nat, ctx: DirContext)
      requires Value().Sized() && ino > 0 && InodeToDirId(ino) < 0x4000
      modifies `pos, ctx
      ensures ctx.emitted == old(ctx.emitted) + Inos(InodeToDirId(ino), LiveFrom(bits, old(pos)))
      ensures pos == old(pos) + |LiveFrom(bits, old(pos))|
      ensures ctx.pos == old(ctx.pos) + |LiveFrom(bits, old(pos))|
    {
      var dir := Shr(ino - 1, MIN_FILE_BUCKET_BITS + FILE_SLOT_BITS);
      var bkt := 0;
      if pos != 0 {
        var slt;
        bkt, slt := Seek();
        EmitBucket(dir, bkt, slt, ctx);
        bkt := bkt + 1;
      }
      EmitBuckets(dir, bkt, ctx);
    }
  }

  lemma {:induction false} NoOnes(bits: seq<bool>, from: nat, n: nat)
    requires from + n <= |bits| && forall i | 0 <= i < |bits| :: !bits[i]
    ensures Ones(bits, from, n) == 0
    decreases n
  {
    if n > 0 {
      NoOnes(bits, from, n - 1);
    }
  }
}
