/**
  Whole runs of slot allocation and deletion over the tables of many directories: live files have
  different inode numbers and no two of them ever share a data block.
 */
module Volume {
  import opened Wrappers
  import BkdrHash
  import opened FlatAddress
  import opened LiveSlots
  import opened SlotTable

  /** The base tables of the directories, by directory id. */
  type Tables = seq<Table>

  ghost predicate Valid(v: Tables) {
    |v| <= 0x4000 && forall d {:trigger v[d]} | 0 <= d < |v| :: v[d].Sized() && Counted(v[d])
  }

  /** A file is live when its slot is set in the table of its directory. */
  ghost predicate IsLive(v: Tables, f: File)
    requires Valid(v)
  {
    f.dir < |v| && Has(v[f.dir], f.bucket, f.slot)
  }

  /** Creating a file by name, and deleting one by the directory and inode number its inode holds. */
  datatype Op = Create(dir: nat, name: seq<BkdrHash.Char>) | Delete(dir: nat, ino: nat)

  /** The file a creation would get. */
  function Allotted(v: Tables, dir: nat, name: seq<BkdrHash.Char>): Option<File>
    requires dir < |v| && v[dir].Sized()
  {
    var bucket := BkdrHash.Poly(name) % BUCKETS;
    match FreeSlot(v[dir], bucket)
    case None => None
    case Some(slot) => Some(File(dir, bucket, slot))
  }

  function Named(dir: nat, ino: nat): File { File(dir, InoToBucket(ino), InoToSlot(ino)) }

  function Insert(v: Tables, f: File): Tables
    requires f.dir < |v| && v[f.dir].Sized() && f.bucket < BUCKETS && f.slot < SLOTS
  {
    v[f.dir := Taken(v[f.dir], f.bucket, f.slot)]
  }

  function Remove(v: Tables, f: File): Tables
    requires f.dir < |v| && v[f.dir].Sized() && f.bucket < BUCKETS && f.slot < SLOTS
  {
    v[f.dir := Freed(v[f.dir], f.bucket, f.slot)]
  }

  /** Tables and the files created and not deleted since. */
  datatype State = State(v: Tables, held: set<File>)

  ghost predicate Inv(s: State) {
    Valid(s.v) && forall f {:trigger f in s.held} :: f in s.held <==> IsLive(s.v, f)
  }

  ghost function Step(s: State, op: Op): State
    requires Valid(s.v)
  {
    if op.dir >= |s.v| then s
    else match op
      case Create(dir, name) =>
        (match Allotted(s.v, dir, name)
         case None => s
         case Some(f) => State(Insert(s.v, f), s.held + {f}))
      case Delete(dir, ino) =>
        if IsLive(s.v, Named(dir, ino)) then State(Remove(s.v, Named(dir, ino)), s.held - {Named(dir, ino)}) else s
  }

  // ---------- One step ----------

  lemma LiveIsInBase(v: Tables, f: File)
    requires Valid(v) && IsLive(v, f)
    ensures f.InBase()
  {
  }

  /** Setting or clearing the slot of one file changes nothing about any other file. */
  lemma SetsOneFile(v: Tables, f: File, g: File, set': bool)
    requires Valid(v) && f.dir < |v| && f.bucket < BUCKETS && f.slot < SLOTS && IsLive(v, f) != set'
    ensures var v' := if set' then Insert(v, f) else Remove(v, f);
            Valid(v') && (IsLive(v', g) <==> if g == f then set' else IsLive(v, g))
  {
    var t := v[f.dir];
    var t' := if set' then Taken(t, f.bucket, f.slot) else Freed(t, f.bucket, f.slot);
    SetKeepsCounts(t, t', f.bucket, f.slot, set');
    var v' := if set' then Insert(v, f) else Remove(v, f);
    assert Valid(v') by {
      forall d | 0 <= d < |v'| ensures v'[d].Sized() && Counted(v'[d]) {
        assert v'[d] == if d == f.dir then t' else v[d];
      }
    }
  }

  /** What a creation allots was not live, and it is in the bucket of its name. */
  lemma AllottedIsNew(v: Tables, dir: nat, name: seq<BkdrHash.Char>)
    requires Valid(v) && dir < |v| && Allotted(v, dir, name).Some?
    ensures var f := Allotted(v, dir, name).value;
            f.InBase() && f.dir == dir && f.bucket == BkdrHash.Poly(name) % BUCKETS && !IsLive(v, f)
  {
  }

  /** In a directory without files a name gets slot 0 of the bucket its number in base 131 selects. */
  lemma FirstFileOfName(v: Tables, dir: nat, name: seq<BkdrHash.Char>)
    requires Valid(v) && dir < |v| && forall b: nat, s: nat :: !Has(v[dir], b, s)
    ensures Allotted(v, dir, name) == Some(File(dir, BkdrHash.Base131(name) % 4096, 0))
  {
    BkdrHash.PolyIsBase131(name);
    FreeSlotExact(v[dir], BkdrHash.Base131(name) % 4096, Some(0));
  }

  /** A name of two characters, spelled out. */
  lemma TwoCharacterName(v: Tables, dir: nat, c: BkdrHash.Char, d: BkdrHash.Char)
    requires Valid(v) && dir < |v| && forall b: nat, s: nat :: !Has(v[dir], b, s)
    ensures Allotted(v, dir, [c, d]) == Some(File(dir, (131 * c + d) % 4096, 0))
  {
    FirstFileOfName(v, dir, [c, d]);
    assert [c, d][..1] == [c] && [c][..0] == [];
    assert BkdrHash.Base131([c]) == c;
  }

  lemma StepKeepsInv(s: State, op: Op)
    requires Inv(s)
    ensures Inv(Step(s, op)) && |Step(s, op).v| == |s.v|
  {
    if op.dir < |s.v| {
      if op.Create? && Allotted(s.v, op.dir, op.name).Some? {
        AllottedIsNew(s.v, op.dir, op.name);
        SetKeepsInv(s, Allotted(s.v, op.dir, op.name).value, true);
      } else if op.Delete? && IsLive(s.v, Named(op.dir, op.ino)) {
        SetKeepsInv(s, Named(op.dir, op.ino), false);
      }
    }
  }

  lemma SetKeepsInv(s: State, f: File, set': bool)
    requires Inv(s) && f.dir < |s.v| && f.bucket < BUCKETS && f.slot < SLOTS && IsLive(s.v, f) != set'
    ensures Inv(if set' then State(Insert(s.v, f), s.held + {f}) else State(Remove(s.v, f), s.held - {f}))
  {
    var s' := if set' then State(Insert(s.v, f), s.held + {f}) else State(Remove(s.v, f), s.held - {f});
    SetsOneFile(s.v, f, f, set');
    forall g ensures g in s'.held <==> IsLive(s'.v, g) {
      SetsOneFile(s.v, f, g, set');
    }
  }

  // ---------- Inode numbers ----------

  /** The inode number of a new file is not the number of any live file of any directory. */
  lemma IssuedInoIsNew(s: State, dir: nat, name: seq<BkdrHash.Char>, g: File)
    requires Inv(s) && dir < |s.v| && Allotted(s.v, dir, name).Some? && g in s.held
    ensures Ino(g) != Ino(Allotted(s.v, dir, name).value)
  {
    var f := Allotted(s.v, dir, name).value;
    AllottedIsNew(s.v, dir, name);
    LiveIsInBase(s.v, g);
    if Ino(g) == Ino(f) {
      InoInjective(f, g);
    }
  }

  /** The inode number leads back to the slot, and deleting the file by it restores the tables. */
  lemma DeletingUndoesCreating(s: State, dir: nat, name: seq<BkdrHash.Char>)
    requires Inv(s) && dir < |s.v| && Allotted(s.v, dir, name).Some?
    ensures Valid(Step(s, Create(dir, name)).v)
    ensures var f := Allotted(s.v, dir, name).value;
            Step(Step(s, Create(dir, name)), Delete(dir, Ino(f))) == s
  {
    var f := Allotted(s.v, dir, name).value;
    AllottedIsNew(s.v, dir, name);
    InoRoundTrip(f);
    SetsOneFile(s.v, f, f, true);
    FreeingRestores(s.v[dir], f.bucket, f.slot);
    assert s.v[dir := Taken(s.v[dir], f.bucket, f.slot)][dir := s.v[dir]] == s.v;
    assert s.held + {f} - {f} == s.held;
    StepKeepsInv(s, Create(dir, name));
  }

  // ---------- Whole runs ----------

  ghost function Run(s: State, ops: seq<Op>): (r: State)
    requires Inv(s)
    ensures Inv(r) && |r.v| == |s.v|
    decreases |ops|
  {
    if ops == [] then s else
      StepKeepsInv(s, ops[0]);
      Run(Step(s, ops[0]), ops[1..])
  }

  function Empty(n: nat): Tables {
    seq(n, _ => Table(seq(BUCKETS * SLOTS, _ => false), seq(BUCKETS, _ => 0)))
  }

  lemma EmptyIsValid(n: nat)
    requires n <= 0x4000
    ensures Inv(State(Empty(n), {}))
  {
    var t: Table := Table(seq(BUCKETS * SLOTS, _ => false), seq(BUCKETS, _ => 0));
    forall b | 0 <= b < BUCKETS ensures t.counts[b] == Ones(t.bits, SLOTS * b, SLOTS) {
      NoOnes(t.bits, SLOTS * b, SLOTS);
    }
    assert forall d | 0 <= d < n :: Empty(n)[d] == t;
  }

  /** All tables empty. */
  ghost function Start(n: nat): (s: State)
    requires n <= 0x4000
    ensures Inv(s) && s.held == {} && |s.v| == n
  {
    EmptyIsValid(n);
    State(Empty(n), {})
  }

  /**
    Over every run from empty tables, the files created and not deleted since are the live ones,
    every count is right, and no two of them share a data block below 2 to the power 20.
   */
  lemma LiveFilesShareNoBlock(n: nat, ops: seq<Op>, f: File, i: nat, g: File, j: nat)
    requires n <= 0x4000
    ensures var s := Run(Start(n), ops);
            && Valid(s.v)
            && (f in s.held <==> IsLive(s.v, f))
            && (f in s.held && g in s.held && i < 0x10_0000 && j < 0x10_0000 && SameBlock(f, i, g, j) ==>
                  f == g && i == j)
  {
    var s := Run(Start(n), ops);
    if f in s.held && g in s.held && i < 0x10_0000 && j < 0x10_0000 && SameBlock(f, i, g, j) {
      LiveIsInBase(s.v, f);
      LiveIsInBase(s.v, g);
      DisjointBlocks(f, i, g, j);
    }
  }
}
