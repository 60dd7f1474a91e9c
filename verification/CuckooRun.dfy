/**
  Whole runs of the cuckoo table: after any sequence of insertions of fresh keys, updates and
  resizes, it answers queries as a finite map would.
 */
module CuckooRun {
  import Bits
  import opened CuckooTable
  import opened CuckooPath
  import CuckooEviction
  import CuckooSpec
  import opened Wrappers
  import XxHash
  import XxHashReference

  datatype Op = Insert(key: Key, value: Value) | Update(key: Key, value: Value) | Resize

  /** The table and the counter `entry_num`. */
  datatype State = State(im: Image, entryNum: nat)

  /** The three operations that change a table; None is a call that did not return SUCCESS. */
  datatype Calls = Calls(insert: (Image, Entry) -> Option<Image>,
                         update: (Image, Key, Value) -> Option<Image>,
                         resize: Image -> Option<Image>)

  /** The operations of the cuckoo table. */
  ghost function TableCalls(): Calls {
    Calls((im: Image, e: Entry) => if im.WellPlaced() then CuckooSpec.Insert(im, e) else None,
          (im: Image, key: Key, value: Value) => if im.Sized() then CuckooSpec.Update(im, key, value) else None,
          (im: Image) => CuckooSpec.Resize(im))
  }

  function After(s: State, o: Option<Image>, added: nat): (State, bool) {
    if o.Some? then (State(o.value, s.entryNum + added), true) else (s, false)
  }

  /** One call: the new state and whether it returned SUCCESS. */
  function Step(c: Calls, s: State, op: Op): (State, bool) {
    match op
    case Insert(key, value) => After(s, c.insert(s.im, Entry(key, value)), 1)
    case Update(key, value) => After(s, c.update(s.im, key, value), 0)
    case Resize => After(s, c.resize(s.im), 0)
  }

  /** What the same call does to a map, given its outcome. */
  function MapStep(m: map<Key, Value>, op: Op, ok: bool): map<Key, Value> {
    if !ok || op.Resize? then m else m[op.key := op.value]
  }

  /** Keys are non-empty and only keys that are not stored are inserted. */
  predicate Fresh(m: map<Key, Value>, op: Op) {
    match op
    case Insert(key, _) => key != [] && key !in m
    case Update(key, _) => key != []
    case Resize => true
  }

  ghost predicate Inv(s: State) {
    s.im.WellPlaced() && UniqueKeys(Items(s.im.t)) && s.entryNum == |Items(s.im.t)|
  }

  ghost function Abstraction(s: State): map<Key, Value>
    requires Inv(s)
  {
    Contents(Items(s.im.t))
  }

  /** What each operation promises about the entries it leaves behind. */
  ghost predicate Adds(im: Image, e: Entry, o: Option<Image>) {
    o.Some? ==> o.value.WellPlaced() && Items(o.value.t) == Items(im.t) + multiset{e}
  }

  ghost predicate Replaces(im: Image, key: Key, value: Value, o: Option<Image>)
    requires UniqueKeys(Items(im.t))
  {
    && (o.Some? <==> key in Contents(Items(im.t)))
    && (o.Some? ==> && o.value.WellPlaced() && UniqueKeys(Items(o.value.t))
                    && |Items(o.value.t)| == |Items(im.t)|
                    && Contents(Items(o.value.t)) == Contents(Items(im.t))[key := value])
  }

  ghost predicate Grows(im: Image, o: Option<Image>) {
    o.Some? && o.value.WellPlaced() && Items(o.value.t) == Items(im.t) && o.value.capacity == 2 * im.capacity
  }

  ghost predicate Faithful(c: Calls) {
    && (forall im: Image, e: Entry {:trigger c.insert(im, e)} | im.WellPlaced() && !e.IsEmpty() ::
          Adds(im, e, c.insert(im, e)))
    && (forall im: Image, key: Key, value: Value {:trigger c.update(im, key, value)} |
          im.WellPlaced() && UniqueKeys(Items(im.t)) && key != [] ::
          Replaces(im, key, value, c.update(im, key, value)))
    && (forall im: Image {:trigger c.resize(im)} | im.WellPlaced() :: Grows(im, c.resize(im)))
  }

  lemma TableCallsAreFaithful()
    ensures Faithful(TableCalls())
  {
    var c := TableCalls();
    forall im: Image, e: Entry | im.WellPlaced() && !e.IsEmpty()
      ensures Adds(im, e, c.insert(im, e))
    {
      InsertIsFaithful(im, e);
    }
    forall im: Image, key: Key, value: Value | im.WellPlaced() && UniqueKeys(Items(im.t)) && key != []
      ensures Replaces(im, key, value, c.update(im, key, value))
    {
      UpdateIsFaithful(im, key, value);
    }
    forall im: Image | im.WellPlaced()
      ensures Grows(im, c.resize(im))
    {
      CuckooSpec.ResizeNeverFails(im);
    }
  }

  lemma InsertIsFaithful(im: Image, e: Entry)
    requires im.WellPlaced() && !e.IsEmpty()
    ensures Adds(im, e, CuckooSpec.Insert(im, e))
  {
    CuckooSpec.InsertAddsEntry(im, e);
  }

  lemma UpdateIsFaithful(im: Image, key: Key, value: Value)
    requires im.WellPlaced() && UniqueKeys(Items(im.t)) && key != []
    ensures Replaces(im, key, value, CuckooSpec.Update(im, key, value))
  {
    CuckooSpec.UpdateIsMapUpdate(im, key, value);
  }

  /** s' follows s: the invariant holds again and the map has taken the step. */
  ghost predicate Follows(s: State, op: Op, next: (State, bool))
    requires Inv(s)
  {
    Inv(next.0) && Abstraction(next.0) == MapStep(Abstraction(s), op, next.1)
  }

  lemma AddingFollowsMap(s: State, key: Key, value: Value, o: Option<Image>)
    requires Inv(s) && key !in Abstraction(s) && Adds(s.im, Entry(key, value), o)
    ensures Follows(s, Insert(key, value), After(s, o, 1))
  {
    if o.Some? {
      AddingExtendsMap(s, key, value, State(o.value, s.entryNum + 1));
    }
  }

  lemma AddingExtendsMap(s: State, key: Key, value: Value, r: State)
    requires Inv(s) && key !in Abstraction(s) && r.entryNum == s.entryNum + 1
    requires r.im.WellPlaced() && Items(r.im.t) == Items(s.im.t) + multiset{Entry(key, value)}
    ensures Follows(s, Insert(key, value), (r, true))
  {
    ContentsAdd(Items(s.im.t), Entry(key, value));
  }

  lemma ReplacingFollowsMap(s: State, key: Key, value: Value, o: Option<Image>)
    requires Inv(s) && Replaces(s.im, key, value, o)
    ensures Follows(s, Update(key, value), After(s, o, 0))
    ensures After(s, o, 0).1 <==> key in Abstraction(s)
  {
  }

  lemma GrowingFollowsMap(s: State, o: Option<Image>)
    requires Inv(s) && Grows(s.im, o)
    ensures Follows(s, Resize, After(s, o, 0))
    ensures After(s, o, 0).1 && After(s, o, 0).0.im.capacity == 2 * s.im.capacity
  {
  }

  /**
    One call keeps the invariant and follows the map; a resize always succeeds, and an update
    succeeds exactly on the stored keys.
   */
  lemma StepRefinesMap(c: Calls, s: State, op: Op)
    requires Faithful(c) && Inv(s) && Fresh(Abstraction(s), op)
    ensures Follows(s, op, Step(c, s, op))
    ensures op.Resize? ==> Step(c, s, op).1 && Step(c, s, op).0.im.capacity == 2 * s.im.capacity
    ensures op.Update? ==> (Step(c, s, op).1 <==> op.key in Abstraction(s))
  {
    match op
    case Insert(key, value) => AddingFollowsMap(s, key, value, c.insert(s.im, Entry(key, value)));
    case Update(key, value) => ReplacingFollowsMap(s, key, value, c.update(s.im, key, value));
    case Resize => GrowingFollowsMap(s, c.resize(s.im));
  }

  /** s' is the state after the calls in ops, whose outcomes were oks. */
  ghost predicate Runs(c: Calls, s: State, ops: seq<Op>, oks: seq<bool>, s': State)
    decreases |ops|
  {
    if |ops| == 0 then oks == [] && s' == s
    else && |oks| == |ops| && Step(c, s, ops[0]).1 == oks[0]
         && Runs(c, Step(c, s, ops[0]).0, ops[1..], oks[1..], s')
  }

  function MapRun(m: map<Key, Value>, ops: seq<Op>, oks: seq<bool>): map<Key, Value>
    requires |oks| == |ops|
    decreases |ops|
  {
    if |ops| == 0 then m else MapRun(MapStep(m, ops[0], oks[0]), ops[1..], oks[1..])
  }

  predicate FreshRun(m: map<Key, Value>, ops: seq<Op>, oks: seq<bool>)
    requires |oks| == |ops|
    decreases |ops|
  {
    |ops| == 0 || (Fresh(m, ops[0]) && FreshRun(MapStep(m, ops[0], oks[0]), ops[1..], oks[1..]))
  }

  lemma {:induction false} RunRefinesMap(c: Calls, s: State, ops: seq<Op>, oks: seq<bool>, s': State)
    requires Faithful(c) && |oks| == |ops| && Inv(s)
    requires Runs(c, s, ops, oks, s') && FreshRun(Abstraction(s), ops, oks)
    ensures Inv(s') && Abstraction(s') == MapRun(Abstraction(s), ops, oks)
    decreases |ops|
  {
    if |ops| > 0 {
      StepRefinesMap(c, s, ops[0]);
      RunRefinesMap(c, Step(c, s, ops[0]).0, ops[1..], oks[1..], s');
    }
  }

  lemma SizeIsBounded(s: State)
    requires Inv(s)
    ensures s.entryNum == |Abstraction(s)| <= 4 * s.im.capacity
  {
    ContentsSize(Items(s.im.t));
    SumBounded(Bags(s.im.t), |s.im.t|);
  }

  lemma InitialState(h: Hasher, capacity: nat)
    requires capacity > 0
    ensures Inv(State(CuckooSpec.EmptyImage(h, capacity), 0))
    ensures Abstraction(State(CuckooSpec.EmptyImage(h, capacity), 0)) == map[]
  {
    CuckooSpec.EmptyTableHoldsNothing(CuckooSpec.EmptyImage(h, capacity).t);
  }

  /**
    From initialisation, over every run that inserts only fresh keys, a query of any non-empty key
    answers what the finite map built by the same calls holds; the entry count is the map's size
    and never exceeds the number of slots.
   */
  lemma QueriesFollowTheMap(h: Hasher, capacity: nat, ops: seq<Op>, oks: seq<bool>, s: State, key: Key)
    requires capacity > 0 && |oks| == |ops| && key != []
    requires Runs(TableCalls(), State(CuckooSpec.EmptyImage(h, capacity), 0), ops, oks, s)
    requires FreshRun(map[], ops, oks)
    ensures CuckooSpec.Query(s.im, key) == CuckooSpec.Lookup(MapRun(map[], ops, oks), key)
    ensures s.entryNum == |MapRun(map[], ops, oks)| <= 4 * s.im.capacity
  {
    InitialState(h, capacity);
    TableCallsAreFaithful();
    RunRefinesMap(TableCalls(), State(CuckooSpec.EmptyImage(h, capacity), 0), ops, oks, s);
    CuckooSpec.QueryIsLookup(s.im, key);
    SizeIsBounded(s);
  }

  // ---------- Runs that may insert stored keys ----------

  /** What holds without any promise about the keys inserted. */
  ghost predicate Sound(s: State) {
    s.im.WellPlaced() && s.entryNum == |Items(s.im.t)|
  }

  predicate NonEmptyKey(op: Op) { op.Insert? ==> op.key != [] }

  lemma AnyStepKeepsSound(s: State, op: Op)
    requires Sound(s) && NonEmptyKey(op)
    ensures Sound(Step(TableCalls(), s, op).0) && Step(TableCalls(), s, op).0.im.h == s.im.h
    ensures op.Resize? ==> Step(TableCalls(), s, op).1
  {
    match op
    case Insert(key, value) => CuckooSpec.InsertAddsEntry(s.im, Entry(key, value));
    case Update(key, value) => CuckooSpec.UpdateKeepsShape(s.im, key, value);
    case Resize => CuckooSpec.ResizeNeverFails(s.im);
  }

  lemma {:induction false} AnyRunKeepsSound(s: State, ops: seq<Op>, oks: seq<bool>, s': State)
    requires Sound(s) && Runs(TableCalls(), s, ops, oks, s') && forall op | op in ops :: NonEmptyKey(op)
    ensures Sound(s') && s'.im.h == s.im.h
    decreases |ops|
  {
    if |ops| > 0 {
      AnyStepKeepsSound(s, ops[0]);
      AnyRunKeepsSound(Step(TableCalls(), s, ops[0]).0, ops[1..], oks[1..], s');
    }
  }

  /** Some stored entry has the key, and the value if one is given. */
  ghost predicate Stored(im: Image, key: Key, value: Option<Value>) {
    exists e | e in Items(im.t) :: e.key == key && (value.Some? ==> e.value == value.value)
  }

  /** A query succeeds exactly if some stored entry has the key, and answers with the value of one. */
  lemma QueryFindsStored(im: Image, key: Key)
    requires im.WellPlaced() && key != []
    ensures CuckooSpec.Query(im, key).Some? <==> Stored(im, key, None)
    ensures CuckooSpec.Query(im, key).Some? ==> Stored(im, key, CuckooSpec.Query(im, key))
  {
    CuckooSpec.LocateExact(im, key);
  }

  /**
    Over every run from initialisation, stored keys inserted again or not, the table is well placed,
    the count is the number of entries and at most the number of slots, and a query of a non-empty
    key succeeds exactly if some stored entry has the key.
   */
  lemma AnyRunIsSound(h: Hasher, capacity: nat, ops: seq<Op>, oks: seq<bool>, s: State, key: Key)
    requires capacity > 0 && key != [] && forall op | op in ops :: NonEmptyKey(op)
    requires Runs(TableCalls(), State(CuckooSpec.EmptyImage(h, capacity), 0), ops, oks, s)
    ensures s.im.WellPlaced() && s.entryNum == |Items(s.im.t)| <= 4 * s.im.capacity
    ensures CuckooSpec.Query(s.im, key).Some? <==> Stored(s.im, key, None)
    ensures CuckooSpec.Query(s.im, key).Some? ==> Stored(s.im, key, CuckooSpec.Query(s.im, key))
  {
    InitialState(h, capacity);
    AnyRunKeepsSound(State(CuckooSpec.EmptyImage(h, capacity), 0), ops, oks, s);
    SumBounded(Bags(s.im.t), |s.im.t|);
    QueryFindsStored(s.im, key);
  }

  // ---------- The table with its own hash function ----------

  /** `hash(key, strlen(key), seed)`. */
  function KeyHash(key: Key, seed: Bits.Word): Bits.Word {
    XxHash.Hash(key, seed)
  }

  /** The indexing `cuckoo_hash_init` sets up once its two seeds are drawn. */
  function FlatfsHasher(fSeed: Bits.Word, sSeed: Bits.Word): Hasher {
    Seeded((key: Key, seed: Bits.Word) => KeyHash(key, seed), fSeed, sSeed)
  }

  /** The whole-run theorem for the table over its own hash function, whatever the seeds. */
  lemma FlatfsTableFollowsTheMap(fSeed: Bits.Word, sSeed: Bits.Word, capacity: nat, ops: seq<Op>,
                                 oks: seq<bool>, s: State, key: Key)
    requires capacity > 0 && |oks| == |ops| && key != []
    requires Runs(TableCalls(), State(CuckooSpec.EmptyImage(FlatfsHasher(fSeed, sSeed), capacity), 0), ops, oks, s)
    requires FreshRun(map[], ops, oks)
    ensures CuckooSpec.Query(s.im, key) == CuckooSpec.Lookup(MapRun(map[], ops, oks), key)
  {
    QueriesFollowTheMap(FlatfsHasher(fSeed, sSeed), capacity, ops, oks, s, key);
  }

  /** F_HASH and S_HASH differ on every storable key as soon as the seeds differ. */
  lemma StorableKeysHashApart(key: Key, fSeed: Bits.Word, sSeed: Bits.Word)
    ensures KeyHash(key, fSeed) != KeyHash(key, sSeed) <==> fSeed != sSeed
  {
    XxHash.SeedsSeparateShortKeys(key, fSeed, sSeed);
  }

  /**
    Over every run of the table with its own hash function, every stored entry sits in the bucket
    of one of its two hash values modulo the capacity.
   */
  lemma FlatfsEntriesAtHome(fSeed: Bits.Word, sSeed: Bits.Word, capacity: nat, ops: seq<Op>, oks: seq<bool>,
                            s: State, p: Pos)
    requires capacity > 0 && forall op | op in ops :: NonEmptyKey(op)
    requires Runs(TableCalls(), State(CuckooSpec.EmptyImage(FlatfsHasher(fSeed, sSeed), capacity), 0), ops, oks, s)
    requires s.im.In(p) && !s.im.At(p).IsEmpty()
    ensures s.im.capacity > 0
    ensures var key := s.im.At(p).key;
            || p.bucket == XxHashReference.Xxh64(key, fSeed) % s.im.capacity
            || p.bucket == XxHashReference.Xxh64(key, sSeed) % s.im.capacity
  {
    var start := State(CuckooSpec.EmptyImage(FlatfsHasher(fSeed, sSeed), capacity), 0);
    InitialState(FlatfsHasher(fSeed, sSeed), capacity);
    AnyRunKeepsSound(start, ops, oks, s);
    FlatfsBuckets(fSeed, sSeed, s.im.At(p).key, s.im.capacity);
    assert s.im.AtHome(p);
  }

  lemma FlatfsBuckets(fSeed: Bits.Word, sSeed: Bits.Word, key: Key, c: nat)
    requires c > 0
    ensures FlatfsHasher(fSeed, sSeed).f(key, c) == XxHashReference.Xxh64(key, fSeed) % c
    ensures FlatfsHasher(fSeed, sSeed).s(key, c) == XxHashReference.Xxh64(key, sSeed) % c
  {
    XxHashReference.HashIsXxh64(key, fSeed);
    XxHashReference.HashIsXxh64(key, sSeed);
    SeededIsModCapacity((key: Key, seed: Bits.Word) => KeyHash(key, seed), fSeed, sSeed, key, c);
  }

  /** An insertion succeeds whenever one of those two buckets has an empty slot. */
  lemma FlatfsInsertSucceeds(fSeed: Bits.Word, sSeed: Bits.Word, capacity: nat, ops: seq<Op>, oks: seq<bool>, s: State,
                             key: Key, value: Value)
    requires capacity > 0 && key != [] && forall op | op in ops :: NonEmptyKey(op)
    requires Runs(TableCalls(), State(CuckooSpec.EmptyImage(FlatfsHasher(fSeed, sSeed), capacity), 0), ops, oks, s)
    requires s.im.capacity > 0
    requires || CuckooEviction.HasRoom(s.im, XxHashReference.Xxh64(key, fSeed) % s.im.capacity)
             || CuckooEviction.HasRoom(s.im, XxHashReference.Xxh64(key, sSeed) % s.im.capacity)
    ensures Step(TableCalls(), s, Insert(key, value)).1
  {
    var start := State(CuckooSpec.EmptyImage(FlatfsHasher(fSeed, sSeed), capacity), 0);
    InitialState(FlatfsHasher(fSeed, sSeed), capacity);
    AnyRunKeepsSound(start, ops, oks, s);
    FlatfsBuckets(fSeed, sSeed, key, s.im.capacity);
    CuckooEviction.InsertFailsWithoutEscape(s.im, Entry(key, value));
  }
}
