/**
  What each operation of the cuckoo table does to a table value, and what that means for the
  finite map it stands for. `CuckooHash` proves the in-place code equal to these functions.
 */
module CuckooSpec {
  import opened CuckooTable
  import opened CuckooPath
  import opened Orbit
  import Sweep
  import opened Wrappers

  // ---------- Writing one slot ----------

  function Put(im: Image, p: Pos, e: Entry): (r: Image)
    requires im.Sized() && im.In(p)
    ensures r.Sized() && r.h == im.h && r.capacity == im.capacity
  {
    im.(t := im.t[p.Index() := e])
  }

  lemma PutAt(im: Image, p: Pos, e: Entry, q: Pos)
    requires im.Sized() && im.In(p) && im.In(q)
    ensures Put(im, p, e).At(q) == if p == q then e else im.At(q)
  {
  }

  lemma PutKeepsPlacement(im: Image, p: Pos, e: Entry)
    requires im.WellPlaced() && im.In(p)
    requires e.IsEmpty() || p.bucket == im.h.f(e.key, im.capacity) || p.bucket == im.h.s(e.key, im.capacity)
    ensures Put(im, p, e).WellPlaced()
  {
    var r := Put(im, p, e);
    forall q: Pos | r.In(q) && !r.At(q).IsEmpty()
      ensures r.AtHome(q)
    {
      PutAt(im, p, e, q);
      assert p != q ==> im.AtHome(q);
    }
  }

  lemma PutItems(im: Image, p: Pos, e: Entry)
    requires im.Sized() && im.In(p)
    ensures Items(Put(im, p, e).t) + Bag(im.At(p)) == Items(im.t) + Bag(e)
  {
    ItemsUpdate(im.t, p.Index(), e);
  }

  // ---------- Running a path backwards ----------

  predicate Fits(path: seq<PathNode>, capacity: nat) {
    forall k | 0 <= k < |path| ::
      && path[k].pre.bucket < capacity && path[k].pre.slot < 4
      && path[k].next.bucket < capacity && path[k].next.slot < 4
  }

  lemma ChainFits(im: Image, path: seq<PathNode>)
    requires im.Chain(path)
    ensures Fits(path, im.capacity)
  {
    forall k | 0 <= k < |path|
      ensures im.In(path[k].pre) && im.In(path[k].next)
    {
      assert im.Move(path[k]);
    }
  }

  /** `execute_path` over path[..i], last move first. */
  function Execute(im: Image, path: seq<PathNode>, i: nat): (r: Image)
    requires im.Sized() && i <= |path|
    requires Fits(path, im.capacity)
    ensures r.Sized() && r.h == im.h && r.capacity == im.capacity
    decreases i
  {
    if i == 0 then im
    else Execute(Put(im, path[i - 1].next, im.At(path[i - 1].pre)), path, i - 1)
  }

  /** The slot whose entry has been copied on but not yet overwritten when i moves remain. */
  function Spot(path: seq<PathNode>, i: nat): Pos
    requires 0 < |path| && i <= |path|
  {
    if i == 0 then path[0].pre else path[i - 1].next
  }

  /** With i moves still to run, im holds everything the original did plus one copy, at the spot. */
  ghost predicate Midway(im: Image, orig: Image, path: seq<PathNode>, i: nat)
    requires 0 < |path| && i <= |path|
  {
    && im.WellPlaced() && im.h == orig.h && im.capacity == orig.capacity
    && (forall k | 0 <= k < i :: im.At(path[k].pre) == orig.At(path[k].pre))
    && im.At(Spot(path, i)) == orig.At(Spot(path, i))
    && Items(im.t) == Items(orig.t) + Bag(orig.At(Spot(path, i)))
  }

  lemma SpotsDiffer(orig: Image, path: seq<PathNode>, i: nat, k: nat)
    requires orig.Chain(path) && k < i <= |path|
    ensures Spot(path, i) != path[k].pre
    ensures Spot(path, i - 1) == path[i - 1].pre
  {
    assert orig.Move(path[k]);
    assert i < |path| ==> path[i - 1].next == path[i - 1 + 1].pre;
    assert i > 1 ==> path[i - 2].next == path[i - 2 + 1].pre;
  }

  lemma MidwayStep(im: Image, orig: Image, path: seq<PathNode>, i: nat)
    requires orig.Chain(path) && 0 < i <= |path| && Midway(im, orig, path, i)
    requires orig.Move(path[i - 1])
    ensures Midway(Put(im, path[i - 1].next, im.At(path[i - 1].pre)), orig, path, i - 1)
  {
    var p, e := path[i - 1].next, orig.At(path[i - 1].pre);
    var r := Put(im, p, e);
    PutKeepsPlacement(im, p, e);
    forall k | 0 <= k < i
      ensures r.At(path[k].pre) == orig.At(path[k].pre)
    {
      assert orig.Move(path[k]);
      SpotsDiffer(orig, path, i, k);
      PutAt(im, p, e, path[k].pre);
    }
    SpotsDiffer(orig, path, i, i - 1);
    PutItems(im, p, e);
    Cancel(Items(r.t), Items(orig.t), Bag(orig.At(p)), Bag(e));
  }

  lemma Cancel(a: multiset<Entry>, b: multiset<Entry>, x: multiset<Entry>, y: multiset<Entry>)
    requires a + x == b + x + y
    ensures a == b + y
  {
    assert a == a + x - x;
    assert b + y == b + x + y - x;
  }

  lemma {:induction false} ExecuteChain(im: Image, orig: Image, path: seq<PathNode>, i: nat)
    requires orig.Chain(path) && i <= |path| && Midway(im, orig, path, i)
    requires Fits(path, im.capacity)
    ensures Midway(Execute(im, path, i), orig, path, 0)
    decreases i
  {
    if i > 0 {
      MidwayStep(im, orig, path, i);
      ExecuteChain(Put(im, path[i - 1].next, im.At(path[i - 1].pre)), orig, path, i - 1);
    }
  }

  /** Running a chain and then writing e over its start adds e and moves everything else home. */
  lemma EvictAlongChain(im: Image, path: seq<PathNode>, e: Entry)
    requires im.WellPlaced() && im.Chain(path) && !e.IsEmpty()
    requires Fits(path, im.capacity)
    requires var b := path[0].pre.bucket; b == im.h.f(e.key, im.capacity) || b == im.h.s(e.key, im.capacity)
    ensures var r := Put(Execute(im, path, |path|), path[0].pre, e);
            r.WellPlaced() && Items(r.t) == Items(im.t) + multiset{e}
  {
    ExecuteChain(im, im, path, |path|);
    var r := Execute(im, path, |path|);
    PutKeepsPlacement(r, path[0].pre, e);
    PutItems(r, path[0].pre, e);
    Cancel(Items(Put(r, path[0].pre, e).t), Items(im.t), Bag(im.At(path[0].pre)), Bag(e));
  }

  // ---------- Insert ----------

  /** The first empty slot met when buckets a and b are probed alternately from slot i, if any. */
  function DirectSlot(im: Image, a: nat, b: nat, i: nat): Option<Pos>
    decreases 4 - i
  {
    if i >= 4 then None
    else if im.At(Pos(a, i)).IsEmpty() then Some(Pos(a, i))
    else if im.At(Pos(b, i)).IsEmpty() then Some(Pos(b, i))
    else DirectSlot(im, a, b, i + 1)
  }

  lemma {:induction false} DirectSlotIsEmpty(im: Image, a: nat, b: nat, i: nat)
    ensures match DirectSlot(im, a, b, i)
            case Some(p) => p.slot < 4 && (p.bucket == a || p.bucket == b) && im.At(p).IsEmpty()
            case None => forall s: nat | i <= s < 4 :: !im.At(Pos(a, s)).IsEmpty() && !im.At(Pos(b, s)).IsEmpty()
    decreases 4 - i
  {
    if i < 4 {
      DirectSlotIsEmpty(im, a, b, i + 1);
    }
  }

  /** The start and length of the eviction chosen for slot i: the shorter path, the second on a tie. */
  function Choice(find: Pos -> SearchResult, f: nat, s: nat, i: nat): Option<(Pos, nat)> {
    match (find(Pos(f, i)), find(Pos(s, i)))
    case (Found(m), Found(n)) => Some(if m < n then (Pos(f, i), m) else (Pos(s, i), n))
    case (Found(m), _) => Some((Pos(f, i), m))
    case (_, Found(n)) => Some((Pos(s, i), n))
    case _ => None
  }

  function FirstChoice(find: Pos -> SearchResult, f: nat, s: nat, i: nat): Option<(Pos, nat)>
    decreases 4 - i
  {
    if i >= 4 then None
    else if Choice(find, f, s, i).Some? then Choice(find, f, s, i)
    else FirstChoice(find, f, s, i + 1)
  }

  ghost predicate AllExhausted(find: Pos -> SearchResult, f: nat, s: nat, i: nat) {
    forall k: nat | i <= k < 4 :: find(Pos(f, k)).Exhausted? && find(Pos(s, k)).Exhausted?
  }

  lemma {:induction false} FirstChoiceIsPath(find: Pos -> SearchResult, f: nat, s: nat, i: nat)
    requires forall k: nat | i <= k < 4 :: !find(Pos(f, k)).Stuck? && !find(Pos(s, k)).Stuck?
    ensures match FirstChoice(find, f, s, i)
            case Some((p, n)) => && p.slot < 4 && (p.bucket == f || p.bucket == s) && find(p) == Found(n)
                                 && !AllExhausted(find, f, s, i)
            case None => AllExhausted(find, f, s, i)
    decreases 4 - i
  {
    if i < 4 {
      if Choice(find, f, s, i).None? {
        FirstChoiceIsPath(find, f, s, i + 1);
      }
    }
  }

  function Finder(im: Image): Pos -> SearchResult { (p: Pos) => im.FindPath(p) }

  lemma NotStuck(im: Image, p: Pos)
    requires im.WellPlaced() && im.In(p) && !im.At(p).IsEmpty()
    ensures !Finder(im)(p).Stuck?
  {
    im.FindPathExact(p, Stuck);
  }

  ghost predicate Full(im: Image, b: nat) {
    forall s: nat | s < 4 :: !im.At(Pos(b, s)).IsEmpty()
  }

  /** In full buckets the chosen eviction is a chain that starts where the new entry will go. */
  lemma ChoiceIsChain(im: Image, f: nat, s: nat)
    requires im.WellPlaced() && f < im.capacity && s < im.capacity && Full(im, f) && Full(im, s)
    ensures match FirstChoice(Finder(im), f, s, 0)
            case Some((p, n)) =>
              && im.In(p) && (p.bucket == f || p.bucket == s) && n > 0
              && im.Chain(im.Plan(p, n)) && Fits(im.Plan(p, n), im.capacity) && im.Plan(p, n)[0].pre == p
              && !AllExhausted(Finder(im), f, s, 0)
            case None => AllExhausted(Finder(im), f, s, 0)
  {
    forall k: nat | k < 4
      ensures !Finder(im)(Pos(f, k)).Stuck? && !Finder(im)(Pos(s, k)).Stuck?
    {
      NotStuck(im, Pos(f, k));
      NotStuck(im, Pos(s, k));
    }
    FirstChoiceIsPath(Finder(im), f, s, 0);
    match FirstChoice(Finder(im), f, s, 0)
    case None =>
    case Some((p, n)) =>
      im.FoundPathIsChain(p, n);
      ChainFits(im, im.Plan(p, n));
  }

  /** What a FAIL of `cuckoo_insert` means: both buckets are full and every search is exhausted. */
  ghost predicate NoWayIn(im: Image, key: Key) {
    var f, s := im.h.f(key, im.capacity), im.h.s(key, im.capacity);
    Full(im, f) && Full(im, s) && AllExhausted(Finder(im), f, s, 0)
  }

  /** The table after `cuckoo_insert`, or None for FAIL. */
  function Insert(im: Image, e: Entry): Option<Image>
    requires im.WellPlaced()
  {
    var f, s := im.h.f(e.key, im.capacity), im.h.s(e.key, im.capacity);
    DirectSlotIsEmpty(im, f, s, 0);
    match DirectSlot(im, f, s, 0)
    case Some(p) => Some(Put(im, p, e))
    case None =>
      ChoiceIsChain(im, f, s);
      match FirstChoice(Finder(im), f, s, 0)
      case None => None
      case Some((p, n)) => Some(Put(Execute(im, im.Plan(p, n), n), p, e))
  }

  /**
    Insertion into a well-placed table adds exactly the new entry and moves entries only between
    their own buckets.
   */
  lemma InsertAddsEntry(im: Image, e: Entry)
    requires im.WellPlaced() && !e.IsEmpty()
    ensures match Insert(im, e)
            case Some(r) => r.WellPlaced() && r.h == im.h && r.capacity == im.capacity
                            && Items(r.t) == Items(im.t) + multiset{e}
            case None => true
  {
    var f, s := im.h.f(e.key, im.capacity), im.h.s(e.key, im.capacity);
    DirectSlotIsEmpty(im, f, s, 0);
    match DirectSlot(im, f, s, 0)
    case Some(p) =>
      PutKeepsPlacement(im, p, e);
      PutItems(im, p, e);
    case None =>
      ChoiceIsChain(im, f, s);
      match FirstChoice(Finder(im), f, s, 0)
      case None =>
      case Some((p, n)) => EvictAlongChain(im, im.Plan(p, n), e);
  }

  /** An insertion keeps the keys unique exactly if the key was not stored: it never looks for it. */
  lemma InsertKeepsKeysUniqueExactly(im: Image, e: Entry)
    requires im.WellPlaced() && UniqueKeys(Items(im.t)) && !e.IsEmpty() && Insert(im, e).Some?
    ensures UniqueKeys(Items(Insert(im, e).value.t)) <==> e.key !in Contents(Items(im.t))
  {
    InsertAddsEntry(im, e);
    UniqueKeysAddExactly(Items(im.t), e);
  }

  /** Insertion fails exactly when both buckets are full and every search from them is exhausted. */
  lemma InsertFailsExactly(im: Image, e: Entry)
    requires im.WellPlaced()
    ensures Insert(im, e).None? <==> NoWayIn(im, e.key)
  {
    var f, s := im.h.f(e.key, im.capacity), im.h.s(e.key, im.capacity);
    DirectSlotIsEmpty(im, f, s, 0);
    match DirectSlot(im, f, s, 0)
    case Some(p) => assert p == Pos(p.bucket, p.slot);
    case None => ChoiceIsChain(im, f, s);
  }

  // ---------- Query and update ----------

  lemma EntryHasPos(im: Image, e: Entry)
    requires im.Sized()
    ensures e in Items(im.t) <==> !e.IsEmpty() && exists p: Pos | im.In(p) :: im.At(p) == e
  {
    ItemsMember(im.t, e);
    if exists i: nat | i < |im.t| :: im.t[i] == e {
      var i: nat :| i < |im.t| && im.t[i] == e;
      var p := Pos(i / 4, i % 4);
      assert im.In(p) && im.At(p) == e;
    }
    if exists p: Pos | im.In(p) :: im.At(p) == e {
      var p: Pos :| im.In(p) && im.At(p) == e;
      assert im.t[p.Index()] == e;
    }
  }

  /** Where the alternating probe of buckets a and b from slot i meets the key, if anywhere. */
  function Probe(im: Image, a: nat, b: nat, key: Key, i: nat): Option<Pos>
    decreases 4 - i
  {
    if i >= 4 then None
    else if im.At(Pos(a, i)).key == key then Some(Pos(a, i))
    else if im.At(Pos(b, i)).key == key then Some(Pos(b, i))
    else Probe(im, a, b, key, i + 1)
  }

  lemma {:induction false} ProbeExact(im: Image, a: nat, b: nat, key: Key, i: nat)
    ensures match Probe(im, a, b, key, i)
            case Some(p) => p.slot < 4 && (p.bucket == a || p.bucket == b) && im.At(p).key == key
            case None => forall s: nat | i <= s < 4 :: im.At(Pos(a, s)).key != key && im.At(Pos(b, s)).key != key
    decreases 4 - i
  {
    if i < 4 {
      ProbeExact(im, a, b, key, i + 1);
    }
  }

  function Locate(im: Image, key: Key): Option<Pos> {
    Probe(im, im.h.f(key, im.capacity), im.h.s(key, im.capacity), key, 0)
  }

  /** In a well-placed table a key is located exactly when some entry has it. */
  lemma LocateExact(im: Image, key: Key)
    requires im.WellPlaced() && key != []
    ensures match Locate(im, key)
            case Some(p) => im.In(p) && im.At(p).key == key && im.At(p) in Items(im.t)
            case None => forall e | e in Items(im.t) :: e.key != key
  {
    ProbeExact(im, im.h.f(key, im.capacity), im.h.s(key, im.capacity), key, 0);
    match Locate(im, key)
    case Some(p) => EntryHasPos(im, im.At(p));
    case None =>
      forall e | e in Items(im.t)
        ensures e.key != key
      {
        EntryHasPos(im, e);
        var p: Pos :| im.In(p) && im.At(p) == e;
        ProbeSeesHome(im, p, key);
      }
  }

  lemma ProbeSeesHome(im: Image, p: Pos, key: Key)
    requires im.WellPlaced() && im.In(p) && !im.At(p).IsEmpty() && Locate(im, key).None?
    ensures im.At(p).key != key
  {
    ProbeExact(im, im.h.f(key, im.capacity), im.h.s(key, im.capacity), key, 0);
    assert im.AtHome(p) && p == Pos(p.bucket, p.slot);
  }

  /** The value `cuckoo_query` copies out, or None for FAIL. */
  function Query(im: Image, key: Key): Option<Value> {
    match Locate(im, key)
    case Some(p) => Some(im.At(p).value)
    case None => None
  }

  /** The table after `cuckoo_update`, or None for FAIL. */
  function Update(im: Image, key: Key, value: Value): Option<Image>
    requires im.Sized()
  {
    ProbeExact(im, im.h.f(key, im.capacity), im.h.s(key, im.capacity), key, 0);
    match Locate(im, key)
    case Some(p) => Some(Put(im, p, Entry(im.At(p).key, value)))
    case None => None
  }

  function Lookup(m: map<Key, Value>, key: Key): Option<Value> {
    if key in m then Some(m[key]) else None
  }

  /** A query answers what the finite map would. */
  lemma QueryIsLookup(im: Image, key: Key)
    requires im.WellPlaced() && UniqueKeys(Items(im.t)) && key != []
    ensures Query(im, key) == Lookup(Contents(Items(im.t)), key)
  {
    LocateExact(im, key);
    match Locate(im, key)
    case Some(p) => ContentsOfEntry(Items(im.t), im.At(p));
    case None =>
      if key in Contents(Items(im.t)) {
        EntryOfContents(Items(im.t), key);
      }
  }

  /** Putting an entry over another of the same key keeps the table well placed and its size. */
  lemma PutSameKey(im: Image, p: Pos, e: Entry)
    requires im.WellPlaced() && im.In(p) && im.At(p).key == e.key
    ensures Put(im, p, e).WellPlaced() && |Items(Put(im, p, e).t)| == |Items(im.t)|
  {
    assert !e.IsEmpty() ==> im.AtHome(p);
    PutKeepsPlacement(im, p, e);
    PutItems(im, p, e);
    SameSize(Items(Put(im, p, e).t), Bag(im.At(p)), Items(im.t), Bag(e));
  }

  lemma SameSize(a: multiset<Entry>, x: multiset<Entry>, b: multiset<Entry>, y: multiset<Entry>)
    requires a + x == b + y && |x| == |y|
    ensures |a| == |b|
  {
    assert |a + x| == |b + y|;
  }

  /** Whatever the key, an update moves nothing and neither adds nor drops an entry. */
  lemma UpdateKeepsShape(im: Image, key: Key, value: Value)
    requires im.WellPlaced()
    ensures match Update(im, key, value)
            case Some(r) => r.WellPlaced() && r.h == im.h && r.capacity == im.capacity && |Items(r.t)| == |Items(im.t)|
            case None => true
  {
    LocateFindsKey(im, key);
    match Locate(im, key)
    case None =>
    case Some(p) => PutSameKey(im, p, Entry(key, value));
  }

  lemma LocateFindsKey(im: Image, key: Key)
    requires im.WellPlaced()
    ensures Locate(im, key).Some? ==> im.In(Locate(im, key).value) && im.At(Locate(im, key).value).key == key
  {
    ProbeExact(im, im.h.f(key, im.capacity), im.h.s(key, im.capacity), key, 0);
  }

  /** An update succeeds exactly on the keys of the map, and changes that key's value only. */
  lemma UpdateIsMapUpdate(im: Image, key: Key, value: Value)
    requires im.WellPlaced() && UniqueKeys(Items(im.t)) && key != []
    ensures Update(im, key, value).Some? <==> key in Contents(Items(im.t))
    ensures match Update(im, key, value)
            case Some(r) => && r.WellPlaced() && r.h == im.h && r.capacity == im.capacity
                            && |Items(r.t)| == |Items(im.t)| && UniqueKeys(Items(r.t))
                            && Contents(Items(r.t)) == Contents(Items(im.t))[key := value]
            case None => true
  {
    LocateExact(im, key);
    match Locate(im, key)
    case None =>
      if key in Contents(Items(im.t)) {
        EntryOfContents(Items(im.t), key);
      }
    case Some(p) =>
      var was, e := im.At(p), Entry(key, value);
      ContentsOfEntry(Items(im.t), was);
      assert im.AtHome(p);
      PutKeepsPlacement(im, p, e);
      PutItems(im, p, e);
      Exchange(Items(Put(im, p, e).t), Items(im.t), was, e);
      ContentsReplace(Items(im.t), was, e);
  }

  lemma Exchange(a: multiset<Entry>, b: multiset<Entry>, was: Entry, e: Entry)
    requires a + multiset{was} == b + multiset{e} && was in b
    ensures a == b - multiset{was} + multiset{e} && |a| == |b|
  {
    assert a == a + multiset{was} - multiset{was};
    assert b + multiset{e} - multiset{was} == b - multiset{was} + multiset{e};
    assert |a + multiset{was}| == |b + multiset{e}|;
  }

  // ---------- Resize ----------

  /** The two new buckets, possibly the same, that an entry of old bucket c is offered to. */
  function Offered(h: Hasher, key: Key, c: nat, oldCapacity: nat): Option<(nat, nat)> {
    var f, s := h.f(key, 2 * oldCapacity), h.s(key, 2 * oldCapacity);
    var fOff, sOff := h.f(key, oldCapacity), h.s(key, oldCapacity);
    if fOff == sOff then Some((f, s))
    else if fOff == c then Some((f, f))
    else if sOff == c then Some((s, s))
    else None
  }

  /** The first empty slot of the two buckets, filled; unchanged bounds make it total. */
  function Place(n: Image, e: Entry, a: nat, b: nat): Option<Image> {
    match DirectSlot(n, a, b, 0)
    case Some(p) => if p.Index() < |n.t| then Some(n.(t := n.t[p.Index() := e])) else None
    case None => None
  }

  /** Rehash one entry of old bucket c into the doubled table n; None is an error return. */
  function Rehash(n: Image, e: Entry, c: nat, oldCapacity: nat): (r: Option<Image>)
    ensures r.Some? ==> r.value.h == n.h && r.value.capacity == n.capacity && |r.value.t| == |n.t|
  {
    match Offered(n.h, e.key, c, oldCapacity)
    case Some((a, b)) => Place(n, e, a, b)
    case None => None
  }

  function EmptyImage(h: Hasher, capacity: nat): Image {
    Image(h, seq(4 * capacity, i => EMPTY), capacity)
  }

  /** The slots of bucket b in use. */
  ghost function TakenSlots(im: Image, b: nat): set<nat> {
    set s: nat | s < 4 && !im.At(Pos(b, s)).IsEmpty()
  }

  ghost function Used(im: Image, b: nat): nat { |TakenSlots(im, b)| }

  /** How many slots of the two new buckets that split old bucket b are in use. */
  ghost function UsedBySplit(n: Image, capacity: nat): nat -> nat {
    (b: nat) => Used(n, b) + Used(n, b + capacity)
  }

  /** Old bucket c has sent on at most the j entries met so far, and later buckets none. */
  ghost predicate Room(used: nat -> nat, capacity: nat, c: nat, j: nat) {
    && (c < capacity ==> used(c) <= j)
    && forall b: nat | c < b < capacity :: used(b) == 0
  }

  lemma PutUsed(n: Image, p: Pos, e: Entry, b: nat)
    requires n.Sized() && n.In(p) && b < n.capacity
    ensures Used(Put(n, p, e), b) <= Used(n, b) + (if b == p.bucket then 1 else 0)
  {
    var before, after := TakenSlots(n, b), TakenSlots(Put(n, p, e), b);
    var limit := if b == p.bucket then before + {p.slot} else before;
    forall s | s in after
      ensures s in limit
    {
      PutAt(n, p, e, Pos(b, s));
    }
    SubsetSize(after, limit);
  }

  lemma {:induction false} SubsetSize(a: set<nat>, b: set<nat>)
    requires a <= b
    ensures |a| <= |b|
  {
    if a != {} {
      var x :| x in a;
      SubsetSize(a - {x}, b - {x});
    }
  }

  lemma FullBucketUsed(n: Image, b: nat)
    requires forall s: nat | s < 4 :: !n.At(Pos(b, s)).IsEmpty()
    ensures Used(n, b) == 4
  {
    SlotsAre(TakenSlots(n, b));
  }

  lemma SlotsAre(slots: set<nat>)
    requires forall s: nat :: s in slots <==> s < 4
    ensures |slots| == 4
  {
    assert slots == {0, 1, 2, 3};
  }

  lemma PutUsedBySplit(n: Image, p: Pos, e: Entry, capacity: nat, c: nat, b: nat)
    requires n.Sized() && n.capacity == 2 * capacity && n.In(p) && b < capacity
    requires c < capacity && (p.bucket == c || p.bucket == c + capacity)
    ensures UsedBySplit(Put(n, p, e), capacity)(b) <= UsedBySplit(n, capacity)(b) + (if b == c then 1 else 0)
  {
    PutUsed(n, p, e, b);
    PutUsed(n, p, e, b + capacity);
  }

  lemma RoomAfterPut(n: Image, p: Pos, e: Entry, capacity: nat, c: nat, j: nat)
    requires n.Sized() && n.capacity == 2 * capacity && n.In(p) && n.At(p).IsEmpty()
    requires c < capacity && Room(UsedBySplit(n, capacity), capacity, c, j)
    requires p.bucket == c || p.bucket == c + capacity
    ensures Room(UsedBySplit(Put(n, p, e), capacity), capacity, c, j + 1)
  {
    var before, after := UsedBySplit(n, capacity), UsedBySplit(Put(n, p, e), capacity);
    forall b: nat | b < capacity
      ensures after(b) <= before(b) + (if b == c then 1 else 0)
    {
      PutUsedBySplit(n, p, e, capacity, c, b);
    }
    RoomGrows(before, after, capacity, c, j);
  }

  lemma RoomGrows(before: nat -> nat, after: nat -> nat, capacity: nat, c: nat, j: nat)
    requires Room(before, capacity, c, j)
    requires forall b: nat | b < capacity :: after(b) <= before(b) + (if b == c then 1 else 0)
    ensures Room(after, capacity, c, j + 1)
  {
  }

  lemma RoomWidens(used: nat -> nat, capacity: nat, c: nat, j: nat)
    requires Room(used, capacity, c, j)
    ensures Room(used, capacity, c, j + 1)
  {
  }

  lemma SumOneMore(bags: nat -> multiset<Entry>, n: nat)
    ensures Sum(bags, n + 1) == Sum(bags, n) + bags(n)
  {
  }

  lemma RoomNextBucket(used: nat -> nat, capacity: nat, c: nat)
    requires Room(used, capacity, c, 4)
    ensures Room(used, capacity, c + 1, 0)
  {
  }

  /** A bucket of a split that still has room offers an empty slot. */
  lemma SplitHasSlot(n: Image, capacity: nat, c: nat, j: nat, a: nat, b: nat)
    requires UsedBySplit(n, capacity)(c) <= j < 4 && (a == c || a == c + capacity)
    ensures DirectSlot(n, a, b, 0).Some?
  {
    assert Used(n, a) <= j;
    NotFullOffers(n, a, b);
  }

  lemma NotFullOffers(n: Image, a: nat, b: nat)
    requires Used(n, a) < 4
    ensures DirectSlot(n, a, b, 0).Some?
  {
    DirectSlotIsEmpty(n, a, b, 0);
    if DirectSlot(n, a, b, 0).None? {
      FullBucketUsed(n, a);
    }
  }

  lemma EmptyTableHoldsNothing(t: Table)
    requires forall i | 0 <= i < |t| :: t[i] == EMPTY
    ensures Items(t) == multiset{}
  {
    if exists e :: e in Items(t) {
      var e :| e in Items(t);
      ItemsMember(t, e);
    }
  }

  /** An entry of old bucket c is offered only the two new buckets that split c, both homes of its key. */
  lemma OfferedSplit(h: Hasher, key: Key, c: nat, capacity: nat)
    requires capacity > 0 && (c == h.f(key, capacity) || c == h.s(key, capacity))
    ensures match Offered(h, key, c, capacity)
            case Some((a, b)) =>
              && (a == c || a == c + capacity) && (b == c || b == c + capacity)
              && (a == h.f(key, 2 * capacity) || a == h.s(key, 2 * capacity))
              && (b == h.f(key, 2 * capacity) || b == h.s(key, 2 * capacity))
            case None => false
  {
    assert h.Splits(key, capacity);
  }

  /** An entry of old bucket c finds an empty slot in c or c + capacity of the new table. */
  lemma RehashSucceeds(n: Image, e: Entry, c: nat, capacity: nat, j: nat)
    requires n.WellPlaced() && n.capacity == 2 * capacity && !e.IsEmpty()
    requires c < capacity && j < 4 && Room(UsedBySplit(n, capacity), capacity, c, j)
    requires c == n.h.f(e.key, capacity) || c == n.h.s(e.key, capacity)
    ensures match Rehash(n, e, c, capacity)
            case Some(r) => && r.WellPlaced() && Items(r.t) == Items(n.t) + multiset{e}
                            && Room(UsedBySplit(r, capacity), capacity, c, j + 1)
            case None => false
  {
    OfferedSplit(n.h, e.key, c, capacity);
    var (a, b) := Offered(n.h, e.key, c, capacity).value;
    SplitHasSlot(n, capacity, c, j, a, b);
    DirectSlotIsEmpty(n, a, b, 0);
    var p := DirectSlot(n, a, b, 0).value;
    PutKeepsPlacement(n, p, e);
    PutItems(n, p, e);
    RoomAfterPut(n, p, e, capacity, c, j);
  }

  // ---------- The invariant of a resize ----------

  /**
    The entries of the first j slots of old bucket c, and of the buckets before it, have been sent
    on, and the new buckets still have room for the rest.
   */
  ghost predicate Progress(items: multiset<Entry>, used: nat -> nat, bags: nat -> multiset<Entry>,
                           capacity: nat, c: nat, j: nat) {
    items == Sum(bags, 4 * c + j) && Room(used, capacity, c, j)
  }

  lemma ProgressOnEmpty(items: multiset<Entry>, used: nat -> nat, bags: nat -> multiset<Entry>,
                        capacity: nat, c: nat, j: nat)
    requires Progress(items, used, bags, capacity, c, j) && bags(4 * c + j) == multiset{}
    ensures Progress(items, used, bags, capacity, c, j + 1)
  {
    SumOneMore(bags, 4 * c + j);
    RoomWidens(used, capacity, c, j);
  }

  lemma ProgressOnEntry(items: multiset<Entry>, used: nat -> nat, bags: nat -> multiset<Entry>,
                        capacity: nat, c: nat, j: nat, items': multiset<Entry>, used': nat -> nat)
    requires Progress(items, used, bags, capacity, c, j)
    requires items' == items + bags(4 * c + j) && Room(used', capacity, c, j + 1)
    ensures Progress(items', used', bags, capacity, c, j + 1)
  {
    SumOneMore(bags, 4 * c + j);
  }

  lemma ProgressNextBucket(items: multiset<Entry>, used: nat -> nat, bags: nat -> multiset<Entry>,
                           capacity: nat, c: nat)
    requires Progress(items, used, bags, capacity, c, 4)
    ensures Progress(items, used, bags, capacity, c + 1, 0)
  {
    RoomNextBucket(used, capacity, c);
    assert 4 * c + 4 == 4 * (c + 1) + 0;
  }

  /** n is a table of twice the capacity of im. */
  ghost predicate Doubled(im: Image, n: Image) {
    n.WellPlaced() && n.h == im.h && n.capacity == 2 * im.capacity
  }

  /** n is a sound rehash of im up to slot j of bucket c. */
  ghost predicate Rehashed(im: Image, n: Image, c: nat, j: nat) {
    Doubled(im, n) && Progress(Items(n.t), UsedBySplit(n, im.capacity), Bags(im.t), im.capacity, c, j)
  }

  lemma EmptyBucket(h: Hasher, capacity: nat, b: nat)
    ensures Used(EmptyImage(h, capacity), b) == 0
  {
    assert TakenSlots(EmptyImage(h, capacity), b) == {};
  }

  lemma EmptyImageIsReady(im: Image)
    requires im.Sized()
    ensures Rehashed(im, EmptyImage(im.h, 2 * im.capacity), 0, 0)
  {
    var n := EmptyImage(im.h, 2 * im.capacity);
    EmptyTableHoldsNothing(n.t);
    assert n.WellPlaced() by {
      assert forall p: Pos :: n.At(p).IsEmpty();
    }
    forall b: nat
      ensures UsedBySplit(n, im.capacity)(b) == 0
    {
      EmptyBucket(im.h, 2 * im.capacity, b);
      EmptyBucket(im.h, 2 * im.capacity, b + im.capacity);
    }
  }

  lemma BagAt(im: Image, c: nat, j: nat)
    requires im.Sized() && c < im.capacity && j < 4
    ensures Bags(im.t)(4 * c + j) == Bag(im.At(Pos(c, j)))
  {
  }

  lemma RehashedEmptySlot(im: Image, n: Image, c: nat, j: nat)
    requires im.Sized() && c < im.capacity && j < 4 && Rehashed(im, n, c, j)
    requires im.At(Pos(c, j)).IsEmpty()
    ensures Rehashed(im, n, c, j + 1)
  {
    BagAt(im, c, j);
    ProgressOnEmpty(Items(n.t), UsedBySplit(n, im.capacity), Bags(im.t), im.capacity, c, j);
  }

  lemma RehashedEntry(im: Image, n: Image, c: nat, j: nat)
    requires im.WellPlaced() && c < im.capacity && j < 4 && Rehashed(im, n, c, j)
    requires !im.At(Pos(c, j)).IsEmpty()
    ensures var r := Rehash(n, im.At(Pos(c, j)), c, im.capacity); r.Some? && Rehashed(im, r.value, c, j + 1)
  {
    var e := im.At(Pos(c, j));
    BagAt(im, c, j);
    assert im.AtHome(Pos(c, j));
    RehashSucceeds(n, e, c, im.capacity, j);
    var r := Rehash(n, e, c, im.capacity).value;
    ProgressOnEntry(Items(n.t), UsedBySplit(n, im.capacity), Bags(im.t), im.capacity, c, j,
                    Items(r.t), UsedBySplit(r, im.capacity));
  }

  lemma RehashedNextBucket(im: Image, n: Image, c: nat)
    requires Rehashed(im, n, c, 4)
    ensures Rehashed(im, n, c + 1, 0)
  {
    ProgressNextBucket(Items(n.t), UsedBySplit(n, im.capacity), Bags(im.t), im.capacity, c);
  }

  function RehashSlot(im: Image, n: Image, c: nat, j: nat): Option<Image> {
    if im.At(Pos(c, j)).IsEmpty() then Some(n) else Rehash(n, im.At(Pos(c, j)), c, im.capacity)
  }

  function Rehasher(im: Image): (Image, nat, nat) -> Option<Image> {
    (n: Image, c: nat, j: nat) => RehashSlot(im, n, c, j)
  }

  /** The table after `cuckoo_resize`, or None for one of its error returns. */
  function Resize(im: Image): Option<Image> {
    Sweep.Run(Rehasher(im), EmptyImage(im.h, 2 * im.capacity), im.capacity, 0)
  }

  /** `Rehashed` as a value, which `Sweep` carries along without looking inside. */
  ghost function Soundness(im: Image): (Image, nat, nat) -> bool {
    (n: Image, c: nat, j: nat) => Rehashed(im, n, c, j)
  }

  lemma RehashedSlot(im: Image, n: Image, c: nat, j: nat)
    requires im.WellPlaced() && c < im.capacity && j < 4 && Rehashed(im, n, c, j)
    ensures RehashSlot(im, n, c, j).Some? && Rehashed(im, RehashSlot(im, n, c, j).value, c, j + 1)
  {
    if im.At(Pos(c, j)).IsEmpty() {
      RehashedEmptySlot(im, n, c, j);
    } else {
      RehashedEntry(im, n, c, j);
    }
  }

  lemma CellKeepsSound(im: Image, n: Image, c: nat, j: nat)
    requires im.WellPlaced() && c < im.capacity && j < 4 && Soundness(im)(n, c, j)
    ensures Rehasher(im)(n, c, j).Some? && Soundness(im)(Rehasher(im)(n, c, j).value, c, j + 1)
  {
    RehashedSlot(im, n, c, j);
  }

  lemma RowKeepsSound(im: Image, n: Image, c: nat)
    requires Soundness(im)(n, c, 4)
    ensures Soundness(im)(n, c + 1, 0)
  {
    RehashedNextBucket(im, n, c);
  }

  lemma SoundAtStart(im: Image)
    requires im.WellPlaced()
    ensures Soundness(im)(EmptyImage(im.h, 2 * im.capacity), 0, 0)
  {
    EmptyImageIsReady(im);
  }

  lemma SoundAtEnd(im: Image, r: Image)
    requires im.Sized() && Soundness(im)(r, im.capacity, 0)
    ensures Doubled(im, r) && Items(r.t) == Items(im.t)
  {
    assert 4 * im.capacity + 0 == |im.t|;
  }

  /** The cells of a resize and an invariant they keep, from the empty table to one with the same entries. */
  lemma ResizeInvariant(im: Image) returns (step: (Image, nat, nat) -> Option<Image>, inv: (Image, nat, nat) -> bool)
    requires im.WellPlaced()
    ensures step == Rehasher(im)
    ensures Sweep.CellsKeep(step, inv, im.capacity) && Sweep.RowsKeep(inv, im.capacity)
    ensures inv(EmptyImage(im.h, 2 * im.capacity), 0, 0)
    ensures forall r | inv(r, im.capacity, 0) :: Doubled(im, r) && Items(r.t) == Items(im.t)
  {
    step, inv := Rehasher(im), Soundness(im);
    forall n, c: nat, j: nat | c < im.capacity && j < 4 && inv(n, c, j)
      ensures Sweep.CellKeeps(step, inv, n, c, j)
    {
      CellKeepsSound(im, n, c, j);
    }
    forall n, c: nat | c < im.capacity && inv(n, c, 4)
      ensures Sweep.RowKeeps(inv, n, c)
    {
      RowKeepsSound(im, n, c);
    }
    SoundAtStart(im);
    forall r | inv(r, im.capacity, 0)
      ensures Doubled(im, r) && Items(r.t) == Items(im.t)
    {
      SoundAtEnd(im, r);
    }
  }

  /** Resizing never runs out of room: it keeps every entry, well placed for the doubled capacity. */
  lemma ResizeNeverFails(im: Image)
    requires im.WellPlaced()
    ensures match Resize(im)
            case Some(r) => && r.WellPlaced() && r.h == im.h && r.capacity == 2 * im.capacity
                            && Items(r.t) == Items(im.t)
            case None => false
  {
    var step, inv := ResizeInvariant(im);
    Sweep.RunKeeps(step, EmptyImage(im.h, 2 * im.capacity), inv, im.capacity, im.capacity, 0);
  }
}
