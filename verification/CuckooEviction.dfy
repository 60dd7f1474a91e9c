/**
  What `cuckoo_insert` and `cuckoo_resize` do slot by slot, told without the search and the plan of
  `CuckooPath`: the trail a displaced key starts, where it first meets an empty slot, which trail is
  followed, what every position holds afterwards, and where a resize sends an entry.
 */
module CuckooEviction {
  import opened CuckooTable
  import opened CuckooPath
  import opened CuckooSpec
  import opened Orbit
  import Sweep
  import opened Wrappers

  // ---------- Trails ----------

  predicate Occupied(im: Image, p: Pos) { im.At(p).key != [] }

  /** Some slot of a bucket is empty. */
  ghost predicate HasRoom(im: Image, bucket: nat) {
    exists slot: nat | slot < 4 :: !Occupied(im, Pos(bucket, slot))
  }

  /** The other bucket of the key at p. */
  function OtherBucket(im: Image, p: Pos): nat {
    var key := im.At(p).key;
    if im.h.f(key, im.capacity) != p.bucket then im.h.f(key, im.capacity) else im.h.s(key, im.capacity)
  }

  /** Where the n-th displacement from p happens: each goes to the last slot of the other bucket. */
  function Trail(im: Image, p: Pos, n: nat): Pos {
    if n == 0 then p else Pos(OtherBucket(im, Trail(im, p, n - 1)), 3)
  }

  /** The bucket the k-th displacement goes to has an empty slot. */
  ghost predicate EscapesAt(im: Image, p: Pos, k: nat) {
    HasRoom(im, OtherBucket(im, Trail(im, p, k)))
  }

  /** The trail from p first meets a bucket with an empty slot at its n-th move, of at most 16. */
  ghost predicate Escapes(im: Image, p: Pos, n: nat) {
    1 <= n <= 16 && EscapesAt(im, p, n - 1) && forall k: nat | k < n - 1 :: !EscapesAt(im, p, k)
  }

  lemma AlternateIs(im: Image, p: Pos)
    requires im.AtHome(p)
    ensures im.Alternate(p) == OtherBucket(im, p)
  {
  }

  lemma OffersRoom(im: Image, p: Pos)
    requires im.AtHome(p)
    ensures im.Offers()(p) <==> HasRoom(im, OtherBucket(im, p))
  {
    var b := im.Alternate(p);
    if im.Offers()(p) {
      assert !Occupied(im, Pos(b, im.FirstEmpty(b)));
    }
    if HasRoom(im, b) {
      var slot: nat :| slot < 4 && !Occupied(im, Pos(b, slot));
    }
  }

  /** While no bucket with an empty slot has been met, the search walks the trail. */
  lemma {:induction false} WalkIsTrail(im: Image, p: Pos, n: nat)
    requires im.WellPlaced() && im.In(p) && Occupied(im, p)
    requires NoHit(im.Next(), im.Offers(), p, n)
    ensures Iterate(im.Next(), p, n) == Trail(im, p, n)
    ensures im.In(Trail(im, p, n)) && Occupied(im, Trail(im, p, n)) && im.AtHome(Trail(im, p, n))
    decreases n
  {
    if n > 0 {
      WalkIsTrail(im, p, n - 1);
      var q := Trail(im, p, n - 1);
      AlternateIs(im, q);
      assert !im.Offers()(Iterate(im.Next(), p, n - 1));
      im.StepIntoFullBucket(q);
    }
  }

  ghost function Escape(im: Image, p: Pos): nat -> bool {
    (k: nat) => EscapesAt(im, p, k)
  }

  lemma EscapeTells(im: Image, p: Pos)
    requires im.WellPlaced() && im.In(p) && Occupied(im, p)
    ensures Tells(im.Next(), im.Offers(), p, Escape(im, p), 16)
  {
    forall k: nat | k < 16 && NoHit(im.Next(), im.Offers(), p, k)
      ensures im.Offers()(Iterate(im.Next(), p, k)) <==> Escape(im, p)(k)
    {
      WalkIsTrail(im, p, k);
      OffersRoom(im, Trail(im, p, k));
    }
  }

  lemma FindPathTold(im: Image, p: Pos, n: nat)
    requires im.WellPlaced() && im.In(p) && Occupied(im, p)
    ensures var r := Escape(im, p);
            im.FindPath(p) == Found(n) <==> 1 <= n <= 16 && r(n - 1) && NoneBelow(r, n - 1)
  {
    im.FindPathExact(p, Found(n));
    EscapeTells(im, p);
    FirstHitTold(im.Next(), im.Offers(), p, Escape(im, p), 16, n);
    assert MAX_EVICTION == 16;
    assert im.FindPath(p) == Found(n) <==> FirstHit(im.Next(), im.Offers(), p, 16, Found(n));
  }

  lemma ExhaustedTold(im: Image, p: Pos)
    requires im.WellPlaced() && im.In(p) && Occupied(im, p)
    ensures im.FindPath(p) == Exhausted <==> NoneBelow(Escape(im, p), 16)
  {
    im.FindPathExact(p, Exhausted);
    EscapeTells(im, p);
    FirstHitTold(im.Next(), im.Offers(), p, Escape(im, p), 16, 0);
    assert MAX_EVICTION == 16;
    assert im.FindPath(p) == Exhausted <==> FirstHit(im.Next(), im.Offers(), p, 16, Exhausted);
  }

  lemma EscapesIs(im: Image, p: Pos, n: nat)
    ensures var r := Escape(im, p);
            Escapes(im, p, n) <==> 1 <= n <= 16 && r(n - 1) && NoneBelow(r, n - 1)
  {
    assert forall k: nat :: Escape(im, p)(k) <==> EscapesAt(im, p, k);
  }

  /** No key displaced from p finds an empty slot within 16 moves. */
  ghost predicate NeverEscapes(im: Image, p: Pos) {
    forall k: nat | k < 16 :: !EscapesAt(im, p, k)
  }

  lemma NeverEscapesIs(im: Image, p: Pos)
    ensures NeverEscapes(im, p) <==> NoneBelow(Escape(im, p), 16)
  {
    assert forall k: nat :: Escape(im, p)(k) <==> EscapesAt(im, p, k);
  }

  /**
    `find_path` finds a path of n moves exactly if the trail escapes at its n-th move, and is
    exhausted exactly if the trail does not escape.
   */
  lemma FindPathEscapes(im: Image, p: Pos, n: nat)
    requires im.WellPlaced() && im.In(p) && Occupied(im, p)
    ensures im.FindPath(p) == Found(n) <==> Escapes(im, p, n)
    ensures im.FindPath(p) == Exhausted <==> NeverEscapes(im, p)
  {
    FindPathTold(im, p, n);
    ExhaustedTold(im, p);
    EscapesIs(im, p, n);
    NeverEscapesIs(im, p);
  }

  // ---------- Which trail is followed ----------

  lemma {:induction false} FirstChoiceTold(find: Pos -> SearchResult, f: nat, s: nat, i: nat)
    ensures match FirstChoice(find, f, s, i)
            case Some((p, n)) =>
              && i <= p.slot < 4 && find(p) == Found(n)
              && (forall k: nat | i <= k < p.slot :: !find(Pos(f, k)).Found? && !find(Pos(s, k)).Found?)
              && ((p == Pos(s, p.slot) && forall m: nat | find(Pos(f, p.slot)) == Found(m) :: n <= m)
                  || (p == Pos(f, p.slot) && forall m: nat | find(Pos(s, p.slot)) == Found(m) :: n < m))
            case None => true
    decreases 4 - i
  {
    if i < 4 && Choice(find, f, s, i).None? {
      FirstChoiceTold(find, f, s, i + 1);
    }
  }

  /**
    The trail followed when both buckets f and s are full: it starts in the first slot from which
    some trail escapes, in bucket f if that one is strictly shorter and else in bucket s.
   */
  ghost predicate Followed(im: Image, f: nat, s: nat, p: Pos, n: nat) {
    && p.slot < 4 && Escapes(im, p, n)
    && (forall k: nat | k < p.slot :: NeverEscapes(im, Pos(f, k)) && NeverEscapes(im, Pos(s, k)))
    && ((p.bucket == s && forall m: nat | Escapes(im, Pos(f, p.slot), m) :: n <= m)
        || (p.bucket == f && forall m: nat | Escapes(im, Pos(s, p.slot), m) :: n < m))
  }

  /** A slot of a full bucket of a well-placed table: what the search finds there. */
  lemma SlotEscapes(im: Image, b: nat, i: nat, n: nat)
    requires im.WellPlaced() && b < im.capacity && !HasRoom(im, b) && i < 4
    ensures Finder(im)(Pos(b, i)) == Found(n) <==> Escapes(im, Pos(b, i), n)
    ensures !Finder(im)(Pos(b, i)).Found? <==> NeverEscapes(im, Pos(b, i))
  {
    assert Occupied(im, Pos(b, i));
    FindPathEscapes(im, Pos(b, i), n);
    NotStuck(im, Pos(b, i));
  }

  /** What the search finds from the slots of full buckets, in terms of trails. */
  ghost predicate FindsTrails(im: Image, b: nat) {
    forall i: nat, n: nat {:trigger Escapes(im, Pos(b, i), n)} | i < 4 ::
      Finder(im)(Pos(b, i)) == Found(n) <==> Escapes(im, Pos(b, i), n)
  }

  ghost predicate MissesTrails(im: Image, b: nat) {
    forall i: nat | i < 4 :: !Finder(im)(Pos(b, i)).Found? <==> NeverEscapes(im, Pos(b, i))
  }

  lemma FullBucketTrails(im: Image, b: nat)
    requires im.WellPlaced() && b < im.capacity && !HasRoom(im, b)
    ensures FindsTrails(im, b) && MissesTrails(im, b)
  {
    forall i: nat, n: nat {:trigger Escapes(im, Pos(b, i), n)} | i < 4
      ensures Finder(im)(Pos(b, i)) == Found(n) <==> Escapes(im, Pos(b, i), n)
    {
      SlotEscapes(im, b, i, n);
    }
    forall i: nat | i < 4 ensures !Finder(im)(Pos(b, i)).Found? <==> NeverEscapes(im, Pos(b, i)) {
      SlotEscapes(im, b, i, 0);
    }
  }

  lemma ChoiceIsFollowed(im: Image, f: nat, s: nat)
    requires im.WellPlaced() && f < im.capacity && s < im.capacity && !HasRoom(im, f) && !HasRoom(im, s)
    ensures match FirstChoice(Finder(im), f, s, 0)
            case Some((p, n)) => (p.bucket == f || p.bucket == s) && Followed(im, f, s, p, n)
            case None => forall i: nat | i < 4 :: NeverEscapes(im, Pos(f, i)) && NeverEscapes(im, Pos(s, i))
  {
    FullBucketTrails(im, f);
    FullBucketTrails(im, s);
    ToldIsFollowed(im, Finder(im), f, s);
  }

  lemma ToldIsFollowed(im: Image, find: Pos -> SearchResult, f: nat, s: nat)
    requires forall i: nat, n: nat {:trigger Escapes(im, Pos(f, i), n)} | i < 4 ::
               find(Pos(f, i)) == Found(n) <==> Escapes(im, Pos(f, i), n)
    requires forall i: nat, n: nat {:trigger Escapes(im, Pos(s, i), n)} | i < 4 ::
               find(Pos(s, i)) == Found(n) <==> Escapes(im, Pos(s, i), n)
    requires forall i: nat | i < 4 :: !find(Pos(f, i)).Found? <==> NeverEscapes(im, Pos(f, i))
    requires forall i: nat | i < 4 :: !find(Pos(s, i)).Found? <==> NeverEscapes(im, Pos(s, i))
    ensures match FirstChoice(find, f, s, 0)
            case Some((p, n)) => (p.bucket == f || p.bucket == s) && Followed(im, f, s, p, n)
            case None => forall i: nat | i < 4 :: NeverEscapes(im, Pos(f, i)) && NeverEscapes(im, Pos(s, i))
  {
    FirstChoiceTold(find, f, s, 0);
    match FirstChoice(find, f, s, 0)
    case Some((p, n)) => assert p == Pos(p.bucket, p.slot);
    case None => NoChoice(find, f, s, 0);
  }

  lemma {:induction false} NoChoice(find: Pos -> SearchResult, f: nat, s: nat, i: nat)
    requires FirstChoice(find, f, s, i).None?
    ensures forall k: nat | i <= k < 4 :: !find(Pos(f, k)).Found? && !find(Pos(s, k)).Found?
    decreases 4 - i
  {
    if i < 4 {
      NoChoice(find, f, s, i + 1);
    }
  }

  /** An insertion fails exactly if both buckets are full and no trail from their slots escapes. */
  lemma InsertFailsWithoutEscape(im: Image, e: Entry)
    requires im.WellPlaced()
    ensures var f, s := im.h.f(e.key, im.capacity), im.h.s(e.key, im.capacity);
            Insert(im, e).None? <==>
              && !HasRoom(im, f) && !HasRoom(im, s)
              && forall i: nat | i < 4 :: NeverEscapes(im, Pos(f, i)) && NeverEscapes(im, Pos(s, i))
  {
    var f, s := im.h.f(e.key, im.capacity), im.h.s(e.key, im.capacity);
    DirectSlotIsEmpty(im, f, s, 0);
    if !HasRoom(im, f) && !HasRoom(im, s) {
      NoDirectSlot(im, f, s);
      ChoiceIsChain(im, f, s);
      ChoiceIsFollowed(im, f, s);
      FollowedEscapes(im, f, s);
    } else {
      RoomIsDirect(im, f, s);
    }
  }

  lemma NoDirectSlot(im: Image, f: nat, s: nat)
    requires !HasRoom(im, f) && !HasRoom(im, s)
    ensures DirectSlot(im, f, s, 0).None? && Full(im, f) && Full(im, s)
  {
    DirectSlotIsEmpty(im, f, s, 0);
    forall i: nat | i < 4 ensures Occupied(im, Pos(f, i)) && Occupied(im, Pos(s, i)) {
    }
  }

  lemma RoomIsDirect(im: Image, f: nat, s: nat)
    requires HasRoom(im, f) || HasRoom(im, s)
    ensures DirectSlot(im, f, s, 0).Some?
  {
    DirectSlotIsEmpty(im, f, s, 0);
  }

  lemma FollowedEscapes(im: Image, f: nat, s: nat)
    ensures forall p: Pos, n: nat | Followed(im, f, s, p, n) :: !NeverEscapes(im, p)
  {
    forall p: Pos, n: nat | Followed(im, f, s, p, n) ensures !NeverEscapes(im, p) {
      assert EscapesAt(im, p, n - 1);
    }
  }

  // ---------- What every position holds afterwards ----------

  /** No move writes over the source of an earlier one, or where another one lands. */
  ghost predicate RunsBackwards(path: seq<PathNode>) {
    && (forall k, m {:trigger path[k].pre, path[m].next} | 0 <= k <= m < |path| :: path[m].next != path[k].pre)
    && (forall k, m {:trigger path[k].next, path[m].next} | 0 <= k < m < |path| :: path[m].next != path[k].next)
  }

  lemma ChainRunsBackwards(im: Image, path: seq<PathNode>)
    requires im.Chain(path)
    ensures RunsBackwards(path)
  {
    forall k, m {:trigger path[k].pre, path[m].next} | 0 <= k <= m < |path| ensures path[m].next != path[k].pre {
      SpotsDiffer(im, path, m + 1, k);
    }
    forall k, m {:trigger path[k].next, path[m].next} | 0 <= k < m < |path| ensures path[m].next != path[k].next {
      SpotsDiffer(im, path, m + 1, k + 1);
      assert path[k].next == path[k + 1].pre;
    }
  }

  lemma {:induction false} ExecuteKeeps(im: Image, path: seq<PathNode>, i: nat, q: Pos)
    requires im.Sized() && i <= |path| && Fits(path, im.capacity) && im.In(q)
    requires forall k | 0 <= k < i :: path[k].next != q
    ensures Execute(im, path, i).At(q) == im.At(q)
    decreases i
  {
    if i > 0 {
      var m := path[i - 1];
      PutAt(im, m.next, im.At(m.pre), q);
      ExecuteKeeps(Put(im, m.next, im.At(m.pre)), path, i - 1, q);
    }
  }

  lemma {:induction false} ExecuteMoves(im: Image, path: seq<PathNode>, i: nat, k: nat)
    requires im.Sized() && k < i <= |path| && Fits(path, im.capacity) && RunsBackwards(path)
    ensures Execute(im, path, i).At(path[k].next) == im.At(path[k].pre)
    decreases i
  {
    var m := path[i - 1];
    var r := Put(im, m.next, im.At(m.pre));
    if k == i - 1 {
      PutAt(im, m.next, im.At(m.pre), m.next);
      ExecuteKeeps(r, path, i - 1, m.next);
    } else {
      PutAt(im, m.next, im.At(m.pre), path[k].pre);
      ExecuteMoves(r, path, i - 1, k);
    }
  }

  /** The first empty slot of a bucket. */
  ghost predicate FirstFree(im: Image, q: Pos) {
    q.slot < 4 && !Occupied(im, q) && forall i: nat | i < q.slot :: Occupied(im, Pos(q.bucket, i))
  }

  /**
    The table after e has been put at p and the keys along the trail have moved on, the last of
    them to the first empty slot of the bucket in which the trail escapes.
   */
  ghost predicate Displaced(im: Image, r: Image, e: Entry, p: Pos, n: nat, last: Pos) {
    && n > 0 && last.bucket == OtherBucket(im, Trail(im, p, n - 1)) && FirstFree(im, last)
    && r.At(p) == e
    && (forall k: nat {:trigger Trail(im, p, k)} | k < n - 1 :: r.At(Trail(im, p, k + 1)) == im.At(Trail(im, p, k)))
    && r.At(last) == im.At(Trail(im, p, n - 1))
    && (forall q: Pos | im.In(q) && q != last && !OnTrail(im, p, n, q) :: r.At(q) == im.At(q))
  }

  ghost predicate OnTrail(im: Image, p: Pos, n: nat, q: Pos) {
    exists k: nat | k < n :: Trail(im, p, k) == q
  }

  /** The move planned for a position. */
  lemma MoveGoesToOtherBucket(im: Image, q: Pos)
    requires im.AtHome(q)
    ensures im.MoveFrom(q).pre == q
    ensures !im.Offers()(q) ==> im.MoveFrom(q).next == Pos(OtherBucket(im, q), 3)
    ensures im.Offers()(q) ==>
              im.MoveFrom(q).next.bucket == OtherBucket(im, q) && FirstFree(im, im.MoveFrom(q).next)
  {
    AlternateIs(im, q);
  }

  lemma FoundMeans(im: Image, p: Pos, n: nat, k: nat)
    requires im.WellPlaced() && im.In(p) && Occupied(im, p) && im.FindPath(p) == Found(n) && k < n
    ensures NoHit(im.Next(), im.Offers(), p, k)
    ensures im.Offers()(Iterate(im.Next(), p, k)) <==> k == n - 1
  {
    im.FindPathExact(p, Found(n));
  }

  /** The planned moves follow the trail, and the last one goes to the first empty slot. */
  lemma PlanFollowsTrail(im: Image, p: Pos, n: nat, k: nat)
    requires im.WellPlaced() && im.In(p) && Occupied(im, p) && im.FindPath(p) == Found(n) && k < n
    ensures im.Plan(p, n)[k].pre == Trail(im, p, k)
    ensures k < n - 1 ==> im.Plan(p, n)[k].next == Trail(im, p, k + 1)
    ensures k == n - 1 ==>
              var q := im.Plan(p, n)[k].next;
              q.bucket == OtherBucket(im, Trail(im, p, k)) && FirstFree(im, q)
  {
    FoundMeans(im, p, n, k);
    WalkIsTrail(im, p, k);
    MoveGoesToOtherBucket(im, Trail(im, p, k));
  }

  /** The table after an insertion into two full buckets. */
  lemma InsertDisplaces(im: Image, e: Entry) returns (p: Pos, n: nat, last: Pos)
    requires im.WellPlaced() && Insert(im, e).Some?
    requires !HasRoom(im, im.h.f(e.key, im.capacity)) && !HasRoom(im, im.h.s(e.key, im.capacity))
    ensures Followed(im, im.h.f(e.key, im.capacity), im.h.s(e.key, im.capacity), p, n)
    ensures Displaced(im, Insert(im, e).value, e, p, n, last)
  {
    var f, s := im.h.f(e.key, im.capacity), im.h.s(e.key, im.capacity);
    NoDirectSlot(im, f, s);
    ChoiceIsChain(im, f, s);
    ChoiceIsFollowed(im, f, s);
    var (p0, n0) := FirstChoice(Finder(im), f, s, 0).value;
    p, n := p0, n0;
    assert Occupied(im, Pos(p.bucket, p.slot));
    FindPathEscapes(im, p, n);
    last := im.Plan(p, n)[n - 1].next;
    PlanDisplaces(im, e, p, n);
  }

  lemma PlanDisplaces(im: Image, e: Entry, p: Pos, n: nat)
    requires im.WellPlaced() && im.In(p) && Occupied(im, p) && im.FindPath(p) == Found(n)
    requires n > 0 && im.Chain(im.Plan(p, n)) && Fits(im.Plan(p, n), im.capacity)
    ensures Displaced(im, Put(Execute(im, im.Plan(p, n), n), p, e), e, p, n, im.Plan(p, n)[n - 1].next)
  {
    var path := im.Plan(p, n);
    var x := Execute(im, path, n);
    var r, last := Put(x, p, e), path[n - 1].next;
    ChainRunsBackwards(im, path);
    PlanFollowsTrail(im, p, n, 0);
    PlanFollowsTrail(im, p, n, n - 1);
    PutAt(x, p, e, p);
    forall k: nat {:trigger Trail(im, p, k)} | k < n
      ensures r.At(if k < n - 1 then Trail(im, p, k + 1) else last) == im.At(Trail(im, p, k))
    {
      PlanFollowsTrail(im, p, n, k);
      ExecuteMoves(im, path, n, k);
      PutAt(x, p, e, path[k].next);
    }
    forall q: Pos | im.In(q) && q != last && !OnTrail(im, p, n, q) ensures r.At(q) == im.At(q) {
      forall k | 0 <= k < n ensures path[k].next != q {
        PlanFollowsTrail(im, p, n, k);
      }
      ExecuteKeeps(im, path, n, q);
      assert q != p by { assert Trail(im, p, 0) == p; }
      PutAt(x, p, e, q);
    }
  }

  // ---------- An insertion that displaces nothing ----------

  /**
    Where a key goes when one of its buckets has room: the lowest slot number that is empty in
    either bucket, in bucket f if it is empty there.
   */
  ghost predicate DirectPlace(im: Image, f: nat, s: nat, p: Pos) {
    && p.slot < 4 && (p.bucket == f || p.bucket == s) && !Occupied(im, p)
    && (forall i: nat | i < p.slot :: Occupied(im, Pos(f, i)) && Occupied(im, Pos(s, i)))
    && (p.bucket != f ==> Occupied(im, Pos(f, p.slot)))
  }

  lemma {:induction false} DirectSlotIsFirst(im: Image, f: nat, s: nat, i: nat)
    requires DirectSlot(im, f, s, i).Some?
    ensures var p := DirectSlot(im, f, s, i).value;
            && i <= p.slot < 4 && (p.bucket == f || p.bucket == s) && !Occupied(im, p)
            && (forall k: nat | i <= k < p.slot :: Occupied(im, Pos(f, k)) && Occupied(im, Pos(s, k)))
            && (p.bucket != f ==> Occupied(im, Pos(f, p.slot)))
    decreases 4 - i
  {
    if im.At(Pos(f, i)).IsEmpty() || im.At(Pos(s, i)).IsEmpty() {
    } else {
      DirectSlotIsFirst(im, f, s, i + 1);
    }
  }

  /** The table after an insertion with room: one position holds the entry, the others are unchanged. */
  lemma InsertDirectly(im: Image, e: Entry) returns (p: Pos)
    requires im.WellPlaced()
    requires HasRoom(im, im.h.f(e.key, im.capacity)) || HasRoom(im, im.h.s(e.key, im.capacity))
    ensures DirectPlace(im, im.h.f(e.key, im.capacity), im.h.s(e.key, im.capacity), p) && Insert(im, e).Some?
    ensures forall q: Pos | im.In(q) :: Insert(im, e).value.At(q) == if q == p then e else im.At(q)
  {
    var f, s := im.h.f(e.key, im.capacity), im.h.s(e.key, im.capacity);
    RoomIsDirect(im, f, s);
    DirectSlotIsFirst(im, f, s, 0);
    DirectSlotIsEmpty(im, f, s, 0);
    p := DirectSlot(im, f, s, 0).value;
    forall q: Pos | im.In(q) ensures Put(im, p, e).At(q) == if q == p then e else im.At(q) {
      PutAt(im, p, e, q);
    }
  }

  // ---------- Where a resize sends an entry ----------

  /** The two new buckets an entry of old bucket c may go to, in the order they are probed. */
  function NewBuckets(h: Indexing, key: Key, c: nat, capacity: nat): (nat, nat) {
    var f, s := h.f(key, 2 * capacity), h.s(key, 2 * capacity);
    if h.f(key, capacity) == h.s(key, capacity) then (f, s)
    else if h.f(key, capacity) == c then (f, f)
    else (s, s)
  }

  /** One entry of old bucket c is put in the first place its new buckets offer; nothing else changes. */
  lemma RehashPlaces(n: Image, e: Entry, c: nat, capacity: nat) returns (p: Pos)
    requires n.Sized() && n.capacity == 2 * capacity && Rehash(n, e, c, capacity).Some?
    ensures var (a, b) := NewBuckets(n.h, e.key, c, capacity); DirectPlace(n, a, b, p)
    ensures forall q: Pos | n.In(q) :: Rehash(n, e, c, capacity).value.At(q) == if q == p then e else n.At(q)
  {
    var (a, b) := NewBuckets(n.h, e.key, c, capacity);
    p := PlaceIsDirect(n, e, a, b);
  }

  lemma PlaceIsDirect(n: Image, e: Entry, a: nat, b: nat) returns (p: Pos)
    requires n.Sized() && Place(n, e, a, b).Some?
    ensures DirectPlace(n, a, b, p)
    ensures forall q: Pos | n.In(q) :: Place(n, e, a, b).value.At(q) == if q == p then e else n.At(q)
  {
    DirectSlotIsFirst(n, a, b, 0);
    p := DirectSlot(n, a, b, 0).value;
    WritesOnly(n, p, e);
  }

  lemma WritesOnly(n: Image, p: Pos, e: Entry)
    requires n.Sized() && p.Index() < |n.t| && p.slot < 4
    ensures forall q: Pos | n.In(q) :: n.(t := n.t[p.Index() := e]).At(q) == if q == p then e else n.At(q)
  {
    assert n.In(p);
    forall q: Pos | n.In(q) ensures n.(t := n.t[p.Index() := e]).At(q) == if q == p then e else n.At(q) {
      PutAt(n, p, e, q);
    }
  }

  /** Some slot of old bucket c holds the entry. */
  ghost predicate HeldIn(im: Image, c: nat, e: Entry) {
    exists j: nat | j < 4 :: im.At(Pos(c, j)) == e
  }

  /** Everything in new bucket b came from old bucket b or b minus the old capacity. */
  ghost predicate CameFrom(im: Image, n: Image, p: Pos) {
    HeldIn(im, if p.bucket < im.capacity then p.bucket else p.bucket - im.capacity, n.At(p))
  }

  ghost predicate AllCameFrom(im: Image, n: Image) {
    && n.Sized() && n.h == im.h && n.capacity == 2 * im.capacity
    && forall p: Pos {:trigger CameFrom(im, n, p)} | n.In(p) && Occupied(n, p) :: CameFrom(im, n, p)
  }

  /** One more entry of old bucket c, put in new bucket c or c plus the old capacity. */
  lemma OneMoreCameFrom(im: Image, n: Image, r: Image, p: Pos, c: nat, j: nat)
    requires AllCameFrom(im, n) && r.Sized() && r.h == n.h && r.capacity == n.capacity
    requires c < im.capacity && j < 4 && (p.bucket == c || p.bucket == c + im.capacity)
    requires forall q: Pos | n.In(q) :: r.At(q) == if q == p then im.At(Pos(c, j)) else n.At(q)
    ensures AllCameFrom(im, r)
  {
    forall q: Pos {:trigger CameFrom(im, r, q)} | r.In(q) && Occupied(r, q) ensures CameFrom(im, r, q) {
      if q == p {
        assert HeldIn(im, c, r.At(q));
      } else {
        assert CameFrom(im, n, q);
      }
    }
  }

  lemma CellKeepsOrigin(im: Image, n: Image, c: nat, j: nat)
    requires im.WellPlaced() && AllCameFrom(im, n) && c < im.capacity && j < 4 && RehashSlot(im, n, c, j).Some?
    ensures AllCameFrom(im, RehashSlot(im, n, c, j).value)
  {
    var e := im.At(Pos(c, j));
    if !e.IsEmpty() {
      assert im.AtHome(Pos(c, j));
      OfferedSplit(im.h, e.key, c, im.capacity);
      var p := RehashPlaces(n, e, c, im.capacity);
      OneMoreCameFrom(im, n, Rehash(n, e, c, im.capacity).value, p, c, j);
    }
  }

  ghost function Origin(im: Image): Image -> bool {
    (n: Image) => AllCameFrom(im, n)
  }

  /**
    A resize keeps entries at their offset: whatever new bucket b holds afterwards was held by old
    bucket b, or by old bucket b minus the old capacity.
   */
  lemma ResizeKeepsOffsets(im: Image, p: Pos)
    requires im.WellPlaced()
    ensures Resize(im).Some? && Resize(im).value.capacity == 2 * im.capacity
    ensures var r := Resize(im).value; r.In(p) && Occupied(r, p) ==> CameFrom(im, r, p)
  {
    ResizeNeverFails(im);
    var inv := Origin(im);
    forall n, c: nat, j: nat | c < im.capacity && j < 4 && inv(n)
      ensures Sweep.CellMayKeep(Rehasher(im), inv, n, c, j)
    {
      if RehashSlot(im, n, c, j).Some? {
        CellKeepsOrigin(im, n, c, j);
      }
    }
    Sweep.RunMayKeep(Rehasher(im), EmptyImage(im.h, 2 * im.capacity), inv, im.capacity, im.capacity, 0);
    assert AllCameFrom(im, Resize(im).value);
  }
}
