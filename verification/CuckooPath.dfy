/**
  Eviction paths: the walk that `find_path` plans and `execute_path` runs backwards.

  From a position the walk goes to the last slot of the other bucket of the key stored there, and
  stops at the first such bucket with an empty slot.
 */
module CuckooPath {
  import opened CuckooTable
  import opened Orbit

  datatype Pos = Pos(bucket: nat, slot: nat) {
    /** Where the position lies in a table laid out flat. */
    function Index(): nat { 4 * bucket + slot }
  }

  /** One planned move, as in `path_node_t`. */
  datatype PathNode = PathNode(pre: Pos, next: Pos)

  /** A table together with its indexing and capacity: all that `find_path` reads. */
  datatype Image = Image(h: Hasher, t: Table, capacity: nat) {

    predicate Sized() { capacity > 0 && |t| == 4 * capacity }

    predicate In(p: Pos) { p.bucket < capacity && p.slot < 4 }

    function At(p: Pos): Entry {
      if p.Index() < |t| then t[p.Index()] else EMPTY
    }

    /** Every entry sits in one of its own two buckets. */
    ghost predicate WellPlaced() {
      && Sized()
      && forall p: Pos | In(p) && !At(p).IsEmpty() :: AtHome(p)
    }

    /** The key at p belongs in its bucket. */
    predicate AtHome(p: Pos) {
      p.bucket == h.f(At(p).key, capacity) || p.bucket == h.s(At(p).key, capacity)
    }

    /** The bucket the key at p would be evicted to. */
    function Alternate(p: Pos): nat {
      if h.f(At(p).key, capacity) == p.bucket then h.s(At(p).key, capacity) else h.f(At(p).key, capacity)
    }

    /** The first empty slot of bucket b, or 4. */
    function FirstEmpty(b: nat): (s: nat)
      ensures s <= 4
    {
      if At(Pos(b, 0)).IsEmpty() then 0
      else if At(Pos(b, 1)).IsEmpty() then 1
      else if At(Pos(b, 2)).IsEmpty() then 2
      else if At(Pos(b, 3)).IsEmpty() then 3
      else 4
    }

    /** One step of the walk, its error test and its stopping test, as values. */
    function Next(): Pos -> Pos { (p: Pos) => Pos(Alternate(p), 3) }
    function Settled(): Pos -> bool { (p: Pos) => AtHome(p) }
    function Offers(): Pos -> bool { (p: Pos) => FirstEmpty(Alternate(p)) < 4 }

    /** What `find_path` returns from p: `Exhausted` is its 0 and `Stuck` its error branch. */
    function FindPath(p: Pos): SearchResult {
      Search(Next(), Settled(), Offers(), p, 0, MAX_EVICTION)
    }

    /** The move planned for position q: into an empty slot if there is one, else over the last slot. */
    function MoveFrom(q: Pos): PathNode {
      var s := FirstEmpty(Alternate(q));
      PathNode(q, Pos(Alternate(q), if s < 4 then s else 3))
    }

    /** The first n moves of the walk from p. */
    function Plan(p: Pos, n: nat): (path: seq<PathNode>)
      ensures |path| == n && forall i: nat | i < n :: path[i] == MoveFrom(Iterate(Next(), p, i))
      decreases n
    {
      if n == 0 then [] else Plan(p, n - 1) + [MoveFrom(Iterate(Next(), p, n - 1))]
    }

    /** Where a planned chain goes on: a full bucket's last slot holds an entry, and it is at home. */
    lemma StepIntoFullBucket(p: Pos)
      requires WellPlaced() && FirstEmpty(Alternate(p)) == 4
      ensures var q := Pos(Alternate(p), 3); In(q) && !At(q).IsEmpty() && AtHome(q)
    {
    }

    lemma WalkIsClosed()
      requires WellPlaced()
      ensures Closed(Next(), Settled(), Offers())
      ensures Closed(Next(), (p: Pos) => In(p) && !At(p).IsEmpty(), Offers())
    {
      forall p: Pos | !Offers()(p)
        ensures In(Next()(p)) && !At(Next()(p)).IsEmpty() && Settled()(Next()(p))
      {
        StepIntoFullBucket(p);
      }
    }

    /**
      In a well-placed table a search from an occupied slot never meets the error branch; it is
      exhausted exactly when none of the first MAX_EVICTION steps offers an empty slot, and
      otherwise its length names the first step that does.
     */
    lemma FindPathExact(p: Pos, r: SearchResult)
      requires WellPlaced() && In(p) && !At(p).IsEmpty()
      ensures FindPath(p) == r <==> FirstHit(Next(), Offers(), p, MAX_EVICTION, r)
    {
      WalkIsClosed();
      SearchIsExact(Next(), Settled(), Offers(), p, MAX_EVICTION, r);
    }

    // ---------- The path is simple ----------

    /**
      A chain of moves that can be run backwards without losing an entry: distinct occupied
      sources, each target the next source, the last target empty, every key moved to a home of
      its own.
     */
    ghost predicate Chain(path: seq<PathNode>) {
      && |path| > 0
      && (forall i | 0 <= i < |path| :: Move(path[i]))
      && (forall i | 0 <= i < |path| - 1 :: path[i].next == path[i + 1].pre)
      && At(path[|path| - 1].next).IsEmpty()
      && forall i, j | 0 <= i < j < |path| :: path[i].pre != path[j].pre
    }

    predicate Move(m: PathNode) {
      && In(m.pre) && In(m.next) && !At(m.pre).IsEmpty()
      && (m.next.bucket == h.f(At(m.pre).key, capacity) || m.next.bucket == h.s(At(m.pre).key, capacity))
    }

    lemma MoveFromIsMove(q: Pos)
      requires Sized() && In(q) && !At(q).IsEmpty()
      ensures Move(MoveFrom(q)) && MoveFrom(q).pre == q
      ensures Offers()(q) ==> At(MoveFrom(q).next).IsEmpty()
      ensures !Offers()(q) ==> MoveFrom(q).next == Next()(q)
    {
    }

    /** A successful search is a simple path: it starts at p and forms a chain. */
    lemma FoundPathIsChain(p: Pos, n: nat)
      requires WellPlaced() && In(p) && !At(p).IsEmpty()
      requires FindPath(p) == Found(n)
      ensures 1 <= n <= MAX_EVICTION
      ensures Chain(Plan(p, n))
      ensures Plan(p, n)[0].pre == p
    {
      FindPathExact(p, Found(n));
      WalkIsClosed();
      var path := Plan(p, n);
      forall i | 0 <= i < n
        ensures Move(path[i]) && path[i].pre == Iterate(Next(), p, i)
        ensures i < n - 1 ==> path[i].next == Iterate(Next(), p, i + 1)
        ensures i == n - 1 ==> At(path[i].next).IsEmpty()
      {
        StaysAdmissible(Next(), (q: Pos) => In(q) && !At(q).IsEmpty(), Offers(), p, i);
        MoveFromIsMove(Iterate(Next(), p, i));
      }
      forall i, j | 0 <= i < j < n
        ensures path[i].pre != path[j].pre
      {
        OrbitIsSimple(Next(), Offers(), p, n - 1, i, j);
      }
    }
  }
}
