/**
  The cuckoo table of flatfs/cuckoo_hash.c as the source has it: the table, the path buffers and
  the entry count are fields updated step by step. Every method is proved against `CuckooSpec`.
 */
module CuckooHash {
  import opened CuckooTable
  import opened CuckooPath
  import opened CuckooSpec
  import opened Orbit
  import Sweep
  import opened Wrappers

  datatype Status = SUCCESS | FAIL | ENOSPC

  class Cuckoo {
    const h: Hasher
    var table: Table
    var capacity: nat
    var entryNum: nat
    var evictPath1: seq<PathNode>
    var evictPath2: seq<PathNode>

    ghost function Img(): Image
      reads this
    {
      Image(h, table, capacity)
    }

    /** Buffer sizes alone. */
    ghost predicate Allocated()
      reads this
    {
      Img().Sized() && |evictPath1| == MAX_EVICTION && |evictPath2| == MAX_EVICTION
    }

    ghost predicate Valid()
      reads this
    {
      Allocated() && Img().WellPlaced() && entryNum == |Items(table)|
    }

    /** `cuckoo_hash_init`: an empty table. */
    constructor (h: Hasher, capacity: nat)
      requires capacity > 0
      ensures Valid()
      ensures Img() == EmptyImage(h, capacity) && Items(table) == multiset{}
    {
      this.h := h;
      this.evictPath1 := seq(MAX_EVICTION, i => PathNode(Pos(0, 0), Pos(0, 0)));
      this.evictPath2 := seq(MAX_EVICTION, i => PathNode(Pos(0, 0), Pos(0, 0)));
      this.table := seq(4 * capacity, i => EMPTY);
      this.capacity := capacity;
      this.entryNum := 0;
      new;
      EmptyTableHoldsNothing(table);
    }

    /** The inner loop of `find_path`: the first empty slot of a bucket, or 4. */
    method EmptySlot(bucket: nat) returns (slot: nat)
      requires Allocated() && bucket < capacity
      ensures slot == Img().FirstEmpty(bucket)
    {
      slot := 0;
      while slot < 4
        invariant slot <= 4
        invariant slot > 0 ==> !Img().At(Pos(bucket, 0)).IsEmpty()
        invariant slot > 1 ==> !Img().At(Pos(bucket, 1)).IsEmpty()
        invariant slot > 2 ==> !Img().At(Pos(bucket, 2)).IsEmpty()
        invariant slot > 3 ==> !Img().At(Pos(bucket, 3)).IsEmpty()
      {
        assert table[4 * bucket + slot] == Img().At(Pos(bucket, slot));
        if table[4 * bucket + slot].IsEmpty() {
          return;
        }
        slot := slot + 1;
      }
    }

    /** One turn of `find_path`: the move planned for a position, or None in the error branch. */
    method PlanMove(cur: Pos) returns (move: Option<PathNode>, roomy: bool)
      requires Allocated() && Img().In(cur)
      ensures move.Some? <==> Img().AtHome(cur)
      ensures move.Some? ==> && move.value == Img().MoveFrom(cur) && Img().In(move.value.next)
                             && roomy == Img().Offers()(cur)
                             && (!roomy ==> move.value.next == Img().Next()(cur))
    {
      var key := table[4 * cur.bucket + cur.slot].key;
      var fIdx, sIdx := h.f(key, capacity), h.s(key, capacity);
      var evictBucket;
      if fIdx == cur.bucket {
        evictBucket := sIdx;
      } else if sIdx == cur.bucket {
        evictBucket := fIdx;
      } else {
        return None, false;
      }
      var i := EmptySlot(evictBucket);
      roomy := i < 4;
      move := Some(PathNode(cur, Pos(evictBucket, if roomy then i else 3)));
    }

    /** `find_path`: plans the evictions from one slot into one of the two path buffers. */
    method FindPath(bucket: nat, slot: nat, path: int) returns (r: SearchResult)
      requires Allocated() && bucket < capacity && slot < 4
      modifies this`evictPath1, this`evictPath2
      ensures Allocated() && r == Img().FindPath(Pos(bucket, slot))
      ensures path == 1 ==> evictPath2 == old(evictPath2)
      ensures path != 1 ==> evictPath1 == old(evictPath1)
      ensures r.Found? ==> && r.len <= MAX_EVICTION
                           && (if path == 1 then evictPath1 else evictPath2)[..r.len]
                              == Img().Plan(Pos(bucket, slot), r.len)
    {
      var paths := if path == 1 then evictPath1 else evictPath2;
      r, paths := PlanPath(Pos(bucket, slot), paths);
      if path == 1 {
        evictPath1 := paths;
      } else {
        evictPath2 := paths;
      }
    }

    /** The loop of `find_path`, filling the buffer it is given. */
    method PlanPath(start: Pos, buffer: seq<PathNode>) returns (r: SearchResult, paths: seq<PathNode>)
      requires Allocated() && Img().In(start) && |buffer| == MAX_EVICTION
      ensures r == Img().FindPath(start) && |paths| == MAX_EVICTION
      ensures r.Found? ==> r.len <= MAX_EVICTION && paths[..r.len] == Img().Plan(start, r.len)
    {
      ghost var im := Img();
      var cur, used: nat := start, 0;
      paths := buffer;
      while used < MAX_EVICTION
        invariant used <= MAX_EVICTION && im.In(cur) && |paths| == MAX_EVICTION
        invariant Searching(im, start, cur, used, paths[..used])
      {
        var move, roomy := PlanMove(cur);
        SearchingStep(im, start, cur, used, paths[..used]);
        if move.None? {
          return Stuck, paths;
        }
        Append(paths, used, move.value);
        paths := paths[used := move.value];
        used := used + 1;
        if roomy {
          return Found(used), paths;
        }
        cur := move.value.next;
      }
      return Exhausted, paths;
    }

    /** `execute_path`: copies entries along the path, last move first. */
    method ExecutePath(paths: seq<PathNode>, pathLen: nat)
      requires Allocated() && pathLen <= |paths| && Fits(paths[..pathLen], capacity)
      modifies this`table
      ensures Img() == Execute(old(Img()), paths[..pathLen], pathLen)
    {
      ghost var path := paths[..pathLen];
      var i := pathLen;
      while i > 0
        invariant i <= pathLen && Img().Sized()
        invariant Execute(Img(), path, i) == Execute(old(Img()), path, pathLen)
      {
        assert path[i - 1] == paths[i - 1];
        i := i - 1;
        CopyEntry(paths[i].pre, paths[i].next);
      }
    }

    method CopyEntry(pre: Pos, next: Pos)
      requires Img().Sized() && Img().In(pre) && Img().In(next)
      modifies this`table
      ensures Img() == Put(old(Img()), next, old(Img()).At(pre))
    {
      var e := table[4 * pre.bucket + pre.slot];
      assert e == Img().At(pre);
      table := table[4 * next.bucket + next.slot := e];
    }

    /** Writes an entry into an empty or vacated slot and counts it. */
    method Store(p: Pos, key: Key, value: Value)
      requires Allocated() && Img().In(p)
      modifies this`entryNum, this`table
      ensures Img() == Put(old(Img()), p, Entry(key, value)) && entryNum == old(entryNum) + 1
    {
      table := table[4 * p.bucket + p.slot := Entry(key, value)];
      entryNum := entryNum + 1;
    }

    /** The alternating probe of two buckets for an empty slot, in an insertion and in a resize. */
    method ProbeEmpty(t: Table, cap: nat, a: nat, b: nat) returns (p: Option<Pos>)
      requires |t| == 4 * cap && a < cap && b < cap
      ensures p == DirectSlot(Image(h, t, cap), a, b, 0)
      ensures p.Some? ==> p.value.bucket < cap && p.value.slot < 4
    {
      ghost var im := Image(h, t, cap);
      var i := 0;
      while i < 4
        invariant i <= 4 && DirectSlot(im, a, b, i) == DirectSlot(im, a, b, 0)
      {
        if t[4 * a + i].IsEmpty() {
          return Some(Pos(a, i));
        } else if t[4 * b + i].IsEmpty() {
          return Some(Pos(b, i));
        }
        i := i + 1;
      }
      return None;
    }

    /** `cuckoo_insert`. */
    method Insert(key: Key, value: Value) returns (status: Status)
      requires Valid() && key != []
      modifies this`entryNum, this`table, this`evictPath1, this`evictPath2
      ensures Valid()
      ensures match old(CuckooSpec.Insert(Img(), Entry(key, value)))
              case Some(r) => status == SUCCESS && Img() == r
              case None => status == FAIL && Img() == old(Img())
    {
      ghost var im := Img();
      var fIdx, sIdx := h.f(key, capacity), h.s(key, capacity);
      DirectSlotIsEmpty(im, fIdx, sIdx, 0);
      var direct := ProbeEmpty(table, capacity, fIdx, sIdx);
      if direct.Some? {
        Store(direct.value, key, value);
        status := SUCCESS;
      } else {
        status := InsertByEviction(fIdx, sIdx, key, value);
      }
      InsertAddsEntry(im, Entry(key, value));
    }

    /** Both buckets are full: run the chosen path backwards and write the entry where it started. */
    method InsertByEviction(fIdx: nat, sIdx: nat, key: Key, value: Value) returns (status: Status)
      requires Allocated() && Img().WellPlaced() && fIdx < capacity && sIdx < capacity
      requires Full(Img(), fIdx) && Full(Img(), sIdx)
      modifies this`entryNum, this`table, this`evictPath1, this`evictPath2
      ensures Allocated()
      ensures match old(FirstChoice(Finder(Img()), fIdx, sIdx, 0))
              case Some((p, n)) => && status == SUCCESS && entryNum == old(entryNum) + 1
                                   && old(Img().In(p) && Fits(Img().Plan(p, n), capacity))
                                   && Img() == Put(Execute(old(Img()), old(Img().Plan(p, n)), n), p, Entry(key, value))
              case None => status == FAIL && Img() == old(Img()) && entryNum == old(entryNum)
    {
      ChoiceIsChain(Img(), fIdx, sIdx);
      var choice, paths := FindEviction(fIdx, sIdx);
      if choice.None? {
        return FAIL;
      }
      var (p, len) := choice.value;
      ExecutePath(paths, len);
      Store(p, key, value);
      return SUCCESS;
    }

    /** Searches from slot i of both buckets and keeps the shorter path, the second on a tie. */
    method PlanEviction(fIdx: nat, sIdx: nat, i: nat)
      returns (found: bool, paths: seq<PathNode>, len: nat, idx: nat)
      requires Allocated() && fIdx < capacity && sIdx < capacity && i < 4
      modifies this`evictPath1, this`evictPath2
      ensures Allocated()
      ensures found <==> Choice(Finder(Img()), fIdx, sIdx, i).Some?
      ensures found ==> && Choice(Finder(Img()), fIdx, sIdx, i) == Some((Pos(idx, i), len))
                        && len <= |paths| && paths[..len] == Img().Plan(Pos(idx, i), len)
    {
      var r1 := FindPath(fIdx, i, 1);
      var r2 := FindPath(sIdx, i, 2);
      found, paths, len, idx := true, evictPath1, 0, fIdx;
      if !r1.Found? && !r2.Found? {
        found := false;
      } else if !r1.Found? {
        paths, len, idx := evictPath2, r2.len, sIdx;
      } else if !r2.Found? {
        paths, len, idx := evictPath1, r1.len, fIdx;
      } else if r1.len < r2.len {
        paths, len, idx := evictPath1, r1.len, fIdx;
      } else {
        paths, len, idx := evictPath2, r2.len, sIdx;
      }
    }

    /** The second loop of `cuckoo_insert`, up to the first slot from which a path is found. */
    method FindEviction(fIdx: nat, sIdx: nat) returns (choice: Option<(Pos, nat)>, paths: seq<PathNode>)
      requires Allocated() && fIdx < capacity && sIdx < capacity
      modifies this`evictPath1, this`evictPath2
      ensures Allocated() && choice == FirstChoice(Finder(Img()), fIdx, sIdx, 0)
      ensures choice.Some? ==> var (p, n) := choice.value; n <= |paths| && paths[..n] == Img().Plan(p, n)
    {
      ghost var find := Finder(Img());
      paths := evictPath1;
      var i := 0;
      while i < 4
        invariant i <= 4 && Allocated()
        invariant FirstChoice(find, fIdx, sIdx, i) == FirstChoice(find, fIdx, sIdx, 0)
      {
        var found, len, idx;
        found, paths, len, idx := PlanEviction(fIdx, sIdx, i);
        if found {
          return Some((Pos(idx, i), len)), paths;
        }
        i := i + 1;
      }
      choice := None;
    }

    /** The probe loop of `cuckoo_update` and `cuckoo_query`. */
    method ProbeKey(key: Key) returns (p: Option<Pos>)
      requires Allocated()
      ensures p == Locate(Img(), key)
      ensures p.Some? ==> Img().In(p.value)
    {
      var fIdx, sIdx := h.f(key, capacity), h.s(key, capacity);
      var i := 0;
      while i < 4
        invariant i <= 4 && Probe(Img(), fIdx, sIdx, key, i) == Locate(Img(), key)
      {
        if table[4 * fIdx + i].key == key {
          return Some(Pos(fIdx, i));
        }
        if table[4 * sIdx + i].key == key {
          return Some(Pos(sIdx, i));
        }
        i := i + 1;
      }
      return None;
    }

    /** `cuckoo_update`: overwrites the value of a stored key. */
    method Update(key: Key, value: Value) returns (status: Status)
      requires Valid()
      modifies this`table
      ensures Valid()
      ensures match old(CuckooSpec.Update(Img(), key, value))
              case Some(r) => status == SUCCESS && Img() == r
              case None => status == FAIL && Img() == old(Img())
    {
      var p := ProbeKey(key);
      if p.None? {
        return FAIL;
      }
      UpdateKeepsShape(Img(), key, value);
      var i := 4 * p.value.bucket + p.value.slot;
      table := table[i := Entry(table[i].key, value)];
      return SUCCESS;
    }

    /** `cuckoo_query`: the stored value, or None for FAIL. */
    method Query(key: Key) returns (value: Option<Value>)
      requires Allocated()
      ensures value == CuckooSpec.Query(Img(), key)
    {
      var p := ProbeKey(key);
      if p.None? {
        return None;
      }
      return Some(table[4 * p.value.bucket + p.value.slot].value);
    }

    /** `cuckoo_resize`: rehashes every entry into a table of twice the capacity. */
    method Resize() returns (status: Status)
      requires Valid()
      modifies this`table, this`capacity
      ensures Valid() && status == SUCCESS
      ensures Some(Img()) == old(CuckooSpec.Resize(Img()))
    {
      ResizeNeverFails(Img());
      var ok, newTable := RehashAll();
      if !ok {
        return ENOSPC;
      }
      capacity := 2 * capacity;
      table := newTable;
      return SUCCESS;
    }

    /** The loop over the old buckets, filling a new zeroed table; `ok` is false at an error return. */
    method RehashAll() returns (ok: bool, newTable: Table)
      requires Allocated()
      ensures ok ==> CuckooSpec.Resize(Img()) == Some(Image(h, newTable, 2 * capacity))
      ensures !ok ==> CuckooSpec.Resize(Img()) == None
    {
      ghost var step, start := Rehasher(Img()), EmptyImage(h, 2 * capacity);
      newTable := ZeroedTable();
      var curIdx := 0;
      while curIdx < capacity
        invariant curIdx <= capacity && |newTable| == 8 * capacity
        invariant Sweep.Run(step, start, curIdx, 0) == Some(Image(h, newTable, 2 * capacity))
      {
        ok, newTable := RehashBucket(newTable, curIdx);
        if !ok {
          return;
        }
        curIdx := curIdx + 1;
      }
      ok := true;
    }

    method ZeroedTable() returns (t: Table)
      ensures |t| == 8 * capacity && Image(h, t, 2 * capacity) == EmptyImage(h, 2 * capacity)
    {
      t := seq(4 * (2 * capacity), i => EMPTY);
      assert t == EmptyImage(h, 2 * capacity).t;
    }

    /** The loop over the slots of one old bucket. */
    method RehashBucket(newTable: Table, curIdx: nat) returns (ok: bool, r: Table)
      requires Allocated() && curIdx < capacity && |newTable| == 8 * capacity
      requires Sweep.Run(Rehasher(Img()), EmptyImage(h, 2 * capacity), curIdx, 0)
               == Some(Image(h, newTable, 2 * capacity))
      ensures |r| == 8 * capacity
      ensures ok ==> Sweep.Run(Rehasher(Img()), EmptyImage(h, 2 * capacity), curIdx + 1, 0)
                     == Some(Image(h, r, 2 * capacity))
      ensures !ok ==> CuckooSpec.Resize(Img()) == None
    {
      ghost var step, start := Rehasher(Img()), EmptyImage(h, 2 * capacity);
      var j := 0;
      r := newTable;
      while j < 4
        invariant j <= 4 && |r| == 8 * capacity
        invariant Sweep.Run(step, start, curIdx, j) == Some(Image(h, r, 2 * capacity))
      {
        ok, r := RehashOne(r, curIdx, j);
        if !ok {
          Sweep.FailureStays(step, start, curIdx, j + 1, capacity);
          return;
        }
        j := j + 1;
      }
      ok := true;
    }

    method RehashOne(newTable: Table, curIdx: nat, j: nat) returns (ok: bool, r: Table)
      requires Allocated() && curIdx < capacity && j < 4 && |newTable| == 8 * capacity
      ensures |r| == 8 * capacity
      ensures Rehasher(Img())(Image(h, newTable, 2 * capacity), curIdx, j)
              == if ok then Some(Image(h, r, 2 * capacity)) else None
    {
      var e := table[4 * curIdx + j];
      ok, r := true, newTable;
      if !e.IsEmpty() {
        ok, r := RehashEntry(newTable, e, curIdx);
      }
    }

    /** The body of that loop: choose the new bucket or buckets and take their first empty slot. */
    method RehashEntry(newTable: Table, e: Entry, curIdx: nat) returns (ok: bool, r: Table)
      requires Allocated() && |newTable| == 8 * capacity
      ensures |r| == 8 * capacity
      ensures ok <==> Rehash(Image(h, newTable, 2 * capacity), e, curIdx, capacity).Some?
      ensures ok ==> Rehash(Image(h, newTable, 2 * capacity), e, curIdx, capacity) == Some(Image(h, r, 2 * capacity))
    {
      var fIdx, sIdx := h.f(e.key, 2 * capacity), h.s(e.key, 2 * capacity);
      var fOff, sOff := h.f(e.key, capacity), h.s(e.key, capacity);
      if fOff == sOff {
        ok, r := PlaceIn(newTable, e, fIdx, sIdx);
      } else if fOff == curIdx {
        ok, r := PlaceIn(newTable, e, fIdx, fIdx);
      } else if sOff == curIdx {
        ok, r := PlaceIn(newTable, e, sIdx, sIdx);
      } else {
        ok, r := false, newTable;
      }
    }

    method PlaceIn(newTable: Table, e: Entry, a: nat, b: nat) returns (ok: bool, r: Table)
      requires Allocated() && |newTable| == 8 * capacity && a < 2 * capacity && b < 2 * capacity
      ensures |r| == 8 * capacity
      ensures ok <==> Place(Image(h, newTable, 2 * capacity), e, a, b).Some?
      ensures ok ==> Place(Image(h, newTable, 2 * capacity), e, a, b) == Some(Image(h, r, 2 * capacity))
    {
      var p := ProbeEmpty(newTable, 2 * capacity, a, b);
      ok, r := p.Some?, newTable;
      if ok {
        r := newTable[4 * p.value.bucket + p.value.slot := e];
      }
    }
  }

  /** After `used` turns `find_path` stands at cur with its plan so far in the buffer. */
  ghost predicate Searching(im: Image, start: Pos, cur: Pos, used: nat, path: seq<PathNode>) {
    && cur == Iterate(im.Next(), start, used)
    && Search(im.Next(), im.Settled(), im.Offers(), start, used, MAX_EVICTION) == im.FindPath(start)
    && path == im.Plan(start, used)
  }

  lemma Append(path: seq<PathNode>, i: nat, m: PathNode)
    requires i < |path|
    ensures path[i := m][..i + 1] == path[..i] + [m]
  {
  }

  lemma SearchingStep(im: Image, start: Pos, cur: Pos, used: nat, path: seq<PathNode>)
    requires used < MAX_EVICTION && Searching(im, start, cur, used, path)
    ensures !im.AtHome(cur) ==> im.FindPath(start) == Stuck
    ensures im.AtHome(cur) && im.Offers()(cur) ==>
              im.FindPath(start) == Found(used + 1) && path + [im.MoveFrom(cur)] == im.Plan(start, used + 1)
    ensures im.AtHome(cur) && !im.Offers()(cur) ==>
              Searching(im, start, im.Next()(cur), used + 1, path + [im.MoveFrom(cur)])
  {
  }
}
