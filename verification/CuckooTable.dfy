/**
  The cuckoo table of flatfs/cuckoo_hash.c as a value: where a key may live, what the table holds,
  and the functions the in-place operations of `CuckooHash` are proved against.

  A table is its buckets laid end to end, as in memory: slot s of bucket b is position 4*b + s.
 */
module CuckooTable {
  import opened Bits

  /** A storable key: a C string that fits, with its terminator, in KEY_LEN = 4 bytes. */
  type Key = s: seq<Byte> | |s| < 4 && forall i | 0 <= i < |s| :: s[i] != 0

  /** VALUE_LEN = 8 bytes. */
  type Value = v: seq<Byte> | |v| == 8 witness ZEROS

  const ZEROS: seq<Byte> := [0, 0, 0, 0, 0, 0, 0, 0]

  datatype Entry = Entry(key: Key, value: Value) {
    /** The empty string is the INVALID key. */
    predicate IsEmpty() { key == [] }
  }

  const EMPTY: Entry := Entry([], ZEROS)

  type Table = seq<Entry>

  /**
    The two bucket functions, `F_IDX(F_HASH(key), capacity)` and `S_IDX(S_HASH(key), capacity)`.
    All the table relies on is that a bucket is in range and that doubling the capacity keeps it
    or moves it up by the old capacity; `Seeded` builds one from a hash function and two seeds.
   */
  datatype Indexing = Indexing(f: (Key, nat) -> nat, s: (Key, nat) -> nat) {
    ghost predicate Valid() {
      && (forall key, c: nat | c > 0 :: f(key, c) < c && s(key, c) < c)
      && (forall key, c: nat | c > 0 :: Splits(key, c))
    }

    predicate Splits(key: Key, c: nat) {
      && (f(key, 2 * c) == f(key, c) || f(key, 2 * c) == f(key, c) + c)
      && (s(key, 2 * c) == s(key, c) || s(key, 2 * c) == s(key, c) + c)
    }
  }

  type Hasher = h: Indexing | h.Valid() ghost witness Indexing((key, c) => 0, (key, c) => 0)

  /** The indexing of a table: the hash modulo the capacity, with one of two seeds. */
  function Seeded(hash: (Key, Word) -> Word, fSeed: Word, sSeed: Word): Hasher {
    SeededValid(hash, fSeed, sSeed);
    SeededIndexing(hash, fSeed, sSeed)
  }

  function SeededIndexing(hash: (Key, Word) -> Word, fSeed: Word, sSeed: Word): Indexing {
    Indexing((key, c) => Reduce(hash(key, fSeed), c), (key, c) => Reduce(hash(key, sSeed), c))
  }

  function Reduce(hash: nat, c: nat): nat {
    if c == 0 then 0 else hash % c
  }

  lemma SeededValid(hash: (Key, Word) -> Word, fSeed: Word, sSeed: Word)
    ensures SeededIndexing(hash, fSeed, sSeed).Valid()
  {
    var h := SeededIndexing(hash, fSeed, sSeed);
    forall key, c: nat | c > 0
      ensures h.f(key, c) < c && h.s(key, c) < c && h.Splits(key, c)
    {
      ModDouble(hash(key, fSeed), c);
      ModDouble(hash(key, sSeed), c);
    }
  }

  /** The buckets of a key are its two hash values modulo the capacity. */
  lemma SeededIsModCapacity(hash: (Key, Word) -> Word, fSeed: Word, sSeed: Word, key: Key, c: nat)
    requires c > 0
    ensures Seeded(hash, fSeed, sSeed).f(key, c) == hash(key, fSeed) % c
    ensures Seeded(hash, fSeed, sSeed).s(key, c) == hash(key, sSeed) % c
  {
  }

  lemma ModDouble(x: nat, c: nat)
    requires c > 0
    ensures x % (2 * c) == x % c || x % (2 * c) == x % c + c
  {
    var q, r := x / (2 * c), x % (2 * c);
    if r < c {
      DivUnique(x, c, 2 * q, r);
    } else {
      DivUnique(x, c, 2 * q + 1, r - c);
    }
  }

  const MAX_EVICTION: nat := 16

  // ---------- What a table holds ----------

  function Bag(e: Entry): multiset<Entry> {
    if e.IsEmpty() then multiset{} else multiset{e}
  }

  /** The sum of the first n bags of a family. */
  function Sum(bags: nat -> multiset<Entry>, n: nat): multiset<Entry> {
    if n == 0 then multiset{} else Sum(bags, n - 1) + bags(n - 1)
  }

  lemma {:induction false} SumAgrees(a: nat -> multiset<Entry>, b: nat -> multiset<Entry>, n: nat)
    requires forall i: nat | i < n :: a(i) == b(i)
    ensures Sum(a, n) == Sum(b, n)
  {
    if n > 0 {
      SumAgrees(a, b, n - 1);
    }
  }

  lemma {:induction false} SumUpdate(a: nat -> multiset<Entry>, b: nat -> multiset<Entry>, p: nat, n: nat)
    requires p < n && forall i: nat | i < n && i != p :: a(i) == b(i)
    ensures Sum(a, n) + b(p) == Sum(b, n) + a(p)
  {
    if p == n - 1 {
      SumAgrees(a, b, n - 1);
      AddToBoth(Sum(a, n - 1), multiset{}, Sum(b, n - 1), multiset{}, a(p) + b(p));
    } else {
      SumUpdate(a, b, p, n - 1);
      AddToBoth(Sum(a, n - 1), b(p), Sum(b, n - 1), a(p), a(n - 1));
    }
  }

  lemma AddToBoth(a: multiset<Entry>, x: multiset<Entry>, b: multiset<Entry>, y: multiset<Entry>, z: multiset<Entry>)
    requires a + x == b + y
    ensures a + z + x == b + z + y
  {
    assert a + z + x == a + x + z;
    assert b + z + y == b + y + z;
  }

  lemma {:induction false} SumMember(bags: nat -> multiset<Entry>, n: nat, e: Entry)
    ensures e in Sum(bags, n) <==> exists i: nat | i < n :: e in bags(i)
  {
    if n > 0 {
      SumMember(bags, n - 1, e);
    }
  }

  /** The slots of a table as bags of at most one entry. */
  function Bags(t: Table): nat -> multiset<Entry> {
    (i: nat) => if i < |t| then Bag(t[i]) else multiset{}
  }

  /** The entries of a table, with multiplicity. */
  function Items(t: Table): multiset<Entry> { Sum(Bags(t), |t|) }

  /** Overwriting one slot trades its old entry for the new one. */
  lemma ItemsUpdate(t: Table, p: nat, e: Entry)
    requires p < |t|
    ensures Items(t[p := e]) + Bag(t[p]) == Items(t) + Bag(e)
  {
    SumUpdate(Bags(t[p := e]), Bags(t), p, |t|);
  }

  lemma ItemsMember(t: Table, e: Entry)
    ensures e in Items(t) <==> !e.IsEmpty() && exists p: nat | p < |t| :: t[p] == e
  {
    SumMember(Bags(t), |t|, e);
    forall p: nat | p < |t|
      ensures e in Bags(t)(p) <==> !e.IsEmpty() && t[p] == e
    {
    }
  }

  lemma {:induction false} SumBounded(bags: nat -> multiset<Entry>, n: nat)
    requires forall i: nat :: |bags(i)| <= 1
    ensures |Sum(bags, n)| <= n
  {
    if n > 0 {
      SumBounded(bags, n - 1);
    }
  }

  /** Two different entries with one key. */
  predicate Clash(d: Entry, e: Entry) { d.key == e.key && d != e }

  /** No key is stored twice. */
  ghost predicate UniqueKeys(items: multiset<Entry>) {
    && (forall e | e in items :: items[e] == 1)
    && forall d, e {:trigger Clash(d, e)} | d in items && e in items :: !Clash(d, e)
  }

  lemma UniqueKeysApart(items: multiset<Entry>)
    requires UniqueKeys(items)
    ensures forall d, e | d in items && e in items && d.key == e.key :: d == e
  {
    forall d, e | d in items && e in items && d.key == e.key
      ensures d == e
    {
      assert !Clash(d, e);
    }
  }

  /** The finite map a table with unique keys stands for. */
  ghost function Contents(items: multiset<Entry>): (m: map<Key, Value>)
    requires UniqueKeys(items)
  {
    UniqueKeysApart(items);
    map e | e in items :: e.key := e.value
  }

  lemma ContentsOfEntry(items: multiset<Entry>, e: Entry)
    requires UniqueKeys(items) && e in items
    ensures e.key in Contents(items) && Contents(items)[e.key] == e.value
  {
    UniqueKeysApart(items);
  }

  lemma EntryOfContents(items: multiset<Entry>, k: Key)
    requires UniqueKeys(items) && k in Contents(items)
    ensures Entry(k, Contents(items)[k]) in items
  {
  }

  lemma UniqueKeysAdd(items: multiset<Entry>, e: Entry)
    requires UniqueKeys(items) && forall d | d in items :: d.key != e.key
    ensures UniqueKeys(items + multiset{e})
  {
  }

  lemma ContentsAdd(items: multiset<Entry>, e: Entry)
    requires UniqueKeys(items) && e.key !in Contents(items)
    ensures UniqueKeys(items + multiset{e})
    ensures Contents(items + multiset{e}) == Contents(items)[e.key := e.value]
  {
    forall d | d in items
      ensures d.key != e.key
    {
      ContentsOfEntry(items, d);
    }
    UniqueKeysAdd(items, e);
    forall k: Key {
      ContentsAddAt(items, items + multiset{e}, e, k);
    }
    MapsAgree(Contents(items + multiset{e}), Contents(items)[e.key := e.value]);
  }

  /** One more entry keeps the keys unique exactly if its key was not stored. */
  lemma UniqueKeysAddExactly(items: multiset<Entry>, e: Entry)
    requires UniqueKeys(items)
    ensures UniqueKeys(items + multiset{e}) <==> e.key !in Contents(items)
  {
    if e.key in Contents(items) {
      EntryOfContents(items, e.key);
      var d := Entry(e.key, Contents(items)[e.key]);
      assert Clash(d, e) || (items + multiset{e})[d] == 2;
    } else {
      ContentsAdd(items, e);
    }
  }

  lemma ContentsAddAt(items: multiset<Entry>, more: multiset<Entry>, e: Entry, k: Key)
    requires UniqueKeys(items) && UniqueKeys(more) && more == items + multiset{e}
    ensures k in Contents(more) <==> k == e.key || k in Contents(items)
    ensures k in Contents(more) ==> Contents(more)[k] == Contents(items)[e.key := e.value][k]
  {
    ContentsOfEntry(more, e);
    if k != e.key && k in Contents(more) {
      EntryOfContents(more, k);
      ContentsOfEntry(items, Entry(k, Contents(more)[k]));
    }
    if k in Contents(items) {
      EntryOfContents(items, k);
      ContentsOfEntry(more, Entry(k, Contents(items)[k]));
    }
  }

  lemma MapsAgree(m: map<Key, Value>, n: map<Key, Value>)
    requires forall k: Key :: (k in m <==> k in n) && (k in m ==> m[k] == n[k])
    ensures m == n
  {
  }

  lemma ContentsRemove(items: multiset<Entry>, e: Entry)
    requires UniqueKeys(items) && e in items
    ensures UniqueKeys(items - multiset{e}) && e.key !in Contents(items - multiset{e})
    ensures items - multiset{e} + multiset{e} == items
  {
    var rest := items - multiset{e};
    UniqueKeysRemove(items, e);
    if e.key in Contents(rest) {
      EntryOfContents(rest, e.key);
    }
  }

  lemma UniqueKeysRemove(items: multiset<Entry>, e: Entry)
    requires UniqueKeys(items) && e in items
    ensures UniqueKeys(items - multiset{e}) && forall d | d in items - multiset{e} :: d.key != e.key
  {
    var rest := items - multiset{e};
    UniqueKeysApart(items);
    assert rest[e] == 0;
    assert forall d | d in rest :: d in items && rest[d] == items[d];
  }

  lemma ContentsReplace(items: multiset<Entry>, was: Entry, e: Entry)
    requires UniqueKeys(items) && was in items && was.key == e.key
    ensures UniqueKeys(items - multiset{was} + multiset{e})
    ensures Contents(items - multiset{was} + multiset{e}) == Contents(items)[e.key := e.value]
  {
    var rest := items - multiset{was};
    ContentsRemove(items, was);
    assert Contents(items) == Contents(rest)[was.key := was.value] by {
      ContentsAdd(rest, was);
    }
    ContentsAdd(rest, e);
    OverwriteTwice(Contents(rest), e.key, was.value, e.value);
  }

  lemma OverwriteTwice(m: map<Key, Value>, k: Key, v: Value, w: Value)
    ensures m[k := v][k := w] == m[k := w]
  {
  }

  /** With unique keys, the number of entries is the size of the map. */
  lemma {:induction false} ContentsSize(items: multiset<Entry>)
    requires UniqueKeys(items)
    ensures |Contents(items)| == |items|
    decreases |items|
  {
    if |items| > 0 {
      var e :| e in items;
      var rest := items - multiset{e};
      ContentsRemove(items, e);
      ContentsSize(rest);
      ContentsAdd(rest, e);
    } else {
      assert items == multiset{};
    }
  }
}
