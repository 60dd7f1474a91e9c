/**
  XXH64 as its specification words it (the "XXH64 algorithm description" section of the xxHash
  specification), with its own constants and its accumulators kept apart. The hash of flatfs/hash.c
  is proved to be this function on all inputs. The word operations both are made of are spelled out
  in literal arithmetic first.
 */
module XxHashReference {
  import opened Bits
  import XxHash

  const PRIME_1: Word := 0x9E37_79B1_85EB_CA87
  const PRIME_2: Word := 0xC2B2_AE3D_27D4_EB4F
  const PRIME_3: Word := 0x1656_67B1_9E37_79F9
  const PRIME_4: Word := 0x85EB_CA77_C2B2_AE63
  const PRIME_5: Word := 0x27D4_EB2F_1656_67C5

  // ---------- The word operations, in literal arithmetic ----------

  /** Left rotation by the logarithm of p, where q is 2 to the power 64 over p. */
  function Rol(x: Word, p: nat, q: nat): nat
    requires q > 0
  {
    x * p % 0x1_0000_0000_0000_0000 + x / q
  }

  lemma SumsAndProducts(x: Word, y: Word)
    ensures Add(x, y) == (x + y) % 0x1_0000_0000_0000_0000
    ensures Mul(x, y) == x * y % 0x1_0000_0000_0000_0000
  {
  }

  lemma RotlIs(x: Word, r: nat, p: nat, q: nat)
    requires r <= 64 && Pow2(r) == p && Pow2(64 - r) == q
    ensures Rotl(x, r) == Rol(x, p, q)
  {
  }

  lemma Powers()
    ensures Pow2(1) == 2 && Pow2(7) == 0x80 && Pow2(11) == 0x800 && Pow2(18) == 0x4_0000
    ensures Pow2(23) == 0x80_0000 && Pow2(27) == 0x800_0000 && Pow2(29) == 0x2000_0000
    ensures Pow2(31) == 0x8000_0000 && Pow2(33) == 0x2_0000_0000
  {
    assert Pow2(1) == 2 * Pow2(0);
    Pow2Values();
    Pow2Add(3, 4);
    Pow2Add(1, 3);
    Pow2Add(7, 4);
    Pow2Add(3, 15);
    Pow2Add(3, 20);
    Pow2Add(7, 20);
    Pow2Add(27, 2);
    Pow2Add(1, 1);
    Pow2Add(29, 2);
    Pow2Add(1, 32);
  }

  lemma HighPowers()
    ensures Pow2(37) == 0x20_0000_0000 && Pow2(41) == 0x200_0000_0000 && Pow2(46) == 0x4000_0000_0000
    ensures Pow2(52) == 0x10_0000_0000_0000 && Pow2(53) == 0x20_0000_0000_0000
    ensures Pow2(57) == 0x200_0000_0000_0000 && Pow2(63) == 0x8000_0000_0000_0000
  {
    Pow2Values();
    Powers();
    Pow2Add(33, 4);
    Pow2Add(1, 3);
    Pow2Add(37, 4);
    Pow2Add(23, 23);
    Pow2Add(32, 20);
    Pow2Add(1, 52);
    Pow2Add(53, 4);
    Pow2Add(31, 32);
  }

  /** The rotations the hash uses. */
  lemma Rotations(x: Word)
    ensures Rotl(x, 1) == Rol(x, 2, 0x8000_0000_0000_0000)
    ensures Rotl(x, 7) == Rol(x, 0x80, 0x200_0000_0000_0000)
    ensures Rotl(x, 11) == Rol(x, 0x800, 0x20_0000_0000_0000)
    ensures Rotl(x, 12) == Rol(x, 0x1000, 0x10_0000_0000_0000)
    ensures Rotl(x, 18) == Rol(x, 0x4_0000, 0x4000_0000_0000)
    ensures Rotl(x, 23) == Rol(x, 0x80_0000, 0x200_0000_0000)
    ensures Rotl(x, 27) == Rol(x, 0x800_0000, 0x20_0000_0000)
    ensures Rotl(x, 31) == Rol(x, 0x8000_0000, 0x2_0000_0000)
  {
    Powers();
    HighPowers();
    Pow2Values();
    RotlIs(x, 1, 2, 0x8000_0000_0000_0000);
    RotlIs(x, 7, 0x80, 0x200_0000_0000_0000);
    RotlIs(x, 11, 0x800, 0x20_0000_0000_0000);
    RotlIs(x, 12, 0x1000, 0x10_0000_0000_0000);
    RotlIs(x, 18, 0x4_0000, 0x4000_0000_0000);
    RotlIs(x, 23, 0x80_0000, 0x200_0000_0000);
    RotlIs(x, 27, 0x800_0000, 0x20_0000_0000);
    RotlIs(x, 31, 0x8000_0000, 0x2_0000_0000);
  }

  /** The shifts of the last step. */
  lemma Shifts(x: Word)
    ensures XorDown64(x, 33) == Xor(x, x / 0x2_0000_0000)
    ensures XorDown64(x, 29) == Xor(x, x / 0x2000_0000)
    ensures XorDown64(x, 32) == Xor(x, x / 0x1_0000_0000)
  {
    Powers();
    Pow2Values();
    ShrIsDiv(x, 33);
    ShrIsDiv(x, 29);
    ShrIsDiv(x, 32);
  }

  // ---------- Reading words ----------

  function Little4(b: seq<Byte>): Word
    requires |b| == 4
  {
    b[0] as int + 0x100 * (b[1] as int) + 0x1_0000 * (b[2] as int) + 0x100_0000 * (b[3] as int)
  }

  function Little8(b: seq<Byte>): Word
    requires |b| == 8
  {
    Little4(b[..4]) + 0x1_0000_0000 * Little4(b[4..])
  }

  // ---------- The steps of the specification ----------

  function Round(acc: Word, lane: Word): Word {
    Mul(Rotl(Add(acc, Mul(lane, PRIME_2)), 31), PRIME_1)
  }

  /** One accumulator over all stripes: it takes the n-th lane of each. */
  function Accumulate(acc: Word, data: seq<Byte>, n: nat): Word
    requires n < 4
    decreases |data|
  {
    if |data| < 32 then acc else Accumulate(Round(acc, Little8(data[8 * n..8 * n + 8])), data[32..], n)
  }

  function MergeAccumulator(h: Word, acc: Word): Word {
    Add(Mul(Mix(h, Round(0, acc)), PRIME_1), PRIME_4)
  }

  function Converge(a: Word, b: Word, c: Word, d: Word): Word {
    var h := Add(Add(Add(Rotl(a, 1), Rotl(b, 7)), Rotl(c, 12)), Rotl(d, 18));
    MergeAccumulator(MergeAccumulator(MergeAccumulator(MergeAccumulator(h, a), b), c), d)
  }

  /** What the stripes leave over. */
  function Leftover(data: seq<Byte>): seq<Byte>
    decreases |data|
  {
    if |data| < 32 then data else Leftover(data[32..])
  }

  function Consume(h: Word, rest: seq<Byte>): Word
    decreases |rest|
  {
    if |rest| >= 8 then
      Consume(Add(Mul(Rotl(Mix(h, Round(0, Little8(rest[..8]))), 27), PRIME_1), PRIME_4), rest[8..])
    else if |rest| >= 4 then
      Consume(Add(Mul(Rotl(Mix(h, Mul(Little4(rest[..4]), PRIME_1)), 23), PRIME_2), PRIME_3), rest[4..])
    else if |rest| >= 1 then
      Consume(Mul(Rotl(Mix(h, Mul(rest[0], PRIME_5)), 11), PRIME_1), rest[1..])
    else
      h
  }

  function Finalise(h: Word): Word {
    XorDown64(Mul(XorDown64(Mul(XorDown64(h, 33), PRIME_2), 29), PRIME_3), 32)
  }

  function Start(data: seq<Byte>, seed: Word): Word {
    if |data| < 32 then Add(seed, PRIME_5)
    else Converge(Accumulate(Add(Add(seed, PRIME_1), PRIME_2), data, 0),
                  Accumulate(Add(seed, PRIME_2), data, 1),
                  Accumulate(seed, data, 2),
                  Accumulate(Add(seed, 0x1_0000_0000_0000_0000 - PRIME_1), data, 3))
  }

  function Xxh64(data: seq<Byte>, seed: Word): Word
    requires |data| < 0x1_0000_0000_0000_0000
  {
    Finalise(Consume(Add(Start(data, seed), |data|), Leftover(data)))
  }

  // ---------- The hash of the source is this function ----------

  lemma Little4Is(b: seq<Byte>)
    requires |b| == 4
    ensures LittleEndian(b) == Little4(b)
  {
    Peel(b);
    Peel(b[1..]);
    Peel(b[1..][1..]);
    Peel(b[1..][1..][1..]);
  }

  lemma Little8Is(b: seq<Byte>)
    requires |b| == 8
    ensures Read64(b) == Little8(b)
  {
    Little4Is(b[4..]);
    Little4Is(b[..4]);
    Peel(b);
    Peel(b[1..]);
    Peel(b[1..][1..]);
    Peel(b[1..][1..][1..]);
    assert b[1..][1..][1..][1..] == b[4..];
  }

  lemma RoundIs(acc: Word, lane: Word)
    ensures XxHash.Round(acc, lane) == Round(acc, lane)
  {
  }

  lemma AddZero(x: Word)
    ensures Add(0, x) == x
  {
  }

  lemma RoundOfZero(w: Word)
    ensures Round(0, w) == Mul(Rotl(Mul(w, PRIME_2), 31), PRIME_1)
  {
    AddZero(Mul(w, PRIME_2));
  }

  lemma AbsorbIs8(h: Word, w: Word)
    ensures XxHash.Absorb(h, XxHash.Lane8(w)) == Add(Mul(Rotl(Mix(h, Round(0, w)), 27), PRIME_1), PRIME_4)
  {
    RoundOfZero(w);
  }

  lemma AbsorbIs4(h: Word, w: HalfWord)
    ensures XxHash.Absorb(h, XxHash.Lane4(w)) == Add(Mul(Rotl(Mix(h, Mul(w, PRIME_1)), 23), PRIME_2), PRIME_3)
  {
  }

  lemma AbsorbIs1(h: Word, w: Byte)
    ensures XxHash.Absorb(h, XxHash.Lane1(w)) == Mul(Rotl(Mix(h, Mul(w, PRIME_5)), 11), PRIME_1)
  {
  }

  lemma {:induction false} ConsumeIs(h: Word, rest: seq<Byte>)
    ensures XxHash.AbsorbAll(h, XxHash.TailLanes(rest)) == Consume(h, rest)
    decreases |rest|
  {
    if |rest| >= 8 {
      Little8Is(rest[..8]);
      AbsorbOne(h, XxHash.Lane8(Read64(rest[..8])), rest[8..]);
      AbsorbIs8(h, Little8(rest[..8]));
      ConsumeIs(XxHash.Absorb(h, XxHash.Lane8(Read64(rest[..8]))), rest[8..]);
    } else if |rest| >= 4 {
      Little4Is(rest[..4]);
      AbsorbOne(h, XxHash.Lane4(Read32(rest[..4])), rest[4..]);
      AbsorbIs4(h, Little4(rest[..4]));
      ConsumeIs(XxHash.Absorb(h, XxHash.Lane4(Read32(rest[..4]))), rest[4..]);
    } else if |rest| >= 1 {
      AbsorbOne(h, XxHash.Lane1(rest[0]), rest[1..]);
      AbsorbIs1(h, rest[0]);
      ConsumeIs(XxHash.Absorb(h, XxHash.Lane1(rest[0])), rest[1..]);
    }
  }

  lemma AbsorbOne(h: Word, lane: XxHash.Lane, rest: seq<Byte>)
    ensures XxHash.AbsorbAll(h, [lane] + XxHash.TailLanes(rest))
            == XxHash.AbsorbAll(XxHash.Absorb(h, lane), XxHash.TailLanes(rest))
  {
    assert ([lane] + XxHash.TailLanes(rest))[1..] == XxHash.TailLanes(rest);
  }

  lemma StripeIs(a: XxHash.Accumulators, b: seq<Byte>)
    requires |b| >= 32
    ensures XxHash.Stripe(a, b) == XxHash.Accumulators(
              Round(a.v1, Little8(b[..8])), Round(a.v2, Little8(b[8..16])),
              Round(a.v3, Little8(b[16..24])), Round(a.v4, Little8(b[24..32])))
  {
    Little8Is(b[..8]);
    Little8Is(b[8..16]);
    Little8Is(b[16..24]);
    Little8Is(b[24..32]);
    RoundIs(a.v1, Little8(b[..8]));
    RoundIs(a.v2, Little8(b[8..16]));
    RoundIs(a.v3, Little8(b[16..24]));
    RoundIs(a.v4, Little8(b[24..32]));
  }

  lemma {:induction false} AccumulateIs(a: XxHash.Accumulators, data: seq<Byte>)
    ensures XxHash.Stripes(a, data) == XxHash.Accumulators(
              Accumulate(a.v1, data, 0), Accumulate(a.v2, data, 1),
              Accumulate(a.v3, data, 2), Accumulate(a.v4, data, 3))
    decreases |data|
  {
    if |data| >= 32 {
      StripeIs(a, data);
      AccumulateIs(XxHash.Stripe(a, data), data[32..]);
    }
  }

  lemma MergeOneIs(h: Word, acc: Word)
    ensures XxHash.MergeOne(h, acc) == MergeAccumulator(h, acc)
  {
    RoundOfZero(acc);
  }

  lemma MergeIs(a: Word, b: Word, c: Word, d: Word)
    ensures XxHash.Merge(XxHash.Accumulators(a, b, c, d)) == Converge(a, b, c, d)
  {
    var h := Add(Add(Add(Rotl(a, 1), Rotl(b, 7)), Rotl(c, 12)), Rotl(d, 18));
    MergeOneIs(h, a);
    MergeOneIs(MergeAccumulator(h, a), b);
    MergeOneIs(MergeAccumulator(MergeAccumulator(h, a), b), c);
    MergeOneIs(MergeAccumulator(MergeAccumulator(MergeAccumulator(h, a), b), c), d);
  }

  lemma {:induction false} LeftoverIs(data: seq<Byte>)
    ensures data[XxHash.StripedLength(data)..] == Leftover(data)
    decreases |data|
  {
    if |data| >= 32 {
      LeftoverIs(data[32..]);
      assert data[32..][XxHash.StripedLength(data[32..])..] == data[XxHash.StripedLength(data)..];
    }
  }

  lemma StartIs(data: seq<Byte>, seed: Word)
    ensures XxHash.Head(data, seed) == Start(data, seed)
  {
    if |data| >= 32 {
      var s := XxHash.Start(seed);
      AccumulateIs(s, data);
      MergeIs(Accumulate(s.v1, data, 0), Accumulate(s.v2, data, 1),
              Accumulate(s.v3, data, 2), Accumulate(s.v4, data, 3));
    }
  }

  /** The hash of flatfs/hash.c is XXH64, for every input and seed. */
  lemma HashIsXxh64(data: seq<Byte>, seed: Word)
    requires |data| < 0x1_0000_0000_0000_0000
    ensures XxHash.Hash(data, seed) == Xxh64(data, seed)
  {
    StartIs(data, seed);
    LeftoverIs(data);
    var h := Add(Start(data, seed), |data|);
    ConsumeIs(h, Leftover(data));
  }

  /** The hash of a key of one byte, spelled out. */
  lemma OneByteHash(c: Byte, seed: Word)
    ensures var h := Add(Add(seed, 2870177450012600261), 1);
            XxHash.Hash([c], seed) == Finalise(Mul(Rotl(Mix(h, Mul(c, 2870177450012600261)), 11), 11400714785074694791))
  {
    HashIsXxh64([c], seed);
    ConsumeOne(Add(Add(seed, PRIME_5), 1), c);
  }

  lemma ConsumeOne(h: Word, c: Byte)
    ensures Consume(h, [c]) == Mul(Rotl(Mix(h, Mul(c, PRIME_5)), 11), PRIME_1)
  {
    assert [c][1..] == [];
  }
}
