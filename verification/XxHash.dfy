/**
  The string hash of flatfs/hash.c: four 64-bit accumulators over 32-byte stripes, then a tail of
  8-byte, 4-byte and 1-byte lanes, then an avalanche. `Hash` is the specification;
  `StringKeyHash` is the pointer-walking loop of the source.
 */
module XxHash {
  import opened Bits

  const P1: Word := 11400714785074694791
  const P2: Word := 14029467366897019727
  const P3: Word := 1609587929392839161
  const P4: Word := 9650029242287828579
  const P5: Word := 2870177450012600261

  // Inverses of the odd multipliers modulo 2^64.
  const P1_INVERSE: Word := 614540362697595703
  const P2_INVERSE: Word := 839798700976720815
  const P3_INVERSE: Word := 16855272203555305545
  const P5_INVERSE: Word := 14236653164957433613

  // ---------- Inverses of the odd multipliers ----------

  lemma OddMultipliers(x: Word)
    ensures Mul(Mul(x, P1), P1_INVERSE) == x && Mul(Mul(x, P1_INVERSE), P1) == x
    ensures Mul(Mul(x, P2), P2_INVERSE) == x && Mul(Mul(x, P2_INVERSE), P2) == x
    ensures Mul(Mul(x, P3), P3_INVERSE) == x && Mul(Mul(x, P3_INVERSE), P3) == x
    ensures Mul(Mul(x, P5), P5_INVERSE) == x
  {
    MulInverse(x, P1, P1_INVERSE, P1 * P1_INVERSE / WORD);
    MulInverse(x, P1_INVERSE, P1, P1 * P1_INVERSE / WORD);
    MulInverse(x, P2, P2_INVERSE, P2 * P2_INVERSE / WORD);
    MulInverse(x, P2_INVERSE, P2, P2 * P2_INVERSE / WORD);
    MulInverse(x, P3, P3_INVERSE, P3 * P3_INVERSE / WORD);
    MulInverse(x, P3_INVERSE, P3, P3 * P3_INVERSE / WORD);
    MulInverse(x, P5, P5_INVERSE, P5 * P5_INVERSE / WORD);
  }

  // ---------- The tail: lanes of 8, 4 and 1 bytes ----------

  datatype Lane = Lane8(w8: Word) | Lane4(w4: HalfWord) | Lane1(w1: Byte)

  /** The lanes of the tail, in the order the source consumes them. */
  function TailLanes(b: seq<Byte>): seq<Lane> {
    if |b| >= 8 then
      [Lane8(Read64(b[..8]))] + TailLanes(b[8..])
    else if |b| >= 4 then
      [Lane4(Read32(b[..4]))] + TailLanes(b[4..])
    else if |b| >= 1 then
      [Lane1(b[0])] + TailLanes(b[1..])
    else
      []
  }

  function LaneBytes(lane: Lane): seq<Byte> {
    match lane
    case Lane8(w) => BytesOf(w, 8)
    case Lane4(w) => BytesOf(w, 4)
    case Lane1(w) => [w]
  }

  function Unlanes(lanes: seq<Lane>): seq<Byte> {
    if |lanes| == 0 then [] else LaneBytes(lanes[0]) + Unlanes(lanes[1..])
  }

  /** Cutting the tail into lanes loses no byte, repeats none and keeps their order. */
  lemma {:induction false} UnlanesTailLanes(b: seq<Byte>)
    ensures Unlanes(TailLanes(b)) == b
    decreases |b|
  {
    if |b| >= 8 {
      BytesOfLittleEndian(b[..8]);
      UnlanesTailLanes(b[8..]);
    } else if |b| >= 4 {
      BytesOfLittleEndian(b[..4]);
      UnlanesTailLanes(b[4..]);
    } else if |b| >= 1 {
      UnlanesTailLanes(b[1..]);
    }
  }

  predicate SameShape(a: Lane, b: Lane) {
    a.Lane8? == b.Lane8? && a.Lane4? == b.Lane4?
  }

  lemma ShapesCons(k: Lane, l: Lane, x: seq<Lane>, y: seq<Lane>)
    requires |x| == |y| && SameShape(k, l) && forall i | 0 <= i < |x| :: SameShape(x[i], y[i])
    ensures |[k] + x| == |[l] + y|
    ensures forall i | 0 <= i < |[k] + x| :: SameShape(([k] + x)[i], ([l] + y)[i])
  {
  }

  lemma {:induction false} LaneShapeFollowsLength(a: seq<Byte>, b: seq<Byte>)
    requires |a| == |b|
    ensures |TailLanes(a)| == |TailLanes(b)|
    ensures forall i | 0 <= i < |TailLanes(a)| :: SameShape(TailLanes(a)[i], TailLanes(b)[i])
    decreases |a|
  {
    if |a| >= 8 {
      LaneShapeFollowsLength(a[8..], b[8..]);
      ShapesCons(Lane8(Read64(a[..8])), Lane8(Read64(b[..8])), TailLanes(a[8..]), TailLanes(b[8..]));
    } else if |a| >= 4 {
      LaneShapeFollowsLength(a[4..], b[4..]);
      ShapesCons(Lane4(Read32(a[..4])), Lane4(Read32(b[..4])), TailLanes(a[4..]), TailLanes(b[4..]));
    } else if |a| >= 1 {
      LaneShapeFollowsLength(a[1..], b[1..]);
      ShapesCons(Lane1(a[0]), Lane1(b[0]), TailLanes(a[1..]), TailLanes(b[1..]));
    }
  }

  /** What a lane contributes: the value that is xor-ed into the running hash. */
  function Spread(lane: Lane): Word {
    match lane
    case Lane8(w) => Mul(Rotl(Mul(w, P2), 31), P1)
    case Lane4(w) => Mul(w, P1)
    case Lane1(w) => Mul(w, P5)
  }

  /** The step that follows the xor, for the given kind of lane. */
  function Scramble(x: Word, lane: Lane): Word {
    match lane
    case Lane8(_) => Add(Mul(Rotl(x, 27), P1), P4)
    case Lane4(_) => Add(Mul(Rotl(x, 23), P2), P3)
    case Lane1(_) => Mul(Rotl(x, 11), P1)
  }

  function Unscramble(y: Word, lane: Lane): Word {
    match lane
    case Lane8(_) => Rotl(Mul(Add(y, WORD - P4), P1_INVERSE), 37)
    case Lane4(_) => Rotl(Mul(Add(y, WORD - P3), P2_INVERSE), 41)
    case Lane1(_) => Rotl(Mul(y, P1_INVERSE), 53)
  }

  function Absorb(h: Word, lane: Lane): Word {
    Scramble(Mix(h, Spread(lane)), lane)
  }

  function Release(h: Word, lane: Lane): Word {
    Mix(Unscramble(h, lane), Spread(lane))
  }

  lemma UnscrambleScramble(x: Word, lane: Lane)
    ensures Unscramble(Scramble(x, lane), lane) == x
  {
    match lane
    case Lane8(_) =>
      AddInverse(Mul(Rotl(x, 27), P1), P4);
      OddMultipliers(Rotl(x, 27));
      RotlInverse(x, 27);
    case Lane4(_) =>
      AddInverse(Mul(Rotl(x, 23), P2), P3);
      OddMultipliers(Rotl(x, 23));
      RotlInverse(x, 23);
    case Lane1(_) =>
      OddMultipliers(Rotl(x, 11));
      RotlInverse(x, 11);
  }

  lemma ScrambleUnscramble(y: Word, lane: Lane)
    ensures Scramble(Unscramble(y, lane), lane) == y
  {
    match lane
    case Lane8(_) =>
      var z := Add(y, WORD - P4);
      AddInverse(y, P4);
      OddMultipliers(z);
      RotlInverse(Mul(z, P1_INVERSE), 37);
    case Lane4(_) =>
      var z := Add(y, WORD - P3);
      AddInverse(y, P3);
      OddMultipliers(z);
      RotlInverse(Mul(z, P2_INVERSE), 41);
    case Lane1(_) =>
      OddMultipliers(y);
      RotlInverse(Mul(y, P1_INVERSE), 53);
  }

  lemma ReleaseAbsorb(h: Word, lane: Lane)
    ensures Release(Absorb(h, lane), lane) == h
  {
    UnscrambleScramble(Mix(h, Spread(lane)), lane);
    XorCancel(h, Spread(lane));
  }

  lemma AbsorbRelease(h: Word, lane: Lane)
    ensures Absorb(Release(h, lane), lane) == h
  {
    XorCancel(Unscramble(h, lane), Spread(lane));
    ScrambleUnscramble(h, lane);
  }

  lemma SpreadInjective(a: Lane, b: Lane)
    requires SameShape(a, b) && Spread(a) == Spread(b)
    ensures a == b
  {
    match a
    case Lane8(w) =>
      OddMultipliers(w);
      OddMultipliers(b.w8);
      OddMultipliers(Rotl(Mul(w, P2), 31));
      OddMultipliers(Rotl(Mul(b.w8, P2), 31));
      RotlInverse(Mul(w, P2), 31);
      RotlInverse(Mul(b.w8, P2), 31);
    case Lane4(w) =>
      OddMultipliers(w);
      OddMultipliers(b.w4);
    case Lane1(w) =>
      OddMultipliers(w);
      OddMultipliers(b.w1);
  }

  /** From one running value, two lanes of one kind lead to the same next value only if equal. */
  lemma AbsorbInjectiveInLane(h: Word, a: Lane, b: Lane)
    requires SameShape(a, b) && Absorb(h, a) == Absorb(h, b)
    ensures a == b
  {
    var x, y := Mix(h, Spread(a)), Mix(h, Spread(b));
    assert Scramble(y, a) == Scramble(y, b);
    UnscrambleScramble(x, a);
    UnscrambleScramble(y, a);
    XorCommutes(h, Spread(a));
    XorCommutes(h, Spread(b));
    XorCancel(Spread(a), h);
    XorCancel(Spread(b), h);
    SpreadInjective(a, b);
  }

  function AbsorbAll(h: Word, lanes: seq<Lane>): Word
    decreases |lanes|
  {
    if |lanes| == 0 then h else AbsorbAll(Absorb(h, lanes[0]), lanes[1..])
  }

  function ReleaseAll(h: Word, lanes: seq<Lane>): Word
    decreases |lanes|
  {
    if |lanes| == 0 then h else Release(ReleaseAll(h, lanes[1..]), lanes[0])
  }

  lemma {:induction false} ReleaseAbsorbAll(h: Word, lanes: seq<Lane>)
    ensures ReleaseAll(AbsorbAll(h, lanes), lanes) == h
    decreases |lanes|
  {
    if |lanes| > 0 {
      ReleaseAbsorbAll(Absorb(h, lanes[0]), lanes[1..]);
      ReleaseAbsorb(h, lanes[0]);
    }
  }

  lemma {:induction false} AbsorbReleaseAll(h: Word, lanes: seq<Lane>)
    ensures AbsorbAll(ReleaseAll(h, lanes), lanes) == h
    decreases |lanes|
  {
    if |lanes| > 0 {
      AbsorbReleaseAll(h, lanes[1..]);
      AbsorbRelease(ReleaseAll(h, lanes[1..]), lanes[0]);
    }
  }

  /** The running value after every lane from p on has been absorbed. */
  function TailHash(h: Word, data: seq<Byte>, p: nat): Word
    requires p <= |data|
  {
    AbsorbAll(h, TailLanes(data[p..]))
  }

  // ---------- The avalanche ----------

  function Avalanche(h: Word): Word {
    XorDown64(Mul(XorDown64(Mul(XorDown64(h, 33), P2), 29), P3), 32)
  }

  function UnAvalanche(h: Word): Word {
    UnXorDown64(Mul(UnXorDown64(Mul(UnXorDown64(h, 32), P3_INVERSE), 29), P2_INVERSE), 33)
  }

  lemma UnAvalancheAvalanche(h: Word)
    ensures UnAvalanche(Avalanche(h)) == h
  {
    var a := XorDown64(h, 33);
    var b := XorDown64(Mul(a, P2), 29);
    XorDownInverse(Mul(b, P3), 32);
    OddMultipliers(b);
    XorDownInverse(Mul(a, P2), 29);
    OddMultipliers(a);
    XorDownInverse(h, 33);
  }

  lemma AvalancheUnAvalanche(h: Word)
    ensures Avalanche(UnAvalanche(h)) == h
  {
    var a := UnXorDown64(h, 32);
    var b := UnXorDown64(Mul(a, P3_INVERSE), 29);
    UnXorDownInverse(Mul(b, P2_INVERSE), 33);
    OddMultipliers(b);
    UnXorDownInverse(Mul(a, P3_INVERSE), 29);
    OddMultipliers(a);
    UnXorDownInverse(h, 32);
  }

  // ---------- The 32-byte stripes ----------

  datatype Accumulators = Accumulators(v1: Word, v2: Word, v3: Word, v4: Word)

  function Round(v: Word, lane: Word): Word {
    Mul(Rotl(Add(v, Mul(lane, P2)), 31), P1)
  }

  function Start(seed: Word): Accumulators {
    Accumulators(Add(Add(seed, P1), P2), Add(seed, P2), seed, Add(seed, WORD - P1))
  }

  function Stripe(a: Accumulators, b: seq<Byte>): Accumulators
    requires |b| >= 32
  {
    Accumulators(Round(a.v1, Read64(b[..8])), Round(a.v2, Read64(b[8..16])),
                 Round(a.v3, Read64(b[16..24])), Round(a.v4, Read64(b[24..32])))
  }

  function Stripes(a: Accumulators, b: seq<Byte>): Accumulators
    decreases |b|
  {
    if |b| < 32 then a else Stripes(Stripe(a, b), b[32..])
  }

  function MergeOne(h: Word, v: Word): Word {
    Add(Mul(Mix(h, Mul(Rotl(Mul(v, P2), 31), P1)), P1), P4)
  }

  function Merge(a: Accumulators): Word {
    var h := Add(Add(Add(Rotl(a.v1, 1), Rotl(a.v2, 7)), Rotl(a.v3, 12)), Rotl(a.v4, 18));
    MergeOne(MergeOne(MergeOne(MergeOne(h, a.v1), a.v2), a.v3), a.v4)
  }

  // ---------- The whole hash ----------

  /** How many leading bytes the stripes consume. */
  function StripedLength(b: seq<Byte>): (n: nat)
    ensures n <= |b|
  {
    if |b| < 32 then 0 else 32 + StripedLength(b[32..])
  }

  function Head(data: seq<Byte>, seed: Word): Word {
    if |data| >= 32 then Merge(Stripes(Start(seed), data)) else Add(seed, P5)
  }

  function Hash(data: seq<Byte>, seed: Word): Word
    requires |data| < WORD
  {
    Avalanche(TailHash(Add(Head(data, seed), |data|), data, StripedLength(data)))
  }

  // ---------- The hash as a bijection of its seed ----------

  /** The seed that sends a short input to the given hash value. */
  function SeedFor(data: seq<Byte>, h: Word): Word
    requires |data| < 32
  {
    var x := ReleaseAll(UnAvalanche(h), TailLanes(data));
    var y := if |data| == 0 then x else Add(x, WORD - |data|);
    Add(y, WORD - P5)
  }

  /**
    For inputs shorter than a stripe the hash is a bijection of the seed: `SeedFor` is its
    two-sided inverse.
   */
  lemma ShortHashIsBijectionOfSeed(data: seq<Byte>, seed: Word, h: Word)
    requires |data| < 32
    ensures Hash(data, seed) == h <==> seed == SeedFor(data, h)
  {
    var lanes := TailLanes(data);
    assert data[StripedLength(data)..] == data;
    if Hash(data, seed) == h {
      var x := Add(Add(seed, P5), |data|);
      UnAvalancheAvalanche(AbsorbAll(x, lanes));
      ReleaseAbsorbAll(x, lanes);
      UndoOffsets(seed, |data|);
    }
    if seed == SeedFor(data, h) {
      var x := ReleaseAll(UnAvalanche(h), lanes);
      RedoOffsets(x, |data|);
      AbsorbReleaseAll(UnAvalanche(h), lanes);
      AvalancheUnAvalanche(h);
    }
  }

  lemma UndoOffsets(seed: Word, n: nat)
    requires n < 32
    ensures var x := Add(Add(seed, P5), n);
            Add(if n == 0 then x else Add(x, WORD - n), WORD - P5) == seed
  {
    AddInverse(seed, P5);
    if n > 0 {
      AddInverse(Add(seed, P5), n);
    }
  }

  lemma RedoOffsets(x: Word, n: nat)
    requires n < 32
    ensures Add(Add(Add(if n == 0 then x else Add(x, WORD - n), WORD - P5), P5), n) == x
  {
    AddInverse(if n == 0 then x else Add(x, WORD - n), P5);
    if n > 0 {
      AddInverse(x, n);
    }
  }

  /** Two seeds give a short key two different hash values exactly when the seeds differ. */
  lemma SeedsSeparateShortKeys(data: seq<Byte>, fSeed: Word, sSeed: Word)
    requires |data| < 32
    ensures Hash(data, fSeed) == Hash(data, sSeed) <==> fSeed == sSeed
  {
    ShortHashIsBijectionOfSeed(data, fSeed, Hash(data, fSeed));
    ShortHashIsBijectionOfSeed(data, sSeed, Hash(data, fSeed));
  }

  // ---------- Injectivity in one tail lane ----------

  lemma {:induction false} AbsorbAllInjectiveInOneLane(h: Word, a: seq<Lane>, b: seq<Lane>, i: nat)
    requires |a| == |b| && i < |a|
    requires forall j | 0 <= j < |a| && j != i :: a[j] == b[j]
    requires SameShape(a[i], b[i])
    requires AbsorbAll(h, a) == AbsorbAll(h, b)
    ensures a == b
    decreases |a|
  {
    if i == 0 {
      var x, y := Absorb(h, a[0]), Absorb(h, b[0]);
      assert a[1..] == b[1..];
      ReleaseAbsorbAll(x, a[1..]);
      ReleaseAbsorbAll(y, a[1..]);
      AbsorbInjectiveInLane(h, a[0], b[0]);
    } else {
      AbsorbAllInjectiveInOneLane(Absorb(h, a[0]), a[1..], b[1..], i - 1);
    }
    SameHeadAndTail(a, b);
  }

  lemma SameHeadAndTail(a: seq<Lane>, b: seq<Lane>)
    requires |a| == |b| > 0 && a[0] == b[0] && a[1..] == b[1..]
    ensures a == b
  {
    assert a == [a[0]] + a[1..] && b == [b[0]] + b[1..];
  }

  lemma StripeReadsItsBytes(acc: Accumulators, a: seq<Byte>, b: seq<Byte>)
    requires |a| >= 32 && |b| >= 32 && a[..32] == b[..32]
    ensures Stripe(acc, a) == Stripe(acc, b)
  {
    assert a[..8] == a[..32][..8] == b[..32][..8] == b[..8];
    assert a[8..16] == a[..32][8..16] == b[..32][8..16] == b[8..16];
    assert a[16..24] == a[..32][16..24] == b[..32][16..24] == b[16..24];
    assert a[24..32] == a[..32][24..32] == b[..32][24..32] == b[24..32];
  }

  lemma {:induction false} StripesReadOnlyTheStripedPart(acc: Accumulators, a: seq<Byte>, b: seq<Byte>)
    requires |a| == |b| && a[..StripedLength(a)] == b[..StripedLength(b)]
    ensures StripedLength(a) == StripedLength(b) && Stripes(acc, a) == Stripes(acc, b)
    decreases |a|
  {
    if |a| >= 32 {
      assert a[..32] == a[..StripedLength(a)][..32] == b[..StripedLength(b)][..32] == b[..32];
      StripeReadsItsBytes(acc, a, b);
      assert a[32..][..StripedLength(a[32..])] == a[..StripedLength(a)][32..];
      assert b[32..][..StripedLength(b[32..])] == b[..StripedLength(b)][32..];
      StripesReadOnlyTheStripedPart(Stripe(acc, a), a[32..], b[32..]);
    }
  }

  lemma SameHead(a: seq<Byte>, b: seq<Byte>, seed: Word)
    requires |a| == |b| && Stripes(Start(seed), a) == Stripes(Start(seed), b)
    ensures Head(a, seed) == Head(b, seed)
  {
  }

  lemma SamePieces(a: seq<Byte>, b: seq<Byte>, k: nat)
    requires k <= |a| && k <= |b| && a[..k] == b[..k] && a[k..] == b[k..]
    ensures a == b
  {
    assert a == a[..k] + a[k..] && b == b[..k] + b[k..];
  }

  /**
    Two inputs of one length that agree on the striped part and on every tail lane but one
    collide only if they are equal.
   */
  lemma NoCollisionInOneTailLane(a: seq<Byte>, b: seq<Byte>, seed: Word, i: nat)
    requires |a| == |b| < WORD && a[..StripedLength(a)] == b[..StripedLength(b)]
    requires var la, lb := TailLanes(a[StripedLength(a)..]), TailLanes(b[StripedLength(b)..]);
             i < |la| && forall j | 0 <= j < |la| && j < |lb| && j != i :: la[j] == lb[j]
    ensures Hash(a, seed) == Hash(b, seed) <==> a == b
  {
    StripesReadOnlyTheStripedPart(Start(seed), a, b);
    SameHead(a, b, seed);
    if Hash(a, seed) == Hash(b, seed) {
      NoTailCollision(Add(Head(a, seed), |a|), a[StripedLength(a)..], b[StripedLength(b)..], i);
      SamePieces(a, b, StripedLength(a));
    }
  }

  lemma NoTailCollision(h: Word, a: seq<Byte>, b: seq<Byte>, i: nat)
    requires |a| == |b| && i < |TailLanes(a)|
    requires forall j | 0 <= j < |TailLanes(a)| && j < |TailLanes(b)| && j != i :: TailLanes(a)[j] == TailLanes(b)[j]
    requires Avalanche(AbsorbAll(h, TailLanes(a))) == Avalanche(AbsorbAll(h, TailLanes(b)))
    ensures a == b
  {
    UnAvalancheAvalanche(AbsorbAll(h, TailLanes(a)));
    UnAvalancheAvalanche(AbsorbAll(h, TailLanes(b)));
    LaneShapeFollowsLength(a, b);
    AbsorbAllInjectiveInOneLane(h, TailLanes(a), TailLanes(b), i);
    UnlanesTailLanes(a);
    UnlanesTailLanes(b);
  }

  // ---------- The loop of the source ----------

  lemma Rejoin(s: seq<Byte>, i: nat, j: nat, k: nat)
    requires i <= j <= k <= |s|
    ensures s[i..j] + s[j..k] == s[i..k]
    ensures s[..j] == s[0..j] && s[j..] == s[j..|s|] && s[0..|s|] == s
    ensures k == j + 1 ==> s[j..k] == [s[j]]
  {
  }

  /**
    `string_key_hash_computation`: the pointer p runs over the data; every read lies inside it.
    `consumed` collects the bytes in the order they are read.
   */
  method StringKeyHash(data: seq<Byte>, seed: Word) returns (hash: Word, ghost consumed: seq<Byte>)
    requires |data| < WORD
    ensures hash == Hash(data, seed)
    ensures consumed == data
  {
    var p;
    ghost var tail;
    hash, p, consumed := HashHead(data, seed);
    hash, tail := AbsorbTail(Add(hash, |data|), data, p);
    consumed := consumed + tail;
    Rejoin(data, 0, p, |data|);
    hash := Finish(hash);
  }

  /** Everything before the length is added: the stripes, or the seed alone for a short input. */
  method HashHead(data: seq<Byte>, seed: Word) returns (hash: Word, p: nat, ghost consumed: seq<Byte>)
    ensures p == StripedLength(data) && hash == Head(data, seed) && consumed == data[..p]
  {
    if |data| >= 32 {
      hash, p, consumed := HashStripes(data, seed);
    } else {
      hash, p, consumed := Add(seed, P5), 0, [];
    }
  }

  /** The 8-byte loop, the 4-byte step and the byte loop, from `start` to the end of the data. */
  method AbsorbTail(h: Word, data: seq<Byte>, start: nat) returns (hash: Word, ghost consumed: seq<Byte>)
    requires start <= |data|
    ensures hash == TailHash(h, data, start)
    ensures consumed == data[start..]
  {
    var p;
    ghost var half, bytes;
    hash, p, consumed := AbsorbWords(h, data, start);
    hash, p, half := AbsorbHalfWord(hash, data, p);
    hash, bytes := AbsorbBytes(hash, data, p);
    consumed := consumed + half + bytes;
    Rejoin(data, start, p - |half|, p);
    Rejoin(data, start, p, |data|);
  }

  method AbsorbHalfWord(h: Word, data: seq<Byte>, start: nat) returns (hash: Word, p: nat, ghost consumed: seq<Byte>)
    requires start <= |data| < start + 8
    ensures start <= p <= |data| < p + 4
    ensures TailHash(hash, data, p) == TailHash(h, data, start)
    ensures consumed == data[start..p]
  {
    hash, p, consumed := h, start, [];
    if p + 4 <= |data| {
      consumed := data[p..p + 4];
      hash := AbsorbWord4(hash, data, p);
      p := p + 4;
    }
  }

  method AbsorbWords(h: Word, data: seq<Byte>, start: nat) returns (hash: Word, p: nat, ghost consumed: seq<Byte>)
    requires start <= |data|
    ensures start <= p <= |data| < p + 8
    ensures TailHash(hash, data, p) == TailHash(h, data, start)
    ensures consumed == data[start..p]
  {
    hash, p, consumed := h, start, [];
    while p + 8 <= |data|
      invariant start <= p <= |data| && consumed == data[start..p]
      invariant TailHash(hash, data, p) == TailHash(h, data, start)
    {
      consumed := consumed + data[p..p + 8];
      Rejoin(data, start, p, p + 8);
      hash := AbsorbWord8(hash, data, p);
      p := p + 8;
    }
  }

  method AbsorbBytes(h: Word, data: seq<Byte>, start: nat) returns (hash: Word, ghost consumed: seq<Byte>)
    requires start <= |data| < start + 4
    ensures hash == TailHash(h, data, start)
    ensures consumed == data[start..]
  {
    var p := start;
    hash, consumed := h, [];
    while p < |data|
      invariant start <= p <= |data| && consumed == data[start..p]
      invariant TailHash(hash, data, p) == TailHash(h, data, start)
    {
      consumed := consumed + [data[p]];
      Rejoin(data, start, p, p + 1);
      hash := AbsorbByte(hash, data, p);
      p := p + 1;
    }
  }

  /** One turn of the 8-byte loop: what is left to absorb after p + 8 completes what was left at p. */
  method AbsorbWord8(h: Word, data: seq<Byte>, p: nat) returns (hash: Word)
    requires p + 8 <= |data|
    ensures TailHash(hash, data, p + 8) == TailHash(h, data, p)
  {
    var k1 := Read64(data[p..p + 8]);
    k1 := Mul(k1, P2);
    k1 := Rotl(k1, 31);
    k1 := Mul(k1, P1);
    hash := Mix(h, k1);
    hash := Add(Mul(Rotl(hash, 27), P1), P4);
    AbsorbHead(h, data, p);
  }

  method AbsorbWord4(h: Word, data: seq<Byte>, p: nat) returns (hash: Word)
    requires p + 4 <= |data| < p + 8
    ensures TailHash(hash, data, p + 4) == TailHash(h, data, p)
  {
    hash := Mix(h, Mul(Read32(data[p..p + 4]), P1));
    hash := Add(Mul(Rotl(hash, 23), P2), P3);
    AbsorbHead(h, data, p);
  }

  method AbsorbByte(h: Word, data: seq<Byte>, p: nat) returns (hash: Word)
    requires p < |data| < p + 4
    ensures TailHash(hash, data, p + 1) == TailHash(h, data, p)
  {
    hash := Mix(h, Mul(data[p], P5));
    hash := Mul(Rotl(hash, 11), P1);
    AbsorbHead(h, data, p);
  }

  method Finish(h: Word) returns (hash: Word)
    ensures hash == Avalanche(h)
  {
    hash := XorDown64(h, 33);
    hash := Mul(hash, P2);
    hash := XorDown64(hash, 29);
    hash := Mul(hash, P3);
    hash := XorDown64(hash, 32);
  }

  function HeadLane(b: seq<Byte>): Lane
    requires |b| > 0
  {
    if |b| >= 8 then Lane8(Read64(b[..8])) else if |b| >= 4 then Lane4(Read32(b[..4])) else Lane1(b[0])
  }

  /** Absorbing the lanes from p on is absorbing the lane at p, then those after it. */
  lemma AbsorbHead(h: Word, data: seq<Byte>, p: nat)
    requires p < |data|
    ensures var n := if |data| - p >= 8 then 8 else if |data| - p >= 4 then 4 else 1;
            && TailHash(h, data, p) == TailHash(Absorb(h, HeadLane(data[p..])), data, p + n)
            && data[p..][..n] == data[p..p + n]
  {
    var b := data[p..];
    var n := if |b| >= 8 then 8 else if |b| >= 4 then 4 else 1;
    assert b[n..] == data[p + n..];
    assert TailLanes(b) == [HeadLane(b)] + TailLanes(b[n..]);
    assert TailLanes(b)[1..] == TailLanes(b[n..]);
  }

  /** The do-while over whole stripes; p stops where fewer than 32 bytes remain. */
  method HashStripes(data: seq<Byte>, seed: Word) returns (hash: Word, p: nat, ghost consumed: seq<Byte>)
    requires |data| >= 32
    ensures p == StripedLength(data) && hash == Head(data, seed) && consumed == data[..p]
  {
    var acc := Start(seed);
    var limitation := |data| - 32;
    ghost var read;
    p, consumed := 0, [];
    assert data[0..] == data;
    while p <= limitation
      invariant 0 <= p <= |data| && consumed == data[..p]
      invariant p + StripedLength(data[p..]) == StripedLength(data)
      invariant Stripes(acc, data[p..]) == Stripes(Start(seed), data)
    {
      assert data[p..][32..] == data[p + 32..];
      acc, read := AbsorbStripe(acc, data, p);
      consumed := consumed + read;
      Rejoin(data, 0, p, p + 32);
      p := p + 32;
    }
    hash := Merge(acc);
  }

  method AbsorbStripe(acc: Accumulators, data: seq<Byte>, start: nat)
    returns (next: Accumulators, ghost consumed: seq<Byte>)
    requires start + 32 <= |data|
    ensures next == Stripe(acc, data[start..])
    ensures consumed == data[start..start + 32]
  {
    ghost var b := data[start..];
    assert b[..8] == data[start..start + 8] && b[8..16] == data[start + 8..start + 16];
    assert b[16..24] == data[start + 16..start + 24] && b[24..32] == data[start + 24..start + 32];
    var Accumulators(v1, v2, v3, v4) := acc;
    var p := start;
    v1, consumed := Round(v1, Read64(data[p..p + 8])), data[p..p + 8];
    p := p + 8;
    v2, consumed := Round(v2, Read64(data[p..p + 8])), consumed + data[p..p + 8];
    p := p + 8;
    v3, consumed := Round(v3, Read64(data[p..p + 8])), consumed + data[p..p + 8];
    p := p + 8;
    v4, consumed := Round(v4, Read64(data[p..p + 8])), consumed + data[p..p + 8];
    next := Accumulators(v1, v2, v3, v4);
  }
}
