/**
  The name hash of flatfs/lba.c. Its loop wraps around modulo 2 to the power 32, yet the buckets it
  selects are those of the exact integer polynomial, for names of any length.
 */
module BkdrHash {
  import opened Bits
  import FlatAddress

  const SEED: nat := 131

  /** `char` is signed here; the NUL that ends a string is not part of the sequence. */
  type Char = c: int | -128 <= c < 128 && c != 0 witness 1

  function Power(n: nat): nat {
    if n == 0 then 1 else SEED * Power(n - 1)
  }

  /** The characters as digits of an integer in base 131, the first one the most significant. */
  function Poly(s: seq<Char>): int {
    if s == [] then 0 else s[0] * Power(|s| - 1) + Poly(s[1..])
  }

  /** Horner's rule. */
  lemma {:induction false} PolyAppend(s: seq<Char>, c: Char)
    ensures Poly(s + [c]) == SEED * Poly(s) + c
    decreases |s|
  {
    if s == [] {
      assert [c][1..] == [];
    } else {
      PolyAppend(s[1..], c);
      assert (s + [c])[1..] == s[1..] + [c];
      assert s[0] * (SEED * Power(|s| - 1)) == SEED * (s[0] * Power(|s| - 1));
    }
  }

  /** The name as a number in base 131, read from the left. */
  function Base131(s: seq<Char>): int {
    if s == [] then 0 else 131 * Base131(s[..|s| - 1]) + s[|s| - 1]
  }

  lemma {:induction false} PolyIsBase131(s: seq<Char>)
    ensures Poly(s) == Base131(s)
    decreases |s|
  {
    if s != [] {
      var init, last := s[..|s| - 1], s[|s| - 1];
      PolyIsBase131(init);
      PolyAppend(init, last);
      assert s == init + [last];
    }
  }

  /** One wrapped step agrees with the exact step modulo 2 to the power 32. */
  lemma WrappedStep(p: int, c: Char)
    ensures (p % 0x1_0000_0000 * SEED + c) % 0x1_0000_0000 == (SEED * p + c) % 0x1_0000_0000
  {
    var q, r := p / 0x1_0000_0000, p % 0x1_0000_0000;
    var e := SEED * r + c;
    assert SEED * p + c == (SEED * q + e / 0x1_0000_0000) * 0x1_0000_0000 + e % 0x1_0000_0000;
    DivUnique(SEED * p + c, 0x1_0000_0000, SEED * q + e / 0x1_0000_0000, e % 0x1_0000_0000);
  }

  /** `hash & 0x7FFFFFFF`. */
  lemma MaskSign(h: HalfWord)
    ensures And(h, 0x7FFF_FFFF) == h % 0x8000_0000
  {
    Pow2Values();
    AndMask(h, 31);
  }

  method BKDRHash(str: seq<Char>) returns (r: HalfWord)
    ensures r == Poly(str) % 0x8000_0000 == Base131(str) % 0x8000_0000
  {
    PolyIsBase131(str);
    var hash: HalfWord := 0;
    var i := 0;
    while i < |str|
      invariant i <= |str| && hash == Poly(str[..i]) % 0x1_0000_0000
    {
      PolyAppend(str[..i], str[i]);
      assert str[..i + 1] == str[..i] + [str[i]];
      WrappedStep(Poly(str[..i]), str[i]);
      hash := (hash * SEED + str[i]) % 0x1_0000_0000;
      i := i + 1;
    }
    assert str[..i] == str;
    MaskSign(hash);
    Halve(Poly(str));
    r := And(hash, 0x7FFF_FFFF);
  }

  lemma Halve(p: int)
    ensures p % 0x1_0000_0000 % 0x8000_0000 == p % 0x8000_0000
  {
  }

  // ---------- Buckets ----------

  /** The bucket of the base table: the hash and MIN_FILE_BUCKET_BITS ones. */
  function Bucket(hash: nat): nat { And(hash, Pow2(FlatAddress.MIN_FILE_BUCKET_BITS) - 1) }

  /** The bucket of the expanded table. */
  function BigBucket(hash: nat): nat {
    And(hash, Pow2(FlatAddress.MIN_FILE_BUCKET_BITS + FlatAddress.MIN_DIR_BITS) - 1)
  }

  lemma BucketIsMod(h: nat)
    ensures Bucket(h) == h % 4096
  {
    Pow2Values();
    AndMask(h, 12);
  }

  lemma BigBucketIsMod(h: nat)
    ensures BigBucket(h) == h % 0x4_0000
  {
    assert Pow2(18) == 0x4_0000 by {
      Pow2Values();
      Pow2Add(15, 3);
    }
    AndMask(h, 18);
  }

  lemma ModOfMod(p: int, k: nat, n: nat)
    requires k > 0 && n > 0 && k * n > 0
    ensures p % (k * n) % n == p % n
  {
    var q, r := p / (k * n), p % (k * n);
    assert p == (q * k + r / n) * n + r % n by {
      assert q * (k * n) == q * k * n;
    }
    DivUnique(p, n, q * k + r / n, r % n);
  }

  lemma ModMod(p: int)
    ensures p % 0x8000_0000 % 4096 == p % 4096
    ensures p % 0x8000_0000 % 0x4_0000 == p % 0x4_0000
    ensures p % 0x4_0000 % 4096 == p % 4096
  {
    ModOfMod(p, 0x8_0000, 4096);
    ModOfMod(p, 0x2000, 0x4_0000);
    ModOfMod(p, 64, 4096);
  }

  /** Both tables see the exact polynomial: the wrap-around of the hash is invisible in the buckets. */
  lemma BucketsAreExact(s: seq<Char>)
    ensures Bucket(Poly(s) % 0x8000_0000) == Poly(s) % 4096
    ensures BigBucket(Poly(s) % 0x8000_0000) == Poly(s) % 0x4_0000
    ensures Poly(s) == Base131(s)
  {
    PolyIsBase131(s);
    BucketIsMod(Poly(s) % 0x8000_0000);
    BigBucketIsMod(Poly(s) % 0x8000_0000);
    ModMod(Poly(s));
  }

  /** The bucket of the expanded table reduces to the bucket of the base table. */
  lemma ExpandedBucketRefinesBase(s: seq<Char>)
    ensures BigBucket(Poly(s) % 0x8000_0000) % 4096 == Bucket(Poly(s) % 0x8000_0000)
  {
    BucketsAreExact(s);
    ModMod(Poly(s));
  }
}
