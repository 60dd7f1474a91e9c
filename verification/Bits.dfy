/**
  Unsigned machine arithmetic on natural numbers: the bitwise operators of C, defined bit by bit,
  and the 64-bit operations the hash and the address packing are made of. Keeping words as
  numbers lets shifts and products be reasoned about arithmetically.
 */
module Bits {

  /** 2 to the power 64: the modulus of `unsigned long` arithmetic. */
  const WORD: nat := 0x1_0000_0000_0000_0000

  type Byte = x: int | 0 <= x < 256
  type HalfWord = x: int | 0 <= x < 0x1_0000_0000
  type Word = x: int | 0 <= x < 0x1_0000_0000_0000_0000

  function Min(a: nat, b: nat): nat { if a <= b then a else b }

  function Pow2(k: nat): (p: nat)
    ensures p > 0
  {
    if k == 0 then 1 else 2 * Pow2(k - 1)
  }

  lemma {:induction false} Pow2Add(a: nat, b: nat)
    ensures Pow2(a + b) == Pow2(a) * Pow2(b)
  {
    if a == 0 {
      assert Pow2(0) * Pow2(b) == Pow2(b);
    } else {
      Pow2Add(a - 1, b);
      assert 2 * (Pow2(a - 1) * Pow2(b)) == (2 * Pow2(a - 1)) * Pow2(b);
    }
  }

  lemma Pow2Values()
    ensures Pow2(3) == 8 && Pow2(12) == 4096 && Pow2(15) == 32768 && Pow2(20) == 0x10_0000
    ensures Pow2(32) == 0x1_0000_0000 && Pow2(64) == WORD
  {
    assert Pow2(1) == 2;
    assert Pow2(3) == 2 * Pow2(2) == 8;
    assert Pow2(4) == 2 * Pow2(3);
    Pow2Add(4, 4);
    Pow2Add(4, 8);
    Pow2Add(3, 12);
    Pow2Add(8, 12);
    Pow2Add(12, 20);
    Pow2Add(32, 32);
  }

  // ---------- Shifts ----------

  function Shl(a: nat, k: nat): nat
    decreases k
  {
    if k == 0 then a else 2 * Shl(a, k - 1)
  }

  lemma {:induction false} ShlIsMul(a: nat, k: nat)
    ensures Shl(a, k) == a * Pow2(k)
    decreases k
  {
    if k != 0 {
      ShlIsMul(a, k - 1);
    }
  }

  function Shr(a: nat, k: nat): nat
    decreases k
  {
    if k == 0 then a else Shr(a / 2, k - 1)
  }

  lemma {:induction false} ShrIsDiv(a: nat, k: nat)
    ensures Shr(a, k) == a / Pow2(k)
    decreases k
  {
    if k != 0 {
      ShrIsDiv(a / 2, k - 1);
      DivDiv(a, Pow2(k - 1));
    }
  }

  lemma {:induction false} ShrShr(a: nat, j: nat, k: nat)
    ensures Shr(Shr(a, j), k) == Shr(a, j + k)
    decreases j
  {
    if j != 0 {
      ShrShr(a / 2, j - 1, k);
    }
  }

  lemma DivDiv(a: nat, p: nat)
    requires p > 0
    ensures a / 2 / p == a / (2 * p)
  {
    var q, r := a / (2 * p), a % (2 * p);
    assert a == 2 * (q * p) + r;
    DivUnique(a / 2, p, q, r / 2);
  }

  lemma DivUnique(a: int, p: int, q: int, r: int)
    requires p > 0 && a == q * p + r && 0 <= r < p
    ensures a / p == q && a % p == r
  {
    var d := a / p - q;
    assert d * p == r - a % p by {
      assert d * p == (a / p) * p - q * p;
    }
    assert d >= 1 ==> d * p >= p;
    assert d <= -1 ==> d * p <= -p;
  }

  // ---------- Bitwise or and exclusive or ----------

  function Or(a: nat, b: nat): nat
    decreases a + b
  {
    if a == 0 && b == 0 then 0
    else 2 * Or(a / 2, b / 2) + (if a % 2 == 1 || b % 2 == 1 then 1 else 0)
  }

  function Xor(a: nat, b: nat): nat
    decreases a + b
  {
    if a == 0 && b == 0 then 0
    else 2 * Xor(a / 2, b / 2) + (if a % 2 != b % 2 then 1 else 0)
  }

  /** Or-ing a low field under a shifted high field is addition: the fields do not overlap. */
  lemma {:induction false} OrOfDisjoint(hi: nat, lo: nat, k: nat)
    requires lo < Pow2(k)
    ensures Or(Shl(hi, k), lo) == Shl(hi, k) + lo
    decreases k
  {
    if k == 0 {
      OrZero(hi);
    } else {
      OrOfDisjoint(hi, lo / 2, k - 1);
      assert Shl(hi, k) / 2 == Shl(hi, k - 1);
    }
  }

  lemma {:induction false} OrZero(a: nat)
    ensures Or(a, 0) == a
  {
    if a != 0 {
      OrZero(a / 2);
    }
  }

  lemma {:induction false} OrAtLeast(a: nat, b: nat)
    ensures Or(a, b) >= a && Or(a, b) >= b
    decreases a + b
  {
    if a != 0 || b != 0 {
      OrAtLeast(a / 2, b / 2);
    }
  }

  /** Shifting right discards the low bits of both operands alike. */
  lemma {:induction false} OrShift(a: nat, b: nat, k: nat)
    ensures Shr(Or(a, b), k) == Or(Shr(a, k), Shr(b, k))
  {
    if k != 0 {
      OrShift(a / 2, b / 2, k - 1);
    }
  }

  function And(a: nat, b: nat): nat
    decreases a + b
  {
    if a == 0 || b == 0 then 0
    else 2 * And(a / 2, b / 2) + (if a % 2 == 1 && b % 2 == 1 then 1 else 0)
  }

  /** A mask of k ones keeps the remainder modulo 2 to the power k. */
  lemma {:induction false} AndMask(a: nat, k: nat)
    ensures And(a, Pow2(k) - 1) == a % Pow2(k)
    decreases k
  {
    if k > 0 {
      AndMask(a / 2, k - 1);
      ModTwice(a, Pow2(k - 1));
      AndStep(a, Pow2(k - 1));
    }
  }

  lemma AndStep(a: nat, p: nat)
    requires p > 0
    ensures And(a, 2 * p - 1) == 2 * And(a / 2, p - 1) + a % 2
  {
  }

  lemma ModTwice(a: nat, p: nat)
    requires p > 0
    ensures a % (2 * p) == 2 * (a / 2 % p) + a % 2
  {
    var q, r := a / 2 / p, a / 2 % p;
    assert a == q * (2 * p) + (2 * r + a % 2) by { assert a / 2 == q * p + r; }
    DivUnique(a, 2 * p, q, 2 * r + a % 2);
  }

  lemma {:induction false} ShlAdd(a: nat, j: nat, k: nat)
    ensures Shl(a, j + k) == Shl(Shl(a, j), k)
    decreases k
  {
    if k != 0 {
      ShlAdd(a, j, k - 1);
    }
  }

  lemma {:induction false} ShrShl(a: nat, k: nat)
    ensures Shr(Shl(a, k), k) == a
    decreases k
  {
    if k != 0 {
      ShrShl(a, k - 1);
      assert Shl(a, k) / 2 == Shl(a, k - 1);
    }
  }

  lemma {:induction false} OrShl(a: nat, b: nat, k: nat)
    ensures Or(Shl(a, k), Shl(b, k)) == Shl(Or(a, b), k)
    decreases k
  {
    if k != 0 {
      OrShl(a, b, k - 1);
    }
  }

  lemma {:induction false} OrBound(a: nat, b: nat, k: nat)
    requires a < Pow2(k) && b < Pow2(k)
    ensures Or(a, b) < Pow2(k)
    decreases k
  {
    if k != 0 {
      OrBound(a / 2, b / 2, k - 1);
    }
  }

  lemma {:induction false} OrCommutes(a: nat, b: nat)
    ensures Or(a, b) == Or(b, a)
    decreases a + b
  {
    if a != 0 || b != 0 {
      OrCommutes(a / 2, b / 2);
    }
  }

  lemma {:induction false} XorCancel(a: nat, b: nat)
    ensures Xor(Xor(a, b), b) == a
    decreases a + b
  {
    if a != 0 || b != 0 {
      XorCancel(a / 2, b / 2);
      assert Xor(a, b) / 2 == Xor(a / 2, b / 2);
    }
  }

  lemma {:induction false} XorZero(a: nat)
    ensures Xor(a, 0) == a
  {
    if a != 0 {
      XorZero(a / 2);
    }
  }

  lemma {:induction false} XorCommutes(a: nat, b: nat)
    ensures Xor(a, b) == Xor(b, a)
    decreases a + b
  {
    if a != 0 || b != 0 {
      XorCommutes(a / 2, b / 2);
    }
  }

  lemma {:induction false} XorBound(a: nat, b: nat, k: nat)
    requires a < Pow2(k) && b < Pow2(k)
    ensures Xor(a, b) < Pow2(k)
  {
    if k != 0 {
      XorBound(a / 2, b / 2, k - 1);
    }
  }

  lemma {:induction false} XorShift(a: nat, b: nat, k: nat)
    ensures Shr(Xor(a, b), k) == Xor(Shr(a, k), Shr(b, k))
  {
    if k != 0 {
      assert Xor(a, b) / 2 == Xor(a / 2, b / 2);
      XorShift(a / 2, b / 2, k - 1);
    }
  }

  // ---------- Single bits ----------

  /** Bit k of an exclusive or is the sum of the two bits modulo 2. */
  lemma XorBit(a: nat, b: nat, k: nat)
    ensures Shr(Xor(a, b), k) % 2 == (Shr(a, k) % 2 + Shr(b, k) % 2) % 2
  {
    XorShift(a, b, k);
  }

  /** Bit k of an or is 1 exactly if one of the two bits is. */
  lemma OrBit(a: nat, b: nat, k: nat)
    ensures Shr(Or(a, b), k) % 2 == 1 <==> Shr(a, k) % 2 == 1 || Shr(b, k) % 2 == 1
  {
    OrShift(a, b, k);
  }

  // ---------- Xor with a shifted copy ----------

  /** `x ^ (x >> k)`. */
  function XorDown(x: nat, k: nat): nat {
    Xor(x, Shr(x, k))
  }

  /** Recovers x from `XorDown(x, k)`, highest bits first. */
  function UnXorDown(y: nat, k: nat): nat
    requires k > 0
  {
    if y == 0 then 0 else ShrSmaller(y, k); Xor(y, UnXorDown(Shr(y, k), k))
  }

  lemma {:induction false} ShrSmaller(x: nat, k: nat)
    ensures Shr(x, k) <= x && (k > 0 && x > 0 ==> Shr(x, k) < x)
    decreases k
  {
    if k != 0 {
      ShrSmaller(x / 2, k - 1);
    }
  }

  lemma {:induction false} XorDownInverse(x: nat, k: nat)
    requires k > 0
    ensures UnXorDown(XorDown(x, k), k) == x
    decreases x
  {
    ShrSmaller(x, k);
    var a := Shr(x, k);
    if x == 0 {
      XorZero(0);
    } else {
      XorDownInverse(a, k);
      XorShift(x, a, k);
      assert Shr(XorDown(x, k), k) == XorDown(a, k);
      XorCancel(x, a);
      XorCommutes(0, a);
      XorZero(a);
    }
  }

  lemma {:induction false} UnXorDownInverse(y: nat, k: nat)
    requires k > 0
    ensures XorDown(UnXorDown(y, k), k) == y
    decreases y
  {
    ShrSmaller(y, k);
    if y == 0 {
      ShrSmaller(0, k);
    } else {
      var z := Shr(y, k);
      var u := UnXorDown(z, k);
      UnXorDownInverse(z, k);
      XorShift(y, u, k);
      XorCancel(u, Shr(u, k));
      XorCancel(y, u);
    }
  }

  lemma {:induction false} UnXorDownBound(y: nat, k: nat, n: nat)
    requires k > 0 && y < Pow2(n)
    ensures UnXorDown(y, k) < Pow2(n)
    decreases y
  {
    ShrSmaller(y, k);
    if y != 0 {
      UnXorDownBound(Shr(y, k), k, n);
      XorBound(y, UnXorDown(Shr(y, k), k), n);
    }
  }

  // ---------- 64-bit operations and their inverses ----------

  function Add(x: Word, y: Word): Word { (x + y) % WORD }

  function Mul(x: Word, c: Word): Word { x * c % WORD }

  /** `shifting_hash(x, r)`: the two halves do not overlap, so their bitwise or is a sum. */
  function Rotl(x: Word, r: nat): Word
    requires r <= 64
  {
    RotlParts(r);
    Rotate(x, Pow2(r), Pow2(64 - r))
  }

  function Rotate(x: Word, p: nat, q: nat): Word
    requires p * q == WORD && p > 0 && q > 0
  {
    RotateSplit(x, p, q);
    x * p % WORD + x / q
  }

  function Mix(x: Word, y: Word): Word {
    MixFits(x, y);
    Xor(x, y)
  }

  lemma MixFits(x: Word, y: Word)
    ensures Xor(x, y) < WORD
  {
    Pow2Values();
    XorBound(x, y, 64);
  }

  /** With x = a*q + b and p*q = 2^64, rotating left by log p gives b*p + a. */
  lemma RotateSplit(x: Word, p: nat, q: nat)
    requires p * q == WORD && p > 0 && q > 0
    ensures x / q < p && x * p % WORD == x % q * p && x % q * p + x / q < WORD
  {
    var a, b := x / q, x % q;
    assert x == a * q + b;
    assert a < p by {
      if a >= p {
        MulMono(p, a, q);
      }
    }
    assert b * p + p <= WORD by {
      MulMono(b + 1, q, p);
    }
    assert x * p == a * WORD + b * p by {
      assert a * q * p == a * (p * q);
    }
    DivUnique(x * p, WORD, a, b * p);
  }

  lemma MulMono(a: nat, b: nat, c: nat)
    requires a <= b
    ensures a * c <= b * c
  {
  }

  lemma RotlParts(r: nat)
    requires r <= 64
    ensures Pow2(r) * Pow2(64 - r) == WORD
  {
    Pow2Add(r, 64 - r);
    Pow2Values();
  }

  lemma RotateInverse(x: Word, p: nat, q: nat)
    requires p * q == WORD && p > 0 && q > 0
    ensures Rotate(Rotate(x, p, q), q, p) == x
  {
    RotateSplit(x, p, q);
    var a, b, y := x / q, x % q, Rotate(x, p, q);
    assert y == b * p + a;
    DivUnique(y, p, b, a);
    RotateSplit(y, q, p);
  }

  /** Rotating left by r and then by 64 - r is the identity. */
  lemma RotlInverse(x: Word, r: nat)
    requires r <= 64
    ensures Rotl(Rotl(x, r), 64 - r) == x
  {
    RotlParts(r);
    RotateInverse(x, Pow2(r), Pow2(64 - r));
  }

  lemma MulInverse(x: Word, c: Word, d: Word, k: nat)
    requires c * d == 1 + k * WORD
    ensures Mul(Mul(x, c), d) == x
  {
    var q, r := x * c / WORD, x * c % WORD;
    assert r * d == x + WORD * (x * k - q * d) by {
      assert r * d == x * c * d - q * WORD * d;
      assert x * c * d == x * (1 + k * WORD);
    }
    DivUnique(r * d, WORD, x * k - q * d, x);
  }

  lemma AddInverse(x: Word, c: Word)
    requires c > 0
    ensures Add(Add(x, c), WORD - c) == x && Add(Add(x, WORD - c), c) == x
  {
  }

  function XorDown64(x: Word, k: nat): Word {
    ShrSmaller(x, k);
    MixFits(x, Shr(x, k));
    XorDown(x, k)
  }

  function UnXorDown64(y: Word, k: nat): Word
    requires k > 0
  {
    Pow2Values();
    UnXorDownBound(y, k, 64);
    UnXorDown(y, k)
  }

  // ---------- Reading little-endian words ----------

  function LittleEndian(b: seq<Byte>): nat {
    if |b| == 0 then 0 else b[0] + 256 * LittleEndian(b[1..])
  }

  function BytesOf(w: nat, n: nat): (b: seq<Byte>)
    ensures |b| == n
  {
    if n == 0 then [] else [w % 256] + BytesOf(w / 256, n - 1)
  }

  lemma BytesStep(c: Byte, v: nat, n: nat)
    requires n > 0
    ensures BytesOf(c + 256 * v, n) == [c] + BytesOf(v, n - 1)
  {
    assert (c + 256 * v) % 256 == c && (c + 256 * v) / 256 == v;
  }

  lemma {:induction false} BytesOfLittleEndian(b: seq<Byte>)
    ensures BytesOf(LittleEndian(b), |b|) == b
  {
    if |b| > 0 {
      BytesOfLittleEndian(b[1..]);
      BytesStep(b[0], LittleEndian(b[1..]), |b|);
      assert b == [b[0]] + b[1..];
    }
  }

  lemma LittleEndianFits(b: seq<Byte>)
    requires |b| == 4 || |b| == 8
    ensures LittleEndian(b) < if |b| == 4 then 0x1_0000_0000 else WORD
  {
    Peel(b);
    Peel(b[1..]);
    Peel(b[1..][1..]);
    Peel(b[1..][1..][1..]);
    var c := b[1..][1..][1..][1..];
    if |b| == 8 {
      LittleEndianFits(c);
    }
  }

  lemma Peel(b: seq<Byte>)
    requires |b| > 0
    ensures LittleEndian(b) == b[0] + 256 * LittleEndian(b[1..])
  {
  }

  function Read32(b: seq<Byte>): HalfWord
    requires |b| == 4
  {
    LittleEndianFits(b);
    LittleEndian(b)
  }

  function Read64(b: seq<Byte>): Word
    requires |b| == 8
  {
    LittleEndianFits(b);
    LittleEndian(b)
  }
}
