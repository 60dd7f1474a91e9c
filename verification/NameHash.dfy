/**
  Hashing path components a word at a time (extra/namei.c, CONFIG_DCACHE_WORD_ACCESS, 64 bits).
  `full_name_hash` is told the length, `hash_name` finds it while hashing; both compute one function
  of the bytes of the component.
 */
module NameHash {
  import opened Bits

  /** The two words of state. */
  datatype Mixer = Mixer(x: Word, y: Word)

  const SLASH: Byte := 47

  // ---------- One round ----------

  /** The state after `x ^= a, y ^= x`. */
  function Stir(m: Mixer, a: Word): Mixer {
    var x := Mix(m.x, a);
    Mixer(x, Mix(m.y, x))
  }

  /** The rest of HASH_MIX. */
  function Spread(m: Mixer): Mixer {
    Mixer(Add(Rotl(m.x, 12), m.y), Mul(Rotl(m.y, 45), 9))
  }

  function Round(m: Mixer, a: Word): Mixer { Spread(Stir(m, a)) }

  /** `fold_hash`; golden is GOLDEN_RATIO_64. */
  function Fold(m: Mixer, golden: Word): nat {
    Mul(Mix(m.y, Mul(m.x, golden)), golden) / 0x1_0000_0000
  }

  // ---------- The hash of a component ----------

  /** Whole words go through a round each; the 0 to 7 bytes left are mixed into x. */
  function Absorb(m: Mixer, name: seq<Byte>): Mixer
    decreases |name|
  {
    if |name| < 8 then
      ShortFits(name);
      Mixer(Mix(m.x, LittleEndian(name)), m.y)
    else
      Absorb(Round(m, Read64(name[..8])), name[8..])
  }

  function Hash(salt: Word, golden: Word, name: seq<Byte>): nat {
    Fold(Absorb(Mixer(0, salt), name), golden)
  }

  function Pow256(k: nat): (p: nat)
    ensures p > 0
  {
    if k == 0 then 1 else 256 * Pow256(k - 1)
  }

  lemma {:induction false} LittleEndianBelow(b: seq<Byte>)
    ensures LittleEndian(b) < Pow256(|b|)
    decreases |b|
  {
    if |b| > 0 {
      LittleEndianBelow(b[1..]);
    }
  }

  lemma {:induction false} Pow256Grows(k: nat, n: nat)
    requires k <= n
    ensures Pow256(k) <= Pow256(n)
    decreases n - k
  {
    if k < n {
      Pow256Grows(k, n - 1);
    }
  }

  lemma Pow256Values()
    ensures Pow256(8) == WORD
  {
    assert Pow256(2) == 256 * Pow256(1);
    assert Pow256(4) == 256 * Pow256(3);
    assert Pow256(6) == 256 * Pow256(5);
  }

  lemma ShortFits(b: seq<Byte>)
    requires |b| <= 8
    ensures LittleEndian(b) < WORD
  {
    LittleEndianBelow(b);
    Pow256Values();
    Pow256Grows(|b|, 8);
  }

  // ---------- The same hash, word by word ----------

  /** The state after the first k words of a name. */
  function StateAfter(salt: Word, name: seq<Byte>, k: nat): Mixer
    requires 8 * k <= |name|
  {
    if k == 0 then Mixer(0, salt)
    else
      var s := StateAfter(salt, name, k - 1);
      var x := Mix(s.x, Read64(name[8 * k - 8..8 * k]));
      var y := Mix(s.y, x);
      Mixer(Add(Rotl(x, 12), y), Mul(Rotl(y, 45), 9))
  }

  /** The words in order, the last 0 to 7 bytes into x, then the fold to 32 bits. */
  function WordByWord(salt: Word, golden: Word, name: seq<Byte>): nat {
    var n := |name| / 8;
    var s := StateAfter(salt, name, n);
    ShortFits(name[8 * n..]);
    var x := Mix(s.x, LittleEndian(name[8 * n..]));
    Mul(Mix(s.y, Mul(x, golden)), golden) / 4294967296
  }

  lemma NextWord(name: seq<Byte>, p: nat)
    requires p + 8 <= |name|
    ensures name[p..][..8] == name[p..p + 8] && name[p..][8..] == name[p + 8..]
  {
  }

  lemma AbsorbWord(m: Mixer, rest: seq<Byte>)
    requires |rest| >= 8
    ensures Absorb(m, rest) == Absorb(Round(m, Read64(rest[..8])), rest[8..])
  {
  }

  lemma {:induction false} AbsorbFrom(salt: Word, name: seq<Byte>, k: nat)
    requires 8 * k <= |name|
    ensures Absorb(Mixer(0, salt), name) == Absorb(StateAfter(salt, name, k), name[8 * k..])
    decreases k
  {
    if k == 0 {
      assert name[0..] == name;
    } else {
      AbsorbFrom(salt, name, k - 1);
      NextWord(name, 8 * k - 8);
      AbsorbWord(StateAfter(salt, name, k - 1), name[8 * k - 8..]);
    }
  }

  /** Both ways of hashing a name agree. */
  lemma HashIsWordByWord(salt: Word, golden: Word, name: seq<Byte>)
    ensures Hash(salt, golden, name) == WordByWord(salt, golden, name)
  {
    AbsorbFrom(salt, name, |name| / 8);
  }

  /** The rotations of a round, in literal arithmetic. */
  lemma RoundRotations(x: Word)
    ensures Rotl(x, 12) == x * 0x1000 % 0x1_0000_0000_0000_0000 + x / 0x10_0000_0000_0000
    ensures Rotl(x, 45) == x * 0x2000_0000_0000 % 0x1_0000_0000_0000_0000 + x / 0x8_0000
  {
    Pow2Values();
    Pow2Add(32, 20);
    Pow2Add(32, 12);
    Pow2Add(1, 44);
    Pow2Add(15, 4);
    assert Pow2(4) == 2 * Pow2(3) && Pow2(1) == 2;
  }

  // ---------- Words in memory ----------

  /** The eight bytes at p; memory that is not there reads as zeros. */
  function Window(mem: seq<Byte>, p: nat): (w: seq<Byte>)
    ensures |w| == 8
  {
    seq(8, i requires 0 <= i < 8 => if p + i < |mem| then mem[p + i] else 0)
  }

  /** `load_unaligned_zeropad`. */
  function Load(mem: seq<Byte>, p: nat): Word { Read64(Window(mem, p)) }

  /** `bytemask_from_count(k)`, and the mask `zero_bytemask` makes of a lowest zero byte at k. */
  function ByteMask(k: nat): nat { Pow256(k) - 1 }

  /** The low k bytes of a word. */
  function Low(a: Word, k: nat): Word {
    LowIsMod(a, k);
    ModAtMost(a, Pow256(k));
    And(a, ByteMask(k))
  }

  lemma {:induction false} Pow256IsPow2(k: nat)
    ensures Pow256(k) == Pow2(8 * k)
  {
    if k > 0 {
      Pow256IsPow2(k - 1);
      Pow2Eight();
      Pow2Add(8, 8 * (k - 1));
    }
  }

  lemma LowIsMod(a: Word, k: nat)
    ensures And(a, ByteMask(k)) == a % Pow256(k)
  {
    Pow256IsPow2(k);
    AndMask(a, 8 * k);
  }

  lemma ModAtMost(a: nat, p: nat)
    requires p > 0
    ensures a % p <= a
  {
    if a < p {
      DivUnique(a, p, 0, a);
    }
  }

  lemma {:induction false} LowIsPrefix(b: seq<Byte>, k: nat)
    requires k <= |b|
    ensures LittleEndian(b) % Pow256(k) == LittleEndian(b[..k])
    decreases k
  {
    if k > 0 {
      var t := b[1..];
      LowIsPrefix(t, k - 1);
      assert b[..k][1..] == t[..k - 1];
      LowStep(b[0], LittleEndian(t), Pow256(k - 1));
    }
  }

  lemma LowStep(c: Byte, v: nat, p: nat)
    requires p > 0
    ensures (c + 256 * v) % (256 * p) == c + 256 * (v % p)
  {
    var q, r := v / p, v % p;
    assert 256 * v == q * (256 * p) + 256 * r;
    DivUnique(c + 256 * v, 256 * p, q, c + 256 * r);
  }

  /** Words inside the component are its words, and the last one masked is its last bytes. */
  lemma LoadInside(mem: seq<Byte>, p: nat, len: nat)
    requires p + 8 <= len <= |mem|
    ensures Window(mem, p) == mem[p..len][..8] && mem[p..len][8..] == mem[p + 8..len]
  {
  }

  lemma LoadTail(mem: seq<Byte>, p: nat, len: nat)
    requires p <= len <= |mem| && len < p + 8
    ensures Low(Load(mem, p), len - p) == LittleEndian(mem[p..len])
  {
    LowIsPrefix(Window(mem, p), len - p);
    LowIsMod(Load(mem, p), len - p);
    assert Window(mem, p)[..len - p] == mem[p..len];
  }

  // ---------- full_name_hash ----------

  method FoldHash(x: Word, y: Word, golden: Word) returns (h: nat)
    ensures h == Fold(Mixer(x, y), golden) && h < 0x1_0000_0000
  {
    var z := Mix(y, Mul(x, golden));
    z := Mul(z, golden);
    h := z / 0x1_0000_0000;
  }

  method HashMix(x0: Word, y0: Word, a: Word) returns (x: Word, y: Word)
    ensures Mixer(x, y) == Round(Mixer(x0, y0), a)
  {
    x := Mix(x0, a);
    y := Mix(y0, x);
    x := Rotl(x, 12);
    x := Add(x, y);
    y := Rotl(y, 45);
    y := Mul(y, 9);
  }

  method FullNameHash(salt: Word, mem: seq<Byte>, length: nat, golden: Word) returns (h: nat)
    requires length <= |mem|
    ensures h == Hash(salt, golden, mem[..length])
  {
    var x, y, name, len := 0, salt, 0, length;
    assert mem[0..length] == mem[..length];
    while true
      invariant name + len == length
      invariant Absorb(Mixer(x, y), mem[name..length]) == Absorb(Mixer(0, salt), mem[..length])
      decreases len
    {
      if len == 0 {
        XorZero(x);
        break;
      }
      var a := Load(mem, name);
      if len < 8 {
        LoadTail(mem, name, length);
        x := Mix(x, Low(a, len));
        break;
      }
      LoadInside(mem, name, length);
      x, y := HashMix(x, y, a);
      name := name + 8;
      len := len - 8;
    }
    h := FoldHash(x, y, golden);
  }

  // ---------- Finding the end of a name ----------

  /** NUL ends every name and, where slash is set, so does '/'. */
  predicate Ends(c: Byte, slash: bool) { c == 0 || (slash && c == SLASH) }

  /** The length of the name at the front of the text. */
  function Span(s: seq<Byte>, slash: bool): (n: nat)
    ensures n <= |s|
  {
    if s == [] || Ends(s[0], slash) then 0 else 1 + Span(s[1..], slash)
  }

  /** The span is the first position that ends the name, or the end of the text. */
  lemma {:induction false} SpanIsFirstEnd(s: seq<Byte>, slash: bool, n: nat)
    requires n <= |s|
    ensures n == Span(s, slash) <==>
              (n < |s| ==> Ends(s[n], slash)) && forall i | 0 <= i < n :: !Ends(s[i], slash)
  {
    if s != [] && !Ends(s[0], slash) && n > 0 {
      SpanIsFirstEnd(s[1..], slash, n - 1);
      assert forall i | 0 < i < n :: s[i] == s[1..][i - 1];
    } else if n > 0 {
      assert Ends(s[0], slash);
    }
  }

  /** The index of the lowest zero byte among n bytes, or n: what has_zero and find_zero determine. */
  function ZeroByte(a: nat, n: nat): (k: nat)
    ensures k <= n
    decreases n
  {
    if n == 0 || a % 256 == 0 then 0 else 1 + ZeroByte(a / 256, n - 1)
  }

  /** REPEAT_BYTE('/'), n bytes of it. */
  function Slashes(n: nat): nat {
    if n == 0 then 0 else 47 + 256 * Slashes(n - 1)
  }

  lemma RepeatByte()
    ensures Slashes(8) == 0x2F2F_2F2F_2F2F_2F2F
  {
    assert Slashes(2) == 0x2F2F;
    assert Slashes(4) == 0x2F2F_2F2F;
    assert Slashes(6) == 0x2F2F_2F2F_2F2F;
  }

  lemma XorStep(c: nat, v: nat, d: nat, w: nat)
    ensures Xor(c + 2 * v, d + 2 * w) == 2 * Xor(c / 2 + v, d / 2 + w) + (if c % 2 != d % 2 then 1 else 0)
    ensures Xor(c, d) == 2 * Xor(c / 2, d / 2) + (if c % 2 != d % 2 then 1 else 0)
  {
  }

  lemma XorFieldStep(c: nat, v: nat, d: nat, w: nat, r: nat)
    requires Xor(c / 2 + v, d / 2 + w) == Xor(c / 2, d / 2) + r
    ensures Xor(c + 2 * v, d + 2 * w) == Xor(c, d) + 2 * r
  {
    XorStep(c, v, d, w);
  }

  /** Two words made of a low and a high field are xored field by field. */
  lemma {:induction false} XorFields(c: nat, v: nat, d: nat, w: nat, k: nat)
    requires c < Pow2(k) && d < Pow2(k)
    ensures Xor(c + Shl(v, k), d + Shl(w, k)) == Xor(c, d) + Shl(Xor(v, w), k)
    decreases k
  {
    if k == 0 {
      assert c == 0 && d == 0;
    } else {
      XorFields(c / 2, v, d / 2, w, k - 1);
      XorFieldStep(c, Shl(v, k - 1), d, Shl(w, k - 1), Shl(Xor(v, w), k - 1));
    }
  }

  lemma Pow2Eight()
    ensures Pow2(8) == 256
  {
    Pow2Values();
    Pow2Add(4, 4);
    assert Pow2(4) == 2 * Pow2(3);
  }

  /** The lowest bytes of two words are xored apart from the rest. */
  lemma XorByte(c: Byte, v: nat, d: Byte, w: nat)
    ensures Xor(c + 256 * v, d + 256 * w) == Xor(c, d) + 256 * Xor(v, w)
    ensures Xor(c, d) < 256
  {
    Pow2Eight();
    ShlIsMul(v, 8);
    ShlIsMul(w, 8);
    ShlIsMul(Xor(v, w), 8);
    XorFields(c, v, d, w, 8);
    XorBound(c, d, 8);
  }

  lemma SlashByte(c: Byte)
    ensures Xor(c, 47) == 0 <==> c == SLASH
  {
    XorCancel(c, 47);
    XorZero(47);
    XorCommutes(0, 47);
    XorCancel(0, 47);
  }

  /** The lowest zero byte of a word is its first NUL. */
  lemma {:induction false} ZeroByteIsNul(b: seq<Byte>)
    ensures ZeroByte(LittleEndian(b), |b|) == Span(b, false)
    decreases |b|
  {
    if b != [] {
      ZeroByteIsNul(b[1..]);
      Peeled(b[0], LittleEndian(b[1..]));
    }
  }

  lemma Peeled(c: Byte, v: nat)
    ensures (c + 256 * v) % 256 == c && (c + 256 * v) / 256 == v
  {
  }

  lemma ZeroByteStep(c: Byte, v: nat, n: nat)
    requires n > 0
    ensures ZeroByte(c + 256 * v, n) == if c == 0 then 0 else 1 + ZeroByte(v, n - 1)
  {
    Peeled(c, v);
  }

  lemma FirstEndStep(c: Byte, v: nat, w: nat, n: nat)
    requires n > 0
    ensures Min(ZeroByte(c + 256 * v, n), ZeroByte(Xor(c + 256 * v, 47 + 256 * w), n)) ==
              if Ends(c, true) then 0 else 1 + Min(ZeroByte(v, n - 1), ZeroByte(Xor(v, w), n - 1))
  {
    XorByte(c, v, 47, w);
    SlashByte(c);
    ZeroByteStep(c, v, n);
    ZeroByteStep(Xor(c, 47), Xor(v, w), n);
  }

  /** The lower of the lowest zero bytes of a word and of the word xor a word of slashes is its first NUL or '/'. */
  lemma {:induction false} ZeroBytesAreEnds(b: seq<Byte>)
    ensures Min(ZeroByte(LittleEndian(b), |b|), ZeroByte(Xor(LittleEndian(b), Slashes(|b|)), |b|)) == Span(b, true)
    decreases |b|
  {
    if b != [] {
      ZeroBytesAreEnds(b[1..]);
      FirstEndStep(b[0], LittleEndian(b[1..]), Slashes(|b| - 1), |b|);
    }
  }

  lemma {:induction false} SpanDrop(s: seq<Byte>, slash: bool, j: nat)
    requires j <= Span(s, slash)
    ensures Span(s, slash) == j + Span(s[j..], slash)
  {
    if j > 0 {
      SpanDrop(s[1..], slash, j - 1);
      assert s[1..][j - 1..] == s[j..];
    } else {
      assert s[0..] == s;
    }
  }

  /** What a window shows of the rest of the name. */
  lemma WindowSpan(mem: seq<Byte>, p: nat, slash: bool)
    requires p <= |mem|
    ensures var k, n := Span(Window(mem, p), slash), Span(mem[p..], slash);
            if k < 8 then n == k else n >= 8
  {
    var w, s := Window(mem, p), mem[p..];
    var k, n := Span(w, slash), Span(s, slash);
    SpanIsFirstEnd(w, slash, k);
    SpanIsFirstEnd(s, slash, n);
    assert forall i | 0 <= i < |s| && i < 8 :: w[i] == s[i];
    assert |s| < 8 ==> w[|s|] == 0;
    if k < 8 {
      SpanIsFirstEnd(s, slash, Min(k, |s|));
    }
  }

  // ---------- hashlen_string and hash_name ----------

  /** One more whole word of the name has been hashed. */
  lemma WholeWord(mem: seq<Byte>, len: nat, n: nat, slash: bool)
    requires len <= n <= |mem| && n == len + Span(mem[len..], slash)
    requires Span(Window(mem, len), slash) == 8
    ensures len + 8 <= n && n == len + 8 + Span(mem[len + 8..], slash)
  {
    WindowSpan(mem, len, slash);
    SpanDrop(mem[len..], slash, 8);
    assert mem[len..][8..] == mem[len + 8..];
  }

  /** The word at len ends the name: the index of the end completes the length, the masked word the hash. */
  lemma LastWord(mem: seq<Byte>, len: nat, n: nat, slash: bool, k: nat)
    requires len <= n <= |mem| && n == len + Span(mem[len..], slash)
    requires k == Span(Window(mem, len), slash) && k < 8
    ensures n == len + k && Low(Load(mem, len), k) == LittleEndian(mem[len..n])
  {
    WindowSpan(mem, len, slash);
    LoadTail(mem, len, n);
  }

  /** Of a NUL-terminated string: the hash and the length. */
  method HashlenString(salt: Word, mem: seq<Byte>, golden: Word) returns (h: nat, length: nat)
    ensures length == Span(mem, false) && h == Hash(salt, golden, mem[..length])
  {
    var x, y, len := 0, salt, 0;
    ghost var n := Span(mem, false);
    assert mem[0..] == mem && mem[0..n] == mem[..n];
    var a := Load(mem, len);
    ZeroByteIsNul(Window(mem, len));
    while ZeroByte(a, 8) == 8
      invariant len <= n && n == len + Span(mem[len..], false) && a == Load(mem, len)
      invariant ZeroByte(a, 8) == Span(Window(mem, len), false)
      invariant Absorb(Mixer(x, y), mem[len..n]) == Absorb(Mixer(0, salt), mem[..n])
      decreases n - len
    {
      WholeWord(mem, len, n, false);
      LoadInside(mem, len, n);
      x, y := HashMix(x, y, a);
      len := len + 8;
      a := Load(mem, len);
      ZeroByteIsNul(Window(mem, len));
    }
    var k := ZeroByte(a, 8);
    LastWord(mem, len, n, false, k);
    x := Mix(x, Low(a, k));
    h := FoldHash(x, y, golden);
    length := len + k;
  }

  /** Of a path component, which a '/' may end too: the hash and the length. */
  method HashName(salt: Word, mem: seq<Byte>, golden: Word) returns (h: nat, length: nat)
    ensures length == Span(mem, true) && h == Hash(salt, golden, mem[..length])
  {
    var x, y, len := 0, salt, 0;
    ghost var n := Span(mem, true);
    assert mem[0..] == mem && mem[0..n] == mem[..n];
    var a := Load(mem, len);
    var b := XorSlashes(a);
    ZeroBytesAreEnds(Window(mem, len));
    while ZeroByte(a, 8) == 8 && ZeroByte(b, 8) == 8
      invariant len <= n && n == len + Span(mem[len..], true) && a == Load(mem, len)
      invariant Min(ZeroByte(a, 8), ZeroByte(b, 8)) == Span(Window(mem, len), true)
      invariant Absorb(Mixer(x, y), mem[len..n]) == Absorb(Mixer(0, salt), mem[..n])
      decreases n - len
    {
      WholeWord(mem, len, n, true);
      LoadInside(mem, len, n);
      x, y := HashMix(x, y, a);
      len := len + 8;
      a := Load(mem, len);
      b := XorSlashes(a);
      ZeroBytesAreEnds(Window(mem, len));
    }
    var k := Min(ZeroByte(a, 8), ZeroByte(b, 8));
    LastWord(mem, len, n, true, k);
    x := Mix(x, Low(a, k));
    h := FoldHash(x, y, golden);
    length := len + k;
  }

  method XorSlashes(a: Word) returns (b: Word)
    ensures b == Xor(a, Slashes(8))
  {
    RepeatByte();
    b := Mix(a, 0x2F2F_2F2F_2F2F_2F2F);
  }

  // ---------- No collisions in two rounds ----------

  /** Nine times this is 1 modulo 2 to the power 64. */
  const NINTH: Word := 0x8E38_E38E_38E3_8E39

  function Unspread(m: Mixer): Mixer {
    var y := Rotl(Mul(m.y, NINTH), 19);
    Mixer(Rotl((m.x + WORD - y) % WORD, 52), y)
  }

  lemma AddCancel(x: Word, y: Word)
    ensures (Add(x, y) + WORD - y) % WORD == x
  {
  }

  lemma UnspreadY(y: Word)
    ensures Rotl(Mul(Mul(Rotl(y, 45), 9), NINTH), 19) == y
  {
    NineInverse(Rotl(y, 45));
    RotlInverse(y, 45);
  }

  lemma NineInverse(y: Word)
    ensures Mul(Mul(y, 9), NINTH) == y
  {
    MulInverse(y, 9, NINTH, 5);
  }

  lemma UnspreadSpread(m: Mixer)
    ensures Unspread(Spread(m)) == m
  {
    UnspreadY(m.y);
    AddCancel(Rotl(m.x, 12), m.y);
    RotlInverse(m.x, 12);
  }

  lemma StirInjective(m: Mixer, a: Word, b: Word)
    requires Stir(m, a).x == Stir(m, b).x
    ensures a == b
  {
    XorCommutes(m.x, a);
    XorCommutes(m.x, b);
    XorCancel(a, m.x);
    XorCancel(b, m.x);
  }

  /** From one state, different words lead to different states. */
  lemma RoundInjective(m: Mixer, a: Word, b: Word)
    requires Round(m, a) == Round(m, b)
    ensures a == b
  {
    UnspreadSpread(Stir(m, a));
    UnspreadSpread(Stir(m, b));
    StirInjective(m, a, b);
  }

  /** The first of two rounds can be read off the state after both. */
  lemma SecondStir(m: Mixer, n: Mixer, a: Word, b: Word)
    requires Stir(m, a) == Stir(n, b)
    ensures m.y == n.y
  {
    XorCancel(m.y, Stir(m, a).x);
    XorCancel(n.y, Stir(n, b).x);
  }

  /** HASH_MIX cannot create a collision in two iterations. */
  lemma NoCollisionInTwoRounds(m: Mixer, a: Word, b: Word, c: Word, d: Word)
    requires Round(Round(m, a), b) == Round(Round(m, c), d)
    ensures a == c && b == d
  {
    UnspreadSpread(Stir(Round(m, a), b));
    UnspreadSpread(Stir(Round(m, c), d));
    SecondStir(Round(m, a), Round(m, c), b, d);
    FirstWord(m, a, c);
    RoundInjective(Round(m, a), b, d);
  }

  /** The y half of the state after one round already tells the word. */
  lemma FirstWord(m: Mixer, a: Word, c: Word)
    requires Round(m, a).y == Round(m, c).y
    ensures a == c
  {
    UnspreadSpread(Stir(m, a));
    UnspreadSpread(Stir(m, c));
    var x, z := Stir(m, a).x, Stir(m, c).x;
    XorCommutes(m.y, x);
    XorCommutes(m.y, z);
    XorCancel(x, m.y);
    XorCancel(z, m.y);
    StirInjective(m, a, c);
  }
}
