/**
  The slots of a directory's table as one run of bits, bucket after bucket: which are live, how many,
  and in what order a scan meets them.
 */
module LiveSlots {
  import Bits

  const BUCKETS: nat := 4096
  const SLOTS: nat := 8

  /** How many of n bits are set. */
  function Ones(bits: seq<bool>, from: nat, n: nat): (k: nat)
    requires from + n <= |bits|
    ensures k <= n
  {
    if n == 0 then 0 else Ones(bits, from, n - 1) + (if bits[from + n - 1] then 1 else 0)
  }

  lemma {:induction false} OnesUpdate(bits: seq<bool>, i: nat, v: bool, from: nat, n: nat)
    requires from + n <= |bits| && i < |bits|
    ensures Ones(bits[i := v], from, n) ==
              Ones(bits, from, n)
              + (if from <= i < from + n then (if v then 1 else 0) - (if bits[i] then 1 else 0) else 0)
    decreases n
  {
    if n > 0 {
      OnesUpdate(bits, i, v, from, n - 1);
    }
  }

  /** `find_first_zero_bit` among n bits: n if there is none. */
  function FirstZero(bits: seq<bool>, from: nat, n: nat): (k: nat)
    requires from + n <= |bits|
    ensures k <= n && (k < n ==> !bits[from + k])
    decreases n
  {
    if n == 0 || !bits[from] then 0 else 1 + FirstZero(bits, from + 1, n - 1)
  }

  lemma {:induction false} FirstZeroExact(bits: seq<bool>, from: nat, n: nat, k: nat)
    requires from + n <= |bits| && k <= n
    ensures k == FirstZero(bits, from, n) <==>
              (k < n ==> !bits[from + k]) && forall i | from <= i < from + k :: bits[i]
    decreases n
  {
    if n > 0 && bits[from] && k > 0 {
      FirstZeroExact(bits, from + 1, n - 1, k - 1);
    }
  }

  // ---------- The order of a scan ----------

  /** The set bits from index i on, in order. */
  function Live(bits: seq<bool>, i: nat): (s: seq<nat>)
    decreases |bits| - i
  {
    if i >= |bits| then [] else if bits[i] then [i] + Live(bits, i + 1) else Live(bits, i + 1)
  }

  /** The scan meets the set bits and nothing else. */
  lemma {:induction false} LiveMember(bits: seq<bool>, i: nat, x: nat)
    ensures x in Live(bits, i) <==> i <= x < |bits| && bits[x]
    decreases |bits| - i
  {
    if i < |bits| {
      LiveMember(bits, i + 1, x);
    }
  }

  /** The k-th live slot a scan meets is the one of rank k: it is live and k live slots precede it. */
  lemma {:induction false} LiveRank(bits: seq<bool>, i: nat, k: nat)
    requires i <= |bits| && k < |Live(bits, i)|
    ensures i <= Live(bits, i)[k] < |bits| && bits[Live(bits, i)[k]]
    ensures Ones(bits, i, Live(bits, i)[k] - i) == k
    decreases |bits| - i
  {
    if bits[i] {
      if k > 0 {
        LiveRank(bits, i + 1, k - 1);
        OnesFirst(bits, i, Live(bits, i + 1)[k - 1] - i);
      }
    } else {
      LiveRank(bits, i + 1, k);
      OnesFirst(bits, i, Live(bits, i + 1)[k] - i);
    }
  }

  lemma {:induction false} OnesFirst(bits: seq<bool>, from: nat, n: nat)
    requires n > 0 && from + n <= |bits|
    ensures Ones(bits, from, n) == (if bits[from] then 1 else 0) + Ones(bits, from + 1, n - 1)
    decreases n
  {
    if n > 1 {
      OnesFirst(bits, from, n - 1);
    }
  }

  /** A scan meets every live slot. */
  lemma {:induction false} LiveTotal(bits: seq<bool>, i: nat)
    requires i <= |bits|
    ensures |Live(bits, i)| == Ones(bits, i, |bits| - i)
    decreases |bits| - i
  {
    if i < |bits| {
      LiveTotal(bits, i + 1);
      OnesFirst(bits, i, |bits| - i);
    }
  }

  /** The live slots from rank p on: what a scan with cursor p has still to emit. */
  function LiveFrom(bits: seq<bool>, p: nat): seq<nat> {
    Live(bits, 0)[Bits.Min(p, |Live(bits, 0)|)..]
  }

  /** A seek has passed p live slots and stands before slot i. */
  ghost predicate Passed(bits: seq<bool>, i: nat, p: nat) {
    p <= |Live(bits, 0)| && Live(bits, i) == Live(bits, 0)[p..]
  }

  lemma PassOne(bits: seq<bool>, i: nat, p: nat)
    requires i < |bits| && Passed(bits, i, p)
    ensures Passed(bits, i + 1, if bits[i] then p + 1 else p)
  {
    var all := Live(bits, 0);
    if bits[i] {
      assert all[p..][1..] == all[p + 1..];
    }
  }

  lemma PassNone(bits: seq<bool>)
    ensures Passed(bits, 0, 0)
  {
    assert Live(bits, 0)[0..] == Live(bits, 0);
  }

  /** A seek stops when it has passed as many as it was asked to, or at the end. */
  lemma PassedAll(bits: seq<bool>, i: nat, p: nat, pos: nat)
    requires Passed(bits, i, p) && (p == pos || (p < pos && i >= |bits|))
    ensures Live(bits, i) == LiveFrom(bits, pos)
  {
  }

  lemma {:induction false} LiveAtRank(bits: seq<bool>, j: nat, i: nat)
    requires j <= i < |bits| && bits[i]
    ensures Ones(bits, j, i - j) < |Live(bits, j)| && Live(bits, j)[Ones(bits, j, i - j)] == i
    decreases i - j
  {
    if j < i {
      LiveAtRank(bits, j + 1, i);
      OnesFirst(bits, j, i - j);
    }
  }

  /** From cursor p a scan has left exactly the live slots of rank p and more, each at its rank. */
  lemma LiveFromIsRanked(bits: seq<bool>, p: nat, i: nat)
    requires i < |bits| && bits[i]
    ensures i in LiveFrom(bits, p) <==> Ones(bits, 0, i) >= p
    ensures var r := Ones(bits, 0, i); r >= p ==> r - p < |LiveFrom(bits, p)| && LiveFrom(bits, p)[r - p] == i
  {
    LiveAtRank(bits, 0, i);
    var all, rest := Live(bits, 0), LiveFrom(bits, p);
    if i in rest {
      var k :| 0 <= k < |rest| && rest[k] == i;
      assert rest[k] == all[Bits.Min(p, |all|) + k];
      LiveRank(bits, 0, Bits.Min(p, |all|) + k);
    }
  }

  /** A scan meets the slots in order. */
  lemma {:induction false} LiveAscends(bits: seq<bool>, i: nat, j: nat, k: nat)
    requires j < k < |Live(bits, i)|
    ensures Live(bits, i)[j] < Live(bits, i)[k]
    decreases |bits| - i
  {
    if bits[i] {
      if j > 0 {
        LiveAscends(bits, i + 1, j - 1, k - 1);
      } else {
        LiveMember(bits, i + 1, Live(bits, i + 1)[k - 1]);
      }
    } else {
      LiveAscends(bits, i + 1, j, k);
    }
  }
}
