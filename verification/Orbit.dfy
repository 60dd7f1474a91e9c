/**
  Bounded search along the orbit of a function: the arithmetic of `find_path` without its table.
  A search takes steps until it hits a target, runs out of steps, or stands where it should not.
 */
module Orbit {

  /** `Found(n)`: the n-th element visited is a hit; `Stuck`: an element visited is not admissible. */
  datatype SearchResult = Found(len: nat) | Exhausted | Stuck

  function Iterate<T>(f: T -> T, x: T, n: nat): T {
    if n == 0 then x else f(Iterate(f, x, n - 1))
  }

  /** The search with n steps taken already. */
  function Search<T>(f: T -> T, ok: T -> bool, hit: T -> bool, x: T, n: nat, max: nat): SearchResult
    decreases max - n
  {
    if n >= max then Exhausted
    else if !ok(Iterate(f, x, n)) then Stuck
    else if hit(Iterate(f, x, n)) then Found(n + 1)
    else Search(f, ok, hit, x, n + 1, max)
  }

  ghost predicate NoHit<T(!new)>(f: T -> T, hit: T -> bool, x: T, n: nat) {
    forall i: nat | i < n :: !hit(Iterate(f, x, i))
  }

  /** r names the first hit among the first max elements, or says that there is none. */
  ghost predicate FirstHit<T(!new)>(f: T -> T, hit: T -> bool, x: T, max: nat, r: SearchResult) {
    match r
    case Stuck => false
    case Exhausted => NoHit(f, hit, x, max)
    case Found(n) => 1 <= n <= max && hit(Iterate(f, x, n - 1)) && NoHit(f, hit, x, n - 1)
  }

  /** Admissible elements that are not hits lead to admissible elements. */
  ghost predicate Closed<T(!new)>(f: T -> T, ok: T -> bool, hit: T -> bool) {
    forall x | ok(x) && !hit(x) :: ok(f(x))
  }

  lemma StaysAdmissible<T(!new)>(f: T -> T, ok: T -> bool, hit: T -> bool, x: T, n: nat)
    requires Closed(f, ok, hit) && ok(x) && NoHit(f, hit, x, n)
    ensures ok(Iterate(f, x, n))
  {
    if n > 0 {
      StaysAdmissible(f, ok, hit, x, n - 1);
    }
  }

  lemma {:induction false} SearchFindsFirstHit<T(!new)>(f: T -> T, ok: T -> bool, hit: T -> bool, x: T,
                                                        n: nat, max: nat)
    requires Closed(f, ok, hit) && ok(x) && NoHit(f, hit, x, n) && n <= max
    ensures FirstHit(f, hit, x, max, Search(f, ok, hit, x, n, max))
    decreases max - n
  {
    if n < max {
      StaysAdmissible(f, ok, hit, x, n);
      if !hit(Iterate(f, x, n)) {
        SearchFindsFirstHit(f, ok, hit, x, n + 1, max);
      }
    }
  }

  /** From an admissible start the search is never stuck and returns exactly the first hit. */
  lemma SearchIsExact<T(!new)>(f: T -> T, ok: T -> bool, hit: T -> bool, x: T, max: nat, r: SearchResult)
    requires Closed(f, ok, hit) && ok(x)
    ensures Search(f, ok, hit, x, 0, max) == r <==> FirstHit(f, hit, x, max, r)
  {
    SearchFindsFirstHit(f, ok, hit, x, 0, max);
  }

  /** An orbit is deterministic: meeting an element again repeats everything after it. */
  lemma {:induction false} OrbitRepeats<T>(f: T -> T, x: T, a: nat, b: nat, d: nat)
    requires Iterate(f, x, a) == Iterate(f, x, b)
    ensures Iterate(f, x, a + d) == Iterate(f, x, b + d)
    decreases d
  {
    if d > 0 {
      OrbitRepeats(f, x, a, b, d - 1);
    }
  }

  /** Up to the first hit nothing is met twice, for then the hit would have been met earlier. */
  lemma OrbitIsSimple<T(!new)>(f: T -> T, hit: T -> bool, x: T, n: nat, a: nat, b: nat)
    requires a < b <= n && hit(Iterate(f, x, n)) && NoHit(f, hit, x, n)
    ensures Iterate(f, x, a) != Iterate(f, x, b)
  {
    var d := n - b;
    assert !hit(Iterate(f, x, a + d)) && hit(Iterate(f, x, b + d));
    if Iterate(f, x, a) == Iterate(f, x, b) {
      OrbitRepeats(f, x, a, b, d);
    }
  }

  // ---------- Searches told by another predicate ----------

  /** r tells, element by element, whether the search would hit there, as long as it gets there. */
  ghost predicate Tells<T(!new)>(f: T -> T, hit: T -> bool, x: T, r: nat -> bool, max: nat) {
    forall k: nat | k < max && NoHit(f, hit, x, k) :: hit(Iterate(f, x, k)) <==> r(k)
  }

  ghost predicate NoneBelow(r: nat -> bool, n: nat) {
    forall k: nat | k < n :: !r(k)
  }

  lemma {:induction false} NoHitTold<T(!new)>(f: T -> T, hit: T -> bool, x: T, r: nat -> bool, max: nat, n: nat)
    requires Tells(f, hit, x, r, max) && n <= max
    ensures NoHit(f, hit, x, n) <==> NoneBelow(r, n)
    decreases n
  {
    if n > 0 {
      NoHitTold(f, hit, x, r, max, n - 1);
    }
  }

  lemma FirstHitTold<T(!new)>(f: T -> T, hit: T -> bool, x: T, r: nat -> bool, max: nat, n: nat)
    requires Tells(f, hit, x, r, max)
    ensures FirstHit(f, hit, x, max, Found(n)) <==> 1 <= n <= max && r(n - 1) && NoneBelow(r, n - 1)
    ensures FirstHit(f, hit, x, max, Exhausted) <==> NoneBelow(r, max)
  {
    NoHitTold(f, hit, x, r, max, max);
    if 1 <= n <= max {
      NoHitTold(f, hit, x, r, max, n - 1);
    }
  }
}
