/**
  Parent functions that form a rooted tree, and what moving one node, or swapping two, does to
  them. No dentries yet: a tree is a function from nodes to parents, with the root its own parent.
 */
module Forest {
  import opened Orbit
  import opened Wrappers

  type Id = nat

  /** a is x or one of its ancestors. */
  ghost predicate Above(par: Id -> Id, a: Id, x: Id) {
    exists k: nat :: Iterate(par, x, k) == a
  }

  /** Climbing from any node of the set arrives at the root. */
  ghost predicate Rooted(par: Id -> Id, root: Id, dom: set<Id>) {
    && root in dom
    && par(root) == root
    && (forall x {:trigger par(x)} | x in dom :: par(x) in dom)
    && (forall x {:trigger Above(par, root, x)} | x in dom :: Above(par, root, x))
  }

  lemma {:induction false} IterateFirst(par: Id -> Id, x: Id, k: nat)
    ensures Iterate(par, x, k + 1) == Iterate(par, par(x), k)
    decreases k
  {
    if k > 0 {
      IterateFirst(par, x, k - 1);
    } else {
      assert Iterate(par, x, 1) == par(Iterate(par, x, 0));
    }
  }

  lemma {:induction false} IterateAdd(par: Id -> Id, x: Id, j: nat, k: nat)
    ensures Iterate(par, x, j + k) == Iterate(par, Iterate(par, x, j), k)
    decreases k
  {
    if k > 0 {
      IterateAdd(par, x, j, k - 1);
    }
  }

  lemma {:induction false} RootIsFixed(par: Id -> Id, root: Id, k: nat)
    requires par(root) == root
    ensures Iterate(par, root, k) == root
    decreases k
  {
    if k > 0 {
      RootIsFixed(par, root, k - 1);
    }
  }

  lemma AboveItself(par: Id -> Id, x: Id)
    ensures Above(par, x, x)
  {
    assert Iterate(par, x, 0) == x;
  }

  lemma AboveParent(par: Id -> Id, a: Id, x: Id)
    requires Above(par, a, par(x))
    ensures Above(par, a, x)
  {
    var k: nat :| Iterate(par, par(x), k) == a;
    IterateFirst(par, x, k);
  }

  /** A proper ancestor is above the parent. */
  lemma AboveMeansAboveParent(par: Id -> Id, a: Id, x: Id)
    requires Above(par, a, x) && a != x
    ensures Above(par, a, par(x))
  {
    var k: nat :| Iterate(par, x, k) == a;
    IterateFirst(par, x, k - 1);
  }

  lemma ParentIsAbove(par: Id -> Id, a: Id, x: Id)
    requires Above(par, a, x)
    ensures Above(par, par(a), x)
  {
    var k: nat :| Iterate(par, x, k) == a;
    assert Iterate(par, x, k + 1) == par(a);
  }

  lemma {:induction false} Transitive(par: Id -> Id, a: Id, b: Id, x: Id)
    requires Above(par, a, b) && Above(par, b, x)
    ensures Above(par, a, x)
  {
    var j: nat :| Iterate(par, x, j) == b;
    var k: nat :| Iterate(par, b, k) == a;
    IterateAdd(par, x, j, k);
  }

  lemma OnlyRootAboveRoot(par: Id -> Id, root: Id, a: Id)
    requires par(root) == root && Above(par, a, root)
    ensures a == root
  {
    var k: nat :| Iterate(par, root, k) == a;
    RootIsFixed(par, root, k);
  }

  lemma {:induction false} ClimbStaysInside(par: Id -> Id, root: Id, dom: set<Id>, x: Id, k: nat)
    requires Rooted(par, root, dom) && x in dom
    ensures Iterate(par, x, k) in dom
    decreases k
  {
    if k > 0 {
      ClimbStaysInside(par, root, dom, x, k - 1);
    }
  }

  lemma AboveIsInside(par: Id -> Id, root: Id, dom: set<Id>, a: Id, x: Id)
    requires Rooted(par, root, dom) && x in dom && Above(par, a, x)
    ensures a in dom
  {
    var k: nat :| Iterate(par, x, k) == a;
    ClimbStaysInside(par, root, dom, x, k);
  }

  // ---------- No cycles ----------

  /** A set closed under parents that does not hold the root is never left. */
  lemma {:induction false} ClosedIsTrap(par: Id -> Id, root: Id, inside: Id -> bool, x: Id, k: nat)
    requires forall y | inside(y) :: inside(par(y))
    requires inside(x) && !inside(root)
    ensures inside(Iterate(par, x, k))
    decreases k
  {
    if k > 0 {
      ClosedIsTrap(par, root, inside, x, k - 1);
    }
  }

  ghost predicate OnCycle(par: Id -> Id, x: Id, y: Id) {
    Above(par, y, par(x)) && Above(par, x, y)
  }

  lemma CycleIsClosed(par: Id -> Id, x: Id, y: Id)
    requires Above(par, x, par(x)) && OnCycle(par, x, y)
    ensures OnCycle(par, x, par(y))
  {
    ParentIsAbove(par, y, par(x));
    if x != y {
      AboveMeansAboveParent(par, x, y);
    }
  }

  /** Nothing but the root is above its own parent. */
  lemma NoCycle(par: Id -> Id, root: Id, dom: set<Id>, x: Id)
    requires Rooted(par, root, dom) && x in dom && Above(par, x, par(x))
    ensures x == root
  {
    if x != root {
      var inside := (y: Id) => OnCycle(par, x, y);
      forall y | inside(y) ensures inside(par(y)) {
        CycleIsClosed(par, x, y);
      }
      AboveItself(par, x);
      AboveItself(par, par(x));
      ParentIsAbove(par, x, par(x));
      if inside(root) {
        OnlyRootAboveRoot(par, root, x);
      }
      assert inside(par(x));
      assert Above(par, root, x);
      var k: nat :| Iterate(par, x, k) == root;
      IterateFirst(par, x, k);
      RootIsFixed(par, root, 1);
      assert Iterate(par, par(x), k) == par(root) by { assert Iterate(par, x, k + 1) == par(Iterate(par, x, k)); }
      ClosedIsTrap(par, root, inside, par(x), k);
    }
  }

  /** A node has one ancestor-or-self among the children of each of its proper ancestors. */
  lemma SameBranch(par: Id -> Id, root: Id, dom: set<Id>, c: Id, d: Id, x: Id)
    requires Rooted(par, root, dom) && c in dom && d in dom && c != root && d != root
    requires par(c) == par(d) && Above(par, c, x) && Above(par, d, x)
    ensures c == d
  {
    var i: nat :| Iterate(par, x, i) == c;
    var j: nat :| Iterate(par, x, j) == d;
    if i < j {
      BelowBranch(par, x, c, d, i, j);
      NoCycle(par, root, dom, d);
    } else if j < i {
      BelowBranch(par, x, d, c, j, i);
      NoCycle(par, root, dom, c);
    }
  }

  lemma BelowBranch(par: Id -> Id, x: Id, c: Id, d: Id, i: nat, j: nat)
    requires i < j && Iterate(par, x, i) == c && Iterate(par, x, j) == d && par(c) == par(d)
    ensures Above(par, d, par(d))
  {
    IterateAdd(par, x, i, j - i);
    IterateFirst(par, c, j - i - 1);
  }

  // ---------- Changing some parents ----------

  ghost predicate AgreeOutside(par: Id -> Id, par': Id -> Id, changed: set<Id>) {
    forall x | x !in changed :: par'(x) == par(x)
  }

  ghost predicate NoneAbove(par: Id -> Id, changed: set<Id>, x: Id) {
    forall c | c in changed :: !Above(par, c, x)
  }

  /** A climb that meets no changed node is the same climb. */
  lemma {:induction false} Undisturbed(par: Id -> Id, par': Id -> Id, changed: set<Id>, x: Id, k: nat)
    requires AgreeOutside(par, par', changed) && NoneAbove(par, changed, x)
    ensures Iterate(par', x, k) == Iterate(par, x, k)
    decreases k
  {
    if k > 0 {
      Undisturbed(par, par', changed, x, k - 1);
      assert Above(par, Iterate(par, x, k - 1), x);
    }
  }

  lemma StillReaches(par: Id -> Id, par': Id -> Id, root: Id, changed: set<Id>, x: Id)
    requires AgreeOutside(par, par', changed) && NoneAbove(par, changed, x) && Above(par, root, x)
    ensures Above(par', root, x)
  {
    var k: nat :| Iterate(par, x, k) == root;
    Undisturbed(par, par', changed, x, k);
  }

  /** If every changed node reaches the root by the new parents, so does every node. */
  lemma {:induction false} Reroute(par: Id -> Id, par': Id -> Id, root: Id, changed: set<Id>, x: Id, k: nat)
    requires AgreeOutside(par, par', changed) && Iterate(par, x, k) == root
    requires forall c | c in changed :: Above(par', root, c)
    ensures Above(par', root, x)
    decreases k
  {
    if k == 0 {
      AboveItself(par', x);
    } else if x !in changed {
      IterateFirst(par, x, k - 1);
      Reroute(par, par', root, changed, par(x), k - 1);
      AboveParent(par', root, x);
    }
  }

  /** Every changed node now hangs from a node no changed node was above: the tree stays rooted. */
  lemma Rehung(par: Id -> Id, par': Id -> Id, root: Id, dom: set<Id>, dom': set<Id>, changed: set<Id>)
    requires Rooted(par, root, dom) && root in dom' && dom' <= dom && root !in changed
    requires AgreeOutside(par, par', changed)
    requires forall c | c in changed :: par'(c) in dom && NoneAbove(par, changed, par'(c))
    requires forall x {:trigger par'(x)} | x in dom' :: par'(x) in dom'
    ensures Rooted(par', root, dom')
  {
    forall c | c in changed ensures Above(par', root, c) {
      StillReaches(par, par', root, changed, par'(c));
      AboveParent(par', root, c);
    }
    forall x | x in dom' ensures Above(par', root, x) {
      assert Above(par, root, x);
      var k: nat :| Iterate(par, x, k) == root;
      Reroute(par, par', root, changed, x, k);
    }
  }

  // ---------- Moving under one's own subtree ----------

  /** The nodes from p up to s. */
  ghost predicate Between(par: Id -> Id, s: Id, p: Id, x: Id) {
    Above(par, s, x) && Above(par, x, p)
  }

  /**
    A node hung from its own subtree is cut off: if the new parents agree with the old ones on the
    way from p up to s, and s now hangs from p, nothing on that way reaches the root.
   */
  lemma CutOff(par: Id -> Id, par': Id -> Id, root: Id, s: Id, p: Id)
    requires par(root) == root && s != root && Above(par, s, p) && par'(s) == p
    requires forall x | Between(par, s, p, x) && x != s :: par'(x) == par(x)
    ensures !Above(par', root, s)
  {
    var inside := (x: Id) => Between(par, s, p, x);
    forall x | inside(x) ensures inside(par'(x)) {
      if x == s {
        AboveItself(par, p);
      } else {
        AboveMeansAboveParent(par, s, x);
        ParentIsAbove(par, x, p);
      }
    }
    AboveItself(par, s);
    if inside(root) {
      OnlyRootAboveRoot(par, root, s);
    }
    if Above(par', root, s) {
      var k: nat :| Iterate(par', s, k) == root;
      ClosedIsTrap(par', root, inside, s, k);
    }
  }

  // ---------- Moving one node ----------

  ghost function Touched(s: Id, d: Option<Id>): set<Id> {
    if d.Some? then {s, d.value} else {s}
  }

  /** s now hangs from dir; d, which hung from dir, is gone. */
  ghost predicate Moved(par: Id -> Id, par': Id -> Id, root: Id, s: Id, dir: Id, d: Option<Id>) {
    && AgreeOutside(par, par', Touched(s, d))
    && par'(s) == dir
    && (d.Some? ==> par(d.value) == dir && par'(d.value) == root && d.value != s && d.value != root)
  }

  ghost function Remaining(dom: set<Id>, d: Option<Id>): set<Id> {
    if d.Some? then dom - {d.value} else dom
  }

  /** Nothing hangs from d besides, perhaps, s. */
  ghost predicate Leaf(par: Id -> Id, dom: set<Id>, d: Id, s: Id) {
    forall x {:trigger par(x)} | x in dom && x != s :: par(x) != d
  }

  lemma GoneIsNotAbove(par: Id -> Id, root: Id, dom: set<Id>, d: Id)
    requires Rooted(par, root, dom) && d in dom && d != root
    ensures !Above(par, d, par(d)) && !Above(par, d, root) && par(d) != d
  {
    if Above(par, d, par(d)) {
      NoCycle(par, root, dom, d);
    }
    if Above(par, d, root) {
      OnlyRootAboveRoot(par, root, d);
    }
    AboveItself(par, d);
  }

  lemma MovedStaysRooted(par: Id -> Id, par': Id -> Id, root: Id, dom: set<Id>, s: Id, dir: Id, d: Option<Id>)
    requires Rooted(par, root, dom) && Moved(par, par', root, s, dir, d)
    requires s in dom && s != root && dir in dom && (d.Some? ==> d.value in dom)
    requires !Above(par, s, dir) && (d.Some? ==> Leaf(par, dom, d.value, s))
    ensures Rooted(par', root, Remaining(dom, d))
  {
    GoneIsNotAbove(par, root, dom, s);
    if d.Some? {
      GoneIsNotAbove(par, root, dom, d.value);
      AboveItself(par, dir);
    }
    var dom' := Remaining(dom, d);
    forall x | x in dom' ensures par'(x) in dom' {
      if x != s {
        assert par'(x) == par(x);
      }
    }
    Rehung(par, par', root, dom, dom', Touched(s, d));
  }

  lemma MovedIsCutOff(par: Id -> Id, par': Id -> Id, root: Id, dom: set<Id>, s: Id, dir: Id, d: Option<Id>)
    requires Rooted(par, root, dom) && Moved(par, par', root, s, dir, d)
    requires s in dom && s != root && dir in dom && (d.Some? ==> d.value in dom)
    requires Above(par, s, dir)
    ensures !Rooted(par', root, Remaining(dom, d))
  {
    if d.Some? {
      GoneIsNotAbove(par, root, dom, d.value);
    }
    CutOff(par, par', root, s, dir);
    assert s in Remaining(dom, d);
  }

  lemma OrphansAreNotRooted(par: Id -> Id, par': Id -> Id, root: Id, dom: set<Id>, s: Id, dir: Id, d: Id)
    requires Rooted(par, root, dom) && Moved(par, par', root, s, dir, Some(d)) && d in dom
    requires !Leaf(par, dom, d, s)
    ensures !Rooted(par', root, dom - {d})
  {
    var x :| x in dom && x != s && par(x) == d;
    GoneIsNotAbove(par, root, dom, d);
    assert par'(x) == d;
  }

  /** A plain move keeps the tree rooted exactly when s is not above dir and d has no other child. */
  lemma MovedExactly(par: Id -> Id, par': Id -> Id, root: Id, dom: set<Id>, s: Id, dir: Id, d: Option<Id>)
    requires Rooted(par, root, dom) && Moved(par, par', root, s, dir, d)
    requires s in dom && s != root && dir in dom && (d.Some? ==> d.value in dom)
    ensures Rooted(par', root, Remaining(dom, d)) <==>
              !Above(par, s, dir) && (d.Some? ==> Leaf(par, dom, d.value, s))
  {
    if Above(par, s, dir) {
      MovedIsCutOff(par, par', root, dom, s, dir, d);
    } else if d.Some? && !Leaf(par, dom, d.value, s) {
      OrphansAreNotRooted(par, par', root, dom, s, dir, d.value);
    } else {
      MovedStaysRooted(par, par', root, dom, s, dir, d);
    }
  }

  // ---------- Swapping two nodes ----------

  ghost predicate Swapped(par: Id -> Id, par': Id -> Id, s: Id, d: Id) {
    AgreeOutside(par, par', {s, d}) && par'(s) == par(d) && par'(d) == par(s)
  }

  lemma SwappedStaysRooted(par: Id -> Id, par': Id -> Id, root: Id, dom: set<Id>, s: Id, d: Id)
    requires Rooted(par, root, dom) && Swapped(par, par', s, d)
    requires s in dom && d in dom && s != root && d != root
    requires !Above(par, s, par(d)) && !Above(par, d, par(s))
    ensures Rooted(par', root, dom)
  {
    GoneIsNotAbove(par, root, dom, s);
    GoneIsNotAbove(par, root, dom, d);
    forall x | x in dom ensures par'(x) in dom {
      if x != s && x != d {
        assert par'(x) == par(x);
      }
    }
    Rehung(par, par', root, dom, dom, {s, d});
  }

  lemma SwappedIsCutOff(par: Id -> Id, par': Id -> Id, root: Id, dom: set<Id>, s: Id, d: Id)
    requires Rooted(par, root, dom) && Swapped(par, par', s, d)
    requires s in dom && d in dom && s != root && d != root
    requires Above(par, s, par(d))
    ensures !Rooted(par', root, dom)
  {
    GoneIsNotAbove(par, root, dom, d);
    CutOff(par, par', root, s, par(d));
  }

  /** A swap keeps the tree rooted exactly when neither node is above the other's parent. */
  lemma SwappedExactly(par: Id -> Id, par': Id -> Id, root: Id, dom: set<Id>, s: Id, d: Id)
    requires Rooted(par, root, dom) && Swapped(par, par', s, d)
    requires s in dom && d in dom && s != root && d != root
    ensures Rooted(par', root, dom) <==> !Above(par, s, par(d)) && !Above(par, d, par(s))
  {
    if Above(par, s, par(d)) {
      SwappedIsCutOff(par, par', root, dom, s, d);
    } else if Above(par, d, par(s)) {
      assert AgreeOutside(par, par', {d, s}) by { assert {d, s} == {s, d}; }
      SwappedIsCutOff(par, par', root, dom, d, s);
    } else {
      SwappedStaysRooted(par, par', root, dom, s, d);
    }
  }
}
