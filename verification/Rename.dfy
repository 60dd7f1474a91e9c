/**
  The rename system call over the dentry tree: `lock_rename` computes a "trap", `do_renameat2` and
  `vfs_rename` refuse or perform the change. The specification never mentions the trap: it says
  which dentries are above which, and the tests against the trap are proved to decide exactly that.
 */
module Rename {
  import opened Wrappers
  import Orbit
  import opened Forest
  import opened DentryTree

  datatype Errno = EINVAL | EBUSY | EEXIST | ENOENT | ENOTDIR | EISDIR | ENOTEMPTY | Other(code: nat)

  datatype Flags = Flags(noReplace: bool, exchange: bool, whiteout: bool)

  /** The last component of a path: a name, maybe followed by slashes, or one of ".", ".." and "/". */
  datatype LastName = Norm(name: string, slash: bool) | Special

  /** A rename whose two paths have been walked up to their last components; `fs` is what the
      filesystem's own rename operation will answer, None being success. */
  datatype Request = Request(oldDir: Id, oldLast: LastName, newDir: Id, newLast: LastName,
                             flags: Flags, fs: Option<Errno>)

  // ---------- The trap ----------

  /** c is the child of a that is b or above b. */
  ghost predicate Branch(par: Id -> Id, root: Id, a: Id, b: Id, c: Id) {
    c != root && par(c) == a && Above(par, c, b)
  }

  ghost predicate IsDAncestor(par: Id -> Id, root: Id, a: Id, b: Id, r: Option<Id>) {
    match r
    case Some(c) => Branch(par, root, a, b, c)
    case None => forall c :: !Branch(par, root, a, b, c)
  }

  /** What `lock_rename(p1, p2)` returns. */
  ghost predicate IsTrap(par: Id -> Id, root: Id, p1: Id, p2: Id, trap: Option<Id>) {
    if p1 == p2 then trap == None
    else if trap.Some? && Branch(par, root, p2, p1, trap.value) then true
    else IsDAncestor(par, root, p2, p1, None) && IsDAncestor(par, root, p1, p2, trap)
  }

  lemma BranchesDoNotCross(par: Id -> Id, root: Id, dom: set<Id>, p1: Id, p2: Id, c: Id, d: Id)
    requires Rooted(par, root, dom) && d in dom && Branch(par, root, p1, p2, d)
    ensures !Branch(par, root, p2, p1, c)
  {
    if Branch(par, root, p2, p1, c) {
      AboveParent(par, d, c);
      Transitive(par, d, c, p1);
      NoCycle(par, root, dom, d);
    }
  }

  lemma SourceTrap(par: Id -> Id, root: Id, dom: set<Id>, p1: Id, p2: Id, trap: Option<Id>, s: Id)
    requires Rooted(par, root, dom) && p1 in dom && p2 in dom && IsTrap(par, root, p1, p2, trap)
    requires s in dom && s != root && par(s) == p2
    ensures trap == Some(s) <==> Above(par, s, p1)
  {
    if Above(par, s, p1) {
      assert Branch(par, root, p2, p1, s);
      if p1 == p2 {
        NoCycle(par, root, dom, s);
      } else {
        AboveIsInside(par, root, dom, trap.value, p1);
        SameBranch(par, root, dom, s, trap.value, p1);
      }
    }
  }

  lemma TargetTrap(par: Id -> Id, root: Id, dom: set<Id>, p1: Id, p2: Id, trap: Option<Id>, d: Id)
    requires Rooted(par, root, dom) && p1 in dom && p2 in dom && IsTrap(par, root, p1, p2, trap)
    requires d in dom && d != root && par(d) == p1
    ensures trap == Some(d) <==> Above(par, d, p2)
  {
    if Above(par, d, p2) {
      assert Branch(par, root, p1, p2, d);
      if p1 == p2 {
        NoCycle(par, root, dom, d);
      } else {
        if trap.Some? {
          BranchesDoNotCross(par, root, dom, p1, p2, trap.value, d);
        }
        AboveIsInside(par, root, dom, trap.value, p2);
        SameBranch(par, root, dom, d, trap.value, p2);
      }
    }
  }

  /**
    The trap tests of `do_renameat2` are exact: with p1 the new directory and p2 the old one, the
    source is the trap iff it is the new directory or above it, and the target is the trap iff it
    is the old directory or above it.
   */
  lemma TrapIsExact(t: Tree, newDir: Id, oldDir: Id, trap: Option<Id>, x: Id)
    requires IsTree(t) && newDir in t.at && oldDir in t.at
    requires IsTrap(Parents(t), t.root, newDir, oldDir, trap)
    requires x in t.at && x != t.root
    ensures t.at[x].parent == oldDir ==> (trap == Some(x) <==> Above(Parents(t), x, newDir))
    ensures t.at[x].parent == newDir ==> (trap == Some(x) <==> Above(Parents(t), x, oldDir))
  {
    if Parents(t)(x) == oldDir {
      SourceTrap(Parents(t), t.root, t.at.Keys, newDir, oldDir, trap, x);
    }
    if Parents(t)(x) == newDir {
      TargetTrap(Parents(t), t.root, t.at.Keys, newDir, oldDir, trap, x);
    }
  }

  // ---------- What the call does ----------

  predicate LookedUp(t: Tree, x: Option<Id>) {
    x.Some? ==> x.value in t.at
  }

  /** The checks of `do_renameat2` once both names have been looked up: s is the source, d what the
      new name stands for. */
  ghost function Screened(t: Tree, r: Request, s: Id, d: Option<Id>): Option<Errno>
    requires r.oldLast.Norm? && r.newLast.Norm?
  {
    var f := r.flags;
    if f.noReplace && d.Some? then Some(EEXIST)
    else if f.exchange && d.None? then Some(ENOENT)
    else if f.exchange && !IsDir(t, d.value) && r.newLast.slash then Some(ENOTDIR)
    else if !IsDir(t, s) && (r.oldLast.slash || (!f.exchange && r.newLast.slash)) then Some(ENOTDIR)
    else if Above(Parents(t), s, r.newDir) then Some(EINVAL)
    else if d.Some? && Above(Parents(t), d.value, r.oldDir) then Some(if f.exchange then EINVAL else ENOTEMPTY)
    else None
  }

  /** Two names of one file: renaming one to the other does nothing and succeeds. */
  predicate SameInode(t: Tree, s: Id, d: Option<Id>)
    requires s in t.at && LookedUp(t, d)
  {
    d.Some? && t.at[s].inode == t.at[d.value].inode
  }

  /** The answer of `vfs_rename`. */
  function VfsAnswer(t: Tree, r: Request, s: Id, d: Option<Id>): Option<Errno>
    requires s in t.at && LookedUp(t, d)
  {
    if SameInode(t, s, d) then None
    else if d.Some? && !r.flags.exchange && IsDir(t, s) && !IsDir(t, d.value) then Some(ENOTDIR)
    else if d.Some? && !r.flags.exchange && !IsDir(t, s) && IsDir(t, d.value) then Some(EISDIR)
    else r.fs
  }

  /** The tree after `vfs_rename` has succeeded. */
  function Changed(t: Tree, r: Request, s: Id, d: Option<Id>): Tree
    requires s in t.at && LookedUp(t, d) && r.newLast.Norm?
  {
    if SameInode(t, s, d) then t
    else if r.flags.exchange && d.Some? then DExchange(t, s, d.value)
    else DMove(t, s, d, r.newDir, r.newLast.name)
  }

  /** The refusals that come before the directories are locked. */
  function Early(r: Request): Option<Errno> {
    if (r.flags.noReplace || r.flags.whiteout) && r.flags.exchange then Some(EINVAL)
    else if r.oldLast.Special? then Some(EBUSY)
    else if r.newLast.Special? then Some(if r.flags.noReplace then EEXIST else EBUSY)
    else None
  }

  /** What the call returns and the tree it leaves. */
  datatype Outcome = Outcome(error: Option<Errno>, tree: Tree)

  ghost function Performed(t: Tree, r: Request, s: Id, d: Option<Id>): Outcome
    requires s in t.at && LookedUp(t, d) && r.oldLast.Norm? && r.newLast.Norm?
  {
    if Screened(t, r, s, d).Some? then Outcome(Screened(t, r, s, d), t)
    else if VfsAnswer(t, r, s, d).Some? then Outcome(VfsAnswer(t, r, s, d), t)
    else Outcome(None, Changed(t, r, s, d))
  }

  ghost function Rename(t: Tree, r: Request): Outcome {
    if Early(r).Some? then Outcome(Early(r), t)
    else if Lookup(t, r.oldDir, r.oldLast.name).None? then Outcome(Some(ENOENT), t)
    else Performed(t, r, Lookup(t, r.oldDir, r.oldLast.name).value, Lookup(t, r.newDir, r.newLast.name))
  }

  /** The two names have been looked up and the checks passed. */
  ghost predicate Ready(t: Tree, r: Request, s: Id, d: Option<Id>) {
    && r.oldLast.Norm? && r.newLast.Norm?
    && Lookup(t, r.oldDir, r.oldLast.name) == Some(s)
    && Lookup(t, r.newDir, r.newLast.name) == d
    && Screened(t, r, s, d).None?
  }

  /** A plain rename that passes every check replaces d, as the filesystem agrees to. */
  ghost predicate Replaces(t: Tree, r: Request, s: Id, d: Id) {
    Ready(t, r, s, Some(d)) && !r.flags.exchange && !SameInode(t, s, Some(d)) && VfsAnswer(t, r, s, Some(d)).None?
  }

  /**
    The two paths end in directories, and the filesystem never agrees to replace a dentry that has
    children. What it would answer to a rename that is refused before it is asked does not matter.
   */
  ghost predicate Lawful(t: Tree, r: Request) {
    && IsDir(t, r.oldDir) && IsDir(t, r.newDir)
    && forall s, d | Replaces(t, r, s, d) :: Childless(t, d)
  }

  // ---------- Every rename keeps a tree ----------

  lemma ChildlessIsLeaf(t: Tree, d: Id, s: Id)
    requires Childless(t, d)
    ensures Leaf(Parents(t), t.at.Keys, d, s)
  {
  }

  lemma PlainKeepsTree(t: Tree, s: Id, d: Option<Id>, dir: Id, name: string)
    requires IsTree(t) && Movable(t, s, d, dir, name)
    requires !Above(Parents(t), s, dir) && (d.Some? ==> Childless(t, d.value))
    ensures IsTree(DMove(t, s, d, dir, name))
  {
    if d.Some? {
      ChildlessIsLeaf(t, d.value, s);
    }
    MoveKeepsTreeExactly(t, s, d, dir, name);
  }

  lemma SwapKeepsTree(t: Tree, s: Id, d: Id)
    requires IsTree(t) && Swappable(t, s, d)
    requires !Above(Parents(t), s, t.at[d].parent) && !Above(Parents(t), d, t.at[s].parent)
    ensures IsTree(DExchange(t, s, d))
  {
    ExchangeKeepsTreeExactly(t, s, d);
  }

  lemma ChangedKeepsTree(t: Tree, r: Request, s: Id, d: Option<Id>)
    requires IsTree(t) && Lawful(t, r) && Ready(t, r, s, d) && VfsAnswer(t, r, s, d).None?
    ensures IsTree(Changed(t, r, s, d))
  {
    if SameInode(t, s, d) {
      assert Changed(t, r, s, d) == t;
    } else if r.flags.exchange {
      assert Changed(t, r, s, d) == DExchange(t, s, d.value);
      SwapKeepsTree(t, s, d.value);
    } else {
      assert Changed(t, r, s, d) == DMove(t, s, d, r.newDir, r.newLast.name);
      assert d.Some? ==> Replaces(t, r, s, d.value);
      PlainKeepsTree(t, s, d, r.newDir, r.newLast.name);
    }
  }

  /** Whatever it returns, a rename leaves a tree. */
  lemma RenameKeepsTree(t: Tree, r: Request)
    requires IsTree(t) && Lawful(t, r)
    ensures IsTree(Rename(t, r).tree)
    ensures Rename(t, r).error.Some? ==> Rename(t, r).tree == t
  {
    if Early(r).None? && Lookup(t, r.oldDir, r.oldLast.name).Some? {
      var s, d := Lookup(t, r.oldDir, r.oldLast.name).value, Lookup(t, r.newDir, r.newLast.name);
      if Screened(t, r, s, d).None? && VfsAnswer(t, r, s, d).None? {
        ChangedKeepsTree(t, r, s, d);
      }
    }
  }

  ghost predicate LawfulRun(t: Tree, rs: seq<Request>)
    decreases |rs|
  {
    rs == [] || (Lawful(t, rs[0]) && LawfulRun(Rename(t, rs[0]).tree, rs[1..]))
  }

  ghost function RunAll(t: Tree, rs: seq<Request>): Tree
    decreases |rs|
  {
    if rs == [] then t else RunAll(Rename(t, rs[0]).tree, rs[1..])
  }

  /** Surviving dentries are the ones there were, with the inodes and kinds they had. */
  ghost predicate Survivors(t: Tree, t': Tree) {
    t'.root == t.root && forall x {:trigger t'.at[x]} | x in t'.at ::
        x in t.at && t'.at[x].inode == t.at[x].inode && t'.at[x].isDir == t.at[x].isDir
  }

  lemma RenameSurvivors(t: Tree, r: Request)
    ensures Survivors(t, Rename(t, r).tree)
  {
  }

  lemma SurvivorsChain(t: Tree, t1: Tree, t2: Tree)
    requires Survivors(t, t1) && Survivors(t1, t2)
    ensures Survivors(t, t2)
  {
  }

  /** Over every run of renames the dentries stay a rooted tree with unambiguous names. */
  lemma {:induction false} RunKeepsTree(t: Tree, rs: seq<Request>)
    requires IsTree(t) && LawfulRun(t, rs)
    ensures IsTree(RunAll(t, rs)) && Survivors(t, RunAll(t, rs))
    decreases |rs|
  {
    if rs != [] {
      RenameKeepsTree(t, rs[0]);
      RenameSurvivors(t, rs[0]);
      RunKeepsTree(Rename(t, rs[0]).tree, rs[1..]);
      SurvivorsChain(t, Rename(t, rs[0]).tree, RunAll(t, rs));
    }
  }

  /** Without the trap tests no rename they refuse would have left a tree. */
  lemma RefusedRenamesBreakTheTree(t: Tree, r: Request, s: Id, d: Option<Id>)
    requires IsTree(t) && IsDir(t, r.oldDir) && IsDir(t, r.newDir) && r.oldLast.Norm? && r.newLast.Norm?
    requires Lookup(t, r.oldDir, r.oldLast.name) == Some(s) && Lookup(t, r.newDir, r.newLast.name) == d
    requires Above(Parents(t), s, r.newDir) || (d.Some? && Above(Parents(t), d.value, r.oldDir) && r.flags.exchange)
    requires !SameInode(t, s, d) && (r.flags.exchange ==> d.Some?)
    ensures !IsTree(Changed(t, r, s, d))
  {
    if r.flags.exchange {
      ExchangeKeepsTreeExactly(t, s, d.value);
    } else {
      MoveKeepsTreeExactly(t, s, d, r.newDir, r.newLast.name);
    }
  }

  /** A successful plain rename: the new name finds the source, the old name nothing. */
  lemma RenameRelinks(t: Tree, r: Request, p: Id, n: string)
    requires IsTree(t) && IsDir(t, r.oldDir) && IsDir(t, r.newDir) && Rename(t, r).error.None?
    ensures Lookup(t, r.oldDir, r.oldLast.name).Some?
    ensures var s, d := Lookup(t, r.oldDir, r.oldLast.name), Lookup(t, r.newDir, r.newLast.name);
            !SameInode(t, s.value, d) ==>
              Lookup(Rename(t, r).tree, p, n) ==
                if p == r.newDir && n == r.newLast.name then s
                else if p == r.oldDir && n == r.oldLast.name then (if r.flags.exchange then d else None)
                else Lookup(t, p, n)
  {
    var s, d := Lookup(t, r.oldDir, r.oldLast.name), Lookup(t, r.newDir, r.newLast.name);
    if SameInode(t, s.value, d) {
    } else if r.flags.exchange {
      ExchangeRelinks(t, s.value, d.value, p, n);
    } else {
      MoveRelinks(t, s.value, d, r.newDir, r.newLast.name, p, n);
    }
  }

  // ---------- The code ----------

  /** The dentry cache: `at` holds the d_parent and d_name fields that renames write. */
  class Dcache {
    const root: Id
    var at: map<Id, Dentry>

    ghost function Value(): Tree
      reads this
    {
      Tree(root, at)
    }

    constructor (t: Tree)
      ensures Value() == t
    {
      root := t.root;
      at := t.at;
    }

    /** The child of a that is b or above b, if a is a proper ancestor of b. */
    method DAncestor(a: Id, b: Id) returns (r: Option<Id>)
      requires IsTree(Value()) && b in at
      ensures IsDAncestor(Parents(Value()), root, a, b, r)
    {
      ghost var par := Parents(Value());
      var p := b;
      AboveItself(par, b);
      assert Above(par, root, b);
      ghost var left: nat :| Orbit.Iterate(par, b, left) == root;
      while p != root
        invariant p in at && Above(par, p, b) && Orbit.Iterate(par, p, left) == root
        invariant forall c | Branch(par, root, a, b, c) :: Above(par, c, p)
        decreases left
      {
        if at[p].parent == a {
          return Some(p);
        }
        left := Climb(par, root, a, b, p, left);
        p := at[p].parent;
      }
      forall c ensures !Branch(par, root, a, b, c) {
        if Branch(par, root, a, b, c) {
          OnlyRootAboveRoot(par, root, c);
        }
      }
      return None;
    }

    method LockRename(p1: Id, p2: Id) returns (trap: Option<Id>)
      requires IsTree(Value()) && p1 in at && p2 in at
      ensures IsTrap(Parents(Value()), root, p1, p2, trap)
    {
      if p1 == p2 {
        return None;
      }
      trap := DAncestor(p2, p1);
      if trap.Some? {
        return trap;
      }
      trap := DAncestor(p1, p2);
    }

    /** The hash lookup of a name in a directory. */
    method LookupHash(dir: Id, name: string) returns (r: Option<Id>)
      requires NamesUnique(Value())
      ensures r == Lookup(Value(), dir, name)
    {
      if c :| c in at && c != root && at[c].parent == dir && at[c].name == name {
        LookupIs(Value(), dir, name, c);
        r := Some(c);
      } else {
        assert forall c :: !IsChild(Value(), dir, name, c);
        r := None;
      }
    }

    /** `d_move` of s to (dir, name), where d was. */
    method MoveDentry(s: Id, d: Option<Id>, dir: Id, name: string)
      requires s in at
      modifies `at
      ensures Value() == DMove(old(Value()), s, d, dir, name)
    {
      at := at[s := at[s].(parent := dir, name := name)];
      if d.Some? {
        at := at - {d.value};
      }
    }

    /** `d_exchange`. */
    method ExchangeDentries(s: Id, d: Id)
      requires s in at && d in at
      modifies `at
      ensures Value() == DExchange(old(Value()), s, d)
    {
      var parent, name := at[s].parent, at[s].name;
      at := at[s := at[s].(parent := at[d].parent, name := at[d].name)];
      at := at[d := at[d].(parent := parent, name := name)];
    }

    /** `may_delete` of a target, when a plain rename brings a directory or something else. */
    method MayReplace(target: Id, isDir: bool) returns (error: Option<Errno>)
      requires target in at
      ensures error.None? <==> (isDir <==> at[target].isDir)
      ensures error.Some? ==> error.value == if at[target].isDir then EISDIR else ENOTDIR
    {
      if isDir {
        if !at[target].isDir {
          return Some(ENOTDIR);
        }
      } else if at[target].isDir {
        return Some(EISDIR);
      }
      return None;
    }

    method VfsRename(r: Request, s: Id, d: Option<Id>) returns (error: Option<Errno>)
      requires s in at && LookedUp(Value(), d) && r.newLast.Norm? && (r.flags.exchange ==> d.Some?)
      modifies `at
      ensures error == VfsAnswer(old(Value()), r, s, d)
      ensures Value() == if error.Some? then old(Value()) else Changed(old(Value()), r, s, d)
    {
      if d.Some? && at[s].inode == at[d.value].inode {
        return None;
      }
      if d.Some? && !r.flags.exchange {
        error := MayReplace(d.value, at[s].isDir);
        if error.Some? {
          return error;
        }
      }
      error := r.fs;
      if error.Some? {
        return error;
      }
      if !r.flags.exchange {
        MoveDentry(s, d, r.newDir, r.newLast.name);
      } else {
        ExchangeDentries(s, d.value);
      }
    }

    /** The tests of `do_renameat2` between the lookups and `vfs_rename`. */
    method Screen(r: Request, s: Id, d: Option<Id>, trap: Option<Id>) returns (error: Option<Errno>)
      requires IsTree(Value()) && IsDir(Value(), r.oldDir) && IsDir(Value(), r.newDir)
      requires r.oldLast.Norm? && r.newLast.Norm?
      requires IsChild(Value(), r.oldDir, r.oldLast.name, s)
      requires d.Some? ==> IsChild(Value(), r.newDir, r.newLast.name, d.value)
      requires IsTrap(Parents(Value()), root, r.newDir, r.oldDir, trap)
      ensures error == Screened(Value(), r, s, d)
    {
      if r.flags.noReplace && d.Some? {
        return Some(EEXIST);
      }
      if r.flags.exchange {
        if d.None? {
          return Some(ENOENT);
        }
        if !at[d.value].isDir {
          if r.newLast.slash {
            return Some(ENOTDIR);
          }
        }
      }
      if !at[s].isDir {
        if r.oldLast.slash {
          return Some(ENOTDIR);
        }
        if !r.flags.exchange && r.newLast.slash {
          return Some(ENOTDIR);
        }
      }
      error := TestTrap(r, s, d, trap);
    }

    method TestTrap(r: Request, s: Id, d: Option<Id>, trap: Option<Id>) returns (error: Option<Errno>)
      requires IsTree(Value()) && IsDir(Value(), r.oldDir) && IsDir(Value(), r.newDir)
      requires r.oldLast.Norm? && r.newLast.Norm?
      requires IsChild(Value(), r.oldDir, r.oldLast.name, s)
      requires d.Some? ==> IsChild(Value(), r.newDir, r.newLast.name, d.value)
      requires IsTrap(Parents(Value()), root, r.newDir, r.oldDir, trap)
      ensures error == if Above(Parents(Value()), s, r.newDir) then Some(EINVAL)
                       else if d.Some? && Above(Parents(Value()), d.value, r.oldDir) then
                         Some(if r.flags.exchange then EINVAL else ENOTEMPTY)
                       else None
    {
      TrapIsExact(Value(), r.newDir, r.oldDir, trap, s);
      if trap == Some(s) {
        return Some(EINVAL);
      }
      if d.Some? {
        TrapIsExact(Value(), r.newDir, r.oldDir, trap, d.value);
        if trap == d {
          return Some(if r.flags.exchange then EINVAL else ENOTEMPTY);
        }
      }
      return None;
    }

    /** `do_renameat2` after the path walks: it does what `Rename` says and keeps a tree. */
    method DoRename(r: Request) returns (error: Option<Errno>)
      requires IsTree(Value()) && Lawful(Value(), r)
      modifies `at
      ensures Outcome(error, Value()) == Rename(old(Value()), r)
      ensures IsTree(Value())
    {
      RenameKeepsTree(Value(), r);
      if (r.flags.noReplace || r.flags.whiteout) && r.flags.exchange {
        return Some(EINVAL);
      }
      if r.oldLast.Special? {
        return Some(EBUSY);
      }
      error := if r.flags.noReplace then Some(EEXIST) else Some(EBUSY);
      if r.newLast.Special? {
        return error;
      }
      error := RenameLocked(r);
    }

    /** The part of `do_renameat2` that runs with the directories locked. */
    method RenameLocked(r: Request) returns (error: Option<Errno>)
      requires IsTree(Value()) && Lawful(Value(), r) && Early(r).None?
      modifies `at
      ensures Outcome(error, Value()) == Rename(old(Value()), r)
    {
      var trap := LockRename(r.newDir, r.oldDir);
      var s := LookupHash(r.oldDir, r.oldLast.name);
      if s.None? {
        return Some(ENOENT);
      }
      var d := LookupHash(r.newDir, r.newLast.name);
      error := Screen(r, s.value, d, trap);
      if error.None? {
        error := VfsRename(r, s.value, d);
      }
    }
  }

  /** One step of the climb passes no branch of a. */
  lemma Climb(par: Id -> Id, root: Id, a: Id, b: Id, p: Id, left: nat) returns (less: nat)
    requires p != root && par(p) != a && Above(par, p, b) && Orbit.Iterate(par, p, left) == root
    requires forall c | Branch(par, root, a, b, c) :: Above(par, c, p)
    ensures less < left && Orbit.Iterate(par, par(p), less) == root && Above(par, par(p), b)
    ensures forall c | Branch(par, root, a, b, c) :: Above(par, c, par(p))
  {
    less := left - 1;
    IterateFirst(par, p, less);
    ParentIsAbove(par, p, b);
    forall c | Branch(par, root, a, b, c) ensures Above(par, c, par(p)) {
      AboveMeansAboveParent(par, c, p);
    }
  }
}
