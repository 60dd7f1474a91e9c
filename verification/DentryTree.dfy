/**
  The tree of dentries and the two ways a rename changes it, `d_move` and `d_exchange`, with the
  exact conditions under which each leaves a rooted tree with unambiguous names.
 */
module DentryTree {
  import opened Wrappers
  import opened Forest

  datatype Dentry = Dentry(parent: Id, name: string, inode: nat, isDir: bool)

  /** The positive dentries; the root is its own parent (IS_ROOT). */
  datatype Tree = Tree(root: Id, at: map<Id, Dentry>)

  function Parents(t: Tree): Id -> Id {
    (x: Id) => if x in t.at then t.at[x].parent else t.root
  }

  predicate IsDir(t: Tree, x: Id) { x in t.at && t.at[x].isDir }

  predicate IsChild(t: Tree, dir: Id, name: string, c: Id) {
    c in t.at && c != t.root && t.at[c].parent == dir && t.at[c].name == name
  }

  predicate Namesakes(t: Tree, c: Id, d: Id) {
    c in t.at && c != t.root && IsChild(t, t.at[c].parent, t.at[c].name, d)
  }

  ghost predicate NamesUnique(t: Tree) {
    forall c, d {:trigger Namesakes(t, c, d)} | Namesakes(t, c, d) :: c == d
  }

  ghost predicate ParentsAreDirs(t: Tree) {
    forall x {:trigger t.at[x].parent} | x in t.at :: IsDir(t, t.at[x].parent)
  }

  ghost predicate IsTree(t: Tree) {
    && Rooted(Parents(t), t.root, t.at.Keys)
    && ParentsAreDirs(t)
    && NamesUnique(t)
  }

  /** The child of dir that bears the name. */
  ghost function Lookup(t: Tree, dir: Id, name: string): (r: Option<Id>)
    ensures r.Some? ==> IsChild(t, dir, name, r.value)
    ensures r.None? ==> forall c :: !IsChild(t, dir, name, c)
  {
    if c :| IsChild(t, dir, name, c) then Some(c) else None
  }

  lemma LookupIs(t: Tree, dir: Id, name: string, c: Id)
    requires NamesUnique(t) && IsChild(t, dir, name, c)
    ensures Lookup(t, dir, name) == Some(c)
  {
    assert Namesakes(t, c, Lookup(t, dir, name).value);
  }

  // ---------- The two changes ----------

  /** `d_move`: s takes the place (dir, name); a dentry it replaces leaves the tree. */
  function DMove(t: Tree, s: Id, d: Option<Id>, dir: Id, name: string): Tree
    requires s in t.at
  {
    var moved := t.at[s := t.at[s].(parent := dir, name := name)];
    Tree(t.root, if d.Some? then moved - {d.value} else moved)
  }

  /** `d_exchange`: s and d trade places. */
  function DExchange(t: Tree, s: Id, d: Id): Tree
    requires s in t.at && d in t.at
  {
    var ds, dd := t.at[s], t.at[d];
    Tree(t.root, t.at[s := ds.(parent := dd.parent, name := dd.name)][d := dd.(parent := ds.parent, name := ds.name)])
  }

  ghost predicate Childless(t: Tree, d: Id) {
    forall x | x in t.at :: t.at[x].parent != d
  }

  /** What a plain rename is given: a source, a directory, and what the new name stands for there. */
  ghost predicate Movable(t: Tree, s: Id, d: Option<Id>, dir: Id, name: string) {
    s in t.at && s != t.root && IsDir(t, dir) && d == Lookup(t, dir, name) && d != Some(s)
  }

  ghost predicate Swappable(t: Tree, s: Id, d: Id) {
    s in t.at && d in t.at && s != t.root && d != t.root && s != d
  }

  // ---------- A plain move ----------

  lemma MoveParent(t: Tree, s: Id, d: Option<Id>, dir: Id, name: string, x: Id)
    requires s in t.at && d != Some(s)
    ensures Parents(DMove(t, s, d, dir, name))(x) ==
              if x == s then dir else if d == Some(x) then t.root else Parents(t)(x)
  {
  }

  lemma MoveKeys(t: Tree, s: Id, d: Option<Id>, dir: Id, name: string)
    requires s in t.at
    ensures DMove(t, s, d, dir, name).at.Keys == Remaining(t.at.Keys, d)
  {
    assert t.at[s := t.at[s].(parent := dir, name := name)].Keys == t.at.Keys;
  }

  lemma MoveParents(t: Tree, s: Id, d: Option<Id>, dir: Id, name: string)
    requires s in t.at && d != Some(s)
    requires d.Some? ==> d.value in t.at && d.value != t.root && t.at[d.value].parent == dir
    ensures Moved(Parents(t), Parents(DMove(t, s, d, dir, name)), t.root, s, dir, d)
  {
    var par, par' := Parents(t), Parents(DMove(t, s, d, dir, name));
    forall x | x !in Touched(s, d) ensures par'(x) == par(x) {
      MoveParent(t, s, d, dir, name, x);
    }
    MoveParent(t, s, d, dir, name, s);
    if d.Some? {
      MoveParent(t, s, d, dir, name, d.value);
    }
  }

  lemma MoveStaysNamed(t: Tree, s: Id, d: Option<Id>, dir: Id, name: string)
    requires NamesUnique(t) && Movable(t, s, d, dir, name)
    ensures NamesUnique(DMove(t, s, d, dir, name))
  {
    var t' := DMove(t, s, d, dir, name);
    forall c, e {:trigger Namesakes(t', c, e)} | Namesakes(t', c, e) ensures c == e {
      if c != s && e != s {
        assert Namesakes(t, c, e);
      } else if c != s {
        LookupIs(t, dir, name, c);
      } else if e != s {
        LookupIs(t, dir, name, e);
      }
    }
  }

  /** Parents that stay in the tree are still directories. */
  lemma MoveStaysInDirs(t: Tree, s: Id, d: Option<Id>, dir: Id, name: string)
    requires ParentsAreDirs(t) && Movable(t, s, d, dir, name)
    requires forall x {:trigger DMove(t, s, d, dir, name).at[x]} | x in DMove(t, s, d, dir, name).at ::
               DMove(t, s, d, dir, name).at[x].parent in DMove(t, s, d, dir, name).at
    ensures ParentsAreDirs(DMove(t, s, d, dir, name))
  {
    var t' := DMove(t, s, d, dir, name);
    forall x | x in t'.at ensures IsDir(t', t'.at[x].parent) {
      assert IsDir(t, t.at[x].parent);
    }
  }

  /** Names and kinds take care of themselves: after a move only rootedness is in question. */
  lemma RootedMoveIsTree(t: Tree, s: Id, d: Option<Id>, dir: Id, name: string)
    requires IsTree(t) && Movable(t, s, d, dir, name)
    ensures var t' := DMove(t, s, d, dir, name); IsTree(t') <==> Rooted(Parents(t'), t'.root, t'.at.Keys)
  {
    var t' := DMove(t, s, d, dir, name);
    if Rooted(Parents(t'), t'.root, t'.at.Keys) {
      RootedParents(t');
      MoveStaysNamed(t, s, d, dir, name);
      MoveStaysInDirs(t, s, d, dir, name);
    }
  }

  /**
    A plain rename leaves a tree exactly when the source is not the new directory or one of its
    ancestors and whatever is replaced has no children besides, perhaps, the source.
   */
  lemma MoveKeepsTreeExactly(t: Tree, s: Id, d: Option<Id>, dir: Id, name: string)
    requires IsTree(t) && Movable(t, s, d, dir, name)
    ensures IsTree(DMove(t, s, d, dir, name)) <==>
              !Above(Parents(t), s, dir) && (d.Some? ==> Leaf(Parents(t), t.at.Keys, d.value, s))
  {
    var t' := DMove(t, s, d, dir, name);
    MoveKeys(t, s, d, dir, name);
    MoveParents(t, s, d, dir, name);
    MovedExactly(Parents(t), Parents(t'), t.root, t.at.Keys, s, dir, d);
    RootedMoveIsTree(t, s, d, dir, name);
  }

  lemma RootedParents(t: Tree)
    requires Rooted(Parents(t), t.root, t.at.Keys)
    ensures forall x {:trigger t.at[x]} | x in t.at :: t.at[x].parent in t.at
  {
    forall x | x in t.at ensures t.at[x].parent in t.at {
      assert Parents(t)(x) in t.at.Keys;
    }
  }

  // ---------- An exchange ----------

  lemma ExchangeParents(t: Tree, s: Id, d: Id)
    requires Swappable(t, s, d)
    ensures Swapped(Parents(t), Parents(DExchange(t, s, d)), s, d)
    ensures DExchange(t, s, d).at.Keys == t.at.Keys
  {
  }

  lemma ExchangeStaysNamed(t: Tree, s: Id, d: Id)
    requires NamesUnique(t) && Swappable(t, s, d)
    ensures NamesUnique(DExchange(t, s, d))
  {
    var t' := DExchange(t, s, d);
    var swap := (x: Id) => if x == s then d else if x == d then s else x;
    forall c, e {:trigger Namesakes(t', c, e)} | Namesakes(t', c, e) ensures c == e {
      assert Namesakes(t, swap(c), swap(e));
    }
  }

  lemma ExchangeStaysInDirs(t: Tree, s: Id, d: Id)
    requires ParentsAreDirs(t) && Swappable(t, s, d)
    ensures ParentsAreDirs(DExchange(t, s, d))
  {
    var t' := DExchange(t, s, d);
    forall x | x in t'.at ensures IsDir(t', t'.at[x].parent) {
      assert IsDir(t, t.at[x].parent) && IsDir(t, t.at[s].parent) && IsDir(t, t.at[d].parent);
    }
  }

  lemma RootedExchangeIsTree(t: Tree, s: Id, d: Id)
    requires IsTree(t) && Swappable(t, s, d)
    ensures var t' := DExchange(t, s, d); IsTree(t') <==> Rooted(Parents(t'), t'.root, t'.at.Keys)
  {
    ExchangeStaysNamed(t, s, d);
    ExchangeStaysInDirs(t, s, d);
  }

  /** An exchange leaves a tree exactly when neither dentry is above the other's directory. */
  lemma ExchangeKeepsTreeExactly(t: Tree, s: Id, d: Id)
    requires IsTree(t) && Swappable(t, s, d)
    ensures IsTree(DExchange(t, s, d)) <==>
              !Above(Parents(t), s, t.at[d].parent) && !Above(Parents(t), d, t.at[s].parent)
  {
    ExchangeParents(t, s, d);
    SwappedExactly(Parents(t), Parents(DExchange(t, s, d)), t.root, t.at.Keys, s, d);
    RootedExchangeIsTree(t, s, d);
  }

  // ---------- What the names stand for afterwards ----------

  lemma MoveChild(t: Tree, s: Id, d: Option<Id>, dir: Id, name: string, p: Id, n: string, c: Id)
    requires s in t.at && s != t.root && d != Some(s)
    ensures IsChild(DMove(t, s, d, dir, name), p, n, c) <==>
              if c == s then p == dir && n == name else d != Some(c) && IsChild(t, p, n, c)
  {
  }

  /** Lookup agrees on two trees that agree about the children of that name. */
  lemma LookupAgrees(t: Tree, t': Tree, p: Id, n: string)
    requires NamesUnique(t) && forall c :: IsChild(t', p, n, c) <==> IsChild(t, p, n, c)
    ensures Lookup(t', p, n) == Lookup(t, p, n)
  {
    if Lookup(t', p, n).Some? {
      LookupIs(t, p, n, Lookup(t', p, n).value);
    }
  }

  /** After a move the new name finds the source, the old name finds nothing, and no other name changes. */
  lemma MoveRelinks(t: Tree, s: Id, d: Option<Id>, dir: Id, name: string, p: Id, n: string)
    requires NamesUnique(t) && Movable(t, s, d, dir, name)
    ensures Lookup(DMove(t, s, d, dir, name), p, n) ==
              if p == dir && n == name then Some(s)
              else if p == t.at[s].parent && n == t.at[s].name then None
              else Lookup(t, p, n)
  {
    var t' := DMove(t, s, d, dir, name);
    MoveStaysNamed(t, s, d, dir, name);
    forall c ensures IsChild(t', p, n, c) <==>
                       if c == s then p == dir && n == name else d != Some(c) && IsChild(t, p, n, c)
    {
      MoveChild(t, s, d, dir, name, p, n, c);
    }
    if p == dir && n == name {
      LookupIs(t', p, n, s);
    } else if p == t.at[s].parent && n == t.at[s].name {
      if Lookup(t', p, n).Some? {
        assert Namesakes(t, s, Lookup(t', p, n).value);
      }
    } else {
      LookupAgrees(t, t', p, n);
    }
  }

  lemma ExchangeChild(t: Tree, s: Id, d: Id, p: Id, n: string, c: Id)
    requires Swappable(t, s, d)
    ensures IsChild(DExchange(t, s, d), p, n, c) <==>
              if c == s then IsChild(t, p, n, d) else if c == d then IsChild(t, p, n, s) else IsChild(t, p, n, c)
  {
  }

  /** After an exchange the two names find each other's dentries and no other name changes. */
  lemma ExchangeRelinks(t: Tree, s: Id, d: Id, p: Id, n: string)
    requires NamesUnique(t) && Swappable(t, s, d)
    ensures Lookup(DExchange(t, s, d), p, n) ==
              if p == t.at[d].parent && n == t.at[d].name then Some(s)
              else if p == t.at[s].parent && n == t.at[s].name then Some(d)
              else Lookup(t, p, n)
  {
    var t' := DExchange(t, s, d);
    ExchangeStaysNamed(t, s, d);
    forall c ensures IsChild(t', p, n, c) <==>
                       if c == s then IsChild(t, p, n, d)
                       else if c == d then IsChild(t, p, n, s)
                       else IsChild(t, p, n, c)
    {
      ExchangeChild(t, s, d, p, n, c);
    }
    if IsChild(t, p, n, d) {
      LookupIs(t', p, n, s);
    } else if IsChild(t, p, n, s) {
      LookupIs(t', p, n, d);
    } else {
      LookupAgrees(t, t', p, n);
    }
  }
}
