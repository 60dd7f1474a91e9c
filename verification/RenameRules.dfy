/**
  When a rename succeeds, and which error it gives otherwise, told outright in terms of what the two
  names find, which dentries are above which, and the flags, slashes, kinds and inodes involved.
 */
module RenameRules {
  import opened Wrappers
  import opened Forest
  import opened DentryTree
  import opened Rename

  /** RENAME_EXCHANGE excludes the other two flags. */
  predicate FlagsAgree(f: Flags) { !(f.exchange && (f.noReplace || f.whiteout)) }

  /** The new name is taken or free as the flags demand. */
  predicate TargetAgrees(f: Flags, d: Option<Id>) {
    (f.noReplace ==> d.None?) && (f.exchange ==> d.Some?)
  }

  /**
    A name followed by a slash must name a directory. Unless the two are exchanged, the new name
    will name the source.
   */
  predicate SlashesAgree(t: Tree, r: Request, s: Id, d: Option<Id>)
    requires r.oldLast.Norm? && r.newLast.Norm? && (r.flags.exchange ==> d.Some?)
  {
    && (r.oldLast.slash ==> s in t.at && t.at[s].isDir)
    && (r.newLast.slash ==>
          var named := if r.flags.exchange then d.value else s;
          named in t.at && t.at[named].isDir)
  }

  /** Neither dentry is moved into its own subtree or onto its own ancestor. */
  ghost predicate NoLoop(t: Tree, r: Request, s: Id, d: Option<Id>) {
    !Above(Parents(t), s, r.newDir) && (d.Some? ==> !Above(Parents(t), d.value, r.oldDir))
  }

  /** Both names are of one inode. */
  predicate OneInode(t: Tree, s: Id, d: Option<Id>) {
    d.Some? && s in t.at && d.value in t.at && t.at[s].inode == t.at[d.value].inode
  }

  /** A directory may replace only a directory, and something else only something else. */
  predicate KindsAgree(t: Tree, r: Request, s: Id, d: Option<Id>) {
    d.Some? && !r.flags.exchange && s in t.at && d.value in t.at ==> (t.at[s].isDir <==> t.at[d.value].isDir)
  }

  /** A rename succeeds exactly if all of this holds. */
  lemma RenameSucceedsExactly(t: Tree, r: Request)
    ensures Rename.Rename(t, r).error == None <==>
              && FlagsAgree(r.flags) && r.oldLast.Norm? && r.newLast.Norm?
              && Lookup(t, r.oldDir, r.oldLast.name).Some?
              && var s, d := Lookup(t, r.oldDir, r.oldLast.name).value, Lookup(t, r.newDir, r.newLast.name);
              && TargetAgrees(r.flags, d) && SlashesAgree(t, r, s, d) && NoLoop(t, r, s, d)
              && (OneInode(t, s, d) || (KindsAgree(t, r, s, d) && r.fs == None))
  {
  }

  /** What is refused before the names are looked up. */
  lemma EarlyErrors(t: Tree, r: Request)
    ensures !FlagsAgree(r.flags) ==> Rename.Rename(t, r) == Outcome(Some(EINVAL), t)
    ensures FlagsAgree(r.flags) && r.oldLast.Special? ==> Rename.Rename(t, r) == Outcome(Some(EBUSY), t)
    ensures FlagsAgree(r.flags) && r.oldLast.Norm? && r.newLast.Special? ==>
              Rename.Rename(t, r) == Outcome(Some(if r.flags.noReplace then EEXIST else EBUSY), t)
    ensures FlagsAgree(r.flags) && r.oldLast.Norm? && r.newLast.Norm? && Lookup(t, r.oldDir, r.oldLast.name).None? ==>
              Rename.Rename(t, r) == Outcome(Some(ENOENT), t)
  {
  }

  /** What the call answers once the source has been found, check by check. */
  lemma LateErrors(t: Tree, r: Request, s: Id, d: Option<Id>)
    requires FlagsAgree(r.flags) && r.oldLast.Norm? && r.newLast.Norm?
    requires Lookup(t, r.oldDir, r.oldLast.name) == Some(s) && Lookup(t, r.newDir, r.newLast.name) == d
    ensures r.flags.noReplace && d.Some? ==> Rename.Rename(t, r) == Outcome(Some(EEXIST), t)
    ensures r.flags.exchange && d.None? ==> Rename.Rename(t, r) == Outcome(Some(ENOENT), t)
    ensures TargetAgrees(r.flags, d) && !SlashesAgree(t, r, s, d) ==> Rename.Rename(t, r) == Outcome(Some(ENOTDIR), t)
    ensures TargetAgrees(r.flags, d) && SlashesAgree(t, r, s, d) && Above(Parents(t), s, r.newDir) ==>
              Rename.Rename(t, r) == Outcome(Some(EINVAL), t)
    ensures && TargetAgrees(r.flags, d) && SlashesAgree(t, r, s, d)
            && !Above(Parents(t), s, r.newDir) && !NoLoop(t, r, s, d) ==>
              Rename.Rename(t, r) == Outcome(Some(if r.flags.exchange then EINVAL else ENOTEMPTY), t)
  {
  }

  /** What the call answers once the trap has been passed. */
  lemma FinalAnswer(t: Tree, r: Request, s: Id, d: Option<Id>)
    requires FlagsAgree(r.flags) && r.oldLast.Norm? && r.newLast.Norm?
    requires Lookup(t, r.oldDir, r.oldLast.name) == Some(s) && Lookup(t, r.newDir, r.newLast.name) == d
    requires TargetAgrees(r.flags, d) && SlashesAgree(t, r, s, d) && NoLoop(t, r, s, d)
    ensures OneInode(t, s, d) ==> Rename.Rename(t, r) == Outcome(None, t)
    ensures !OneInode(t, s, d) && !KindsAgree(t, r, s, d) ==>
              Rename.Rename(t, r) == Outcome(Some(if IsDir(t, s) then ENOTDIR else EISDIR), t)
    ensures !OneInode(t, s, d) && KindsAgree(t, r, s, d) ==>
              Rename.Rename(t, r).error == r.fs && (r.fs.Some? ==> Rename.Rename(t, r).tree == t)
  {
  }

  /** After a success that was not between two names of one inode, only the two names and the target changed. */
  lemma SuccessChangesTwoNames(t: Tree, r: Request, p: Id, n: string)
    requires IsTree(t) && IsDir(t, r.oldDir) && IsDir(t, r.newDir) && Rename.Rename(t, r).error == None
    requires Lookup(t, r.oldDir, r.oldLast.name).Some?
    requires !OneInode(t, Lookup(t, r.oldDir, r.oldLast.name).value, Lookup(t, r.newDir, r.newLast.name))
    ensures var s, d := Lookup(t, r.oldDir, r.oldLast.name), Lookup(t, r.newDir, r.newLast.name);
            var t' := Rename.Rename(t, r).tree;
            && Lookup(t', r.newDir, r.newLast.name) == s
            && Lookup(t', r.oldDir, r.oldLast.name) == (if r.flags.exchange then d else None)
            && ((p, n) != (r.newDir, r.newLast.name) && (p, n) != (r.oldDir, r.oldLast.name) ==>
                  Lookup(t', p, n) == Lookup(t, p, n))
  {
    RenameRelinks(t, r, p, n);
    RenameRelinks(t, r, r.oldDir, r.oldLast.name);
    RenameRelinks(t, r, r.newDir, r.newLast.name);
  }
}
