/**
  The explicit-stack path walker of extra/namei.c in ref-walk mode: `link_path_walk` and its helpers
  update a `nameidata` step by step, suspending the text after a symbolic link on a stack whose
  first EMBEDDED_LEVELS frames are embedded and whose larger replacement has MAXSYMLINKS frames.
 */
module PathWalk {
  import opened PathResolve
  import PathSplice
  import opened Wrappers

  const EMBEDDED_LEVELS: nat := 2

  datatype LastType = LAST_NORM | LAST_ROOT | LAST_DOT | LAST_DOTDOT | LAST_BIND

  /** A followed link and the text after it; no name is the source's NULL. */
  datatype Saved = Saved(link: Node, name: Option<string>)

  /** The result of `walk_component`: an error, 0, or 1 for a link pushed on the stack. */
  datatype Walked = WalkError(e: Errno) | WalkDone | WalkLink

  function TypeOf(name: string): LastType {
    if name == "." then LAST_DOT else if name == ".." then LAST_DOTDOT else LAST_NORM
  }

  function NamesOf(frames: seq<Saved>): (names: seq<Option<string>>)
    ensures |names| == |frames| && forall i | 0 <= i < |frames| :: names[i] == frames[i].name
  {
    seq(|frames|, i requires 0 <= i < |frames| => frames[i].name)
  }

  /** The unread text of the suspended frames. */
  function Unread(frames: seq<Option<string>>): nat {
    if |frames| == 0 then 0
    else Unread(frames[..|frames| - 1]) + (if frames[|frames| - 1].Some? then |frames[|frames| - 1].value| else 0)
  }

  /** Only the frame at the bottom, if the walk started with one, may have no text; no text is empty. */
  predicate Grounded(base: seq<Option<string>>, frames: seq<Option<string>>) {
    && base <= frames
    && forall i | |base| <= i < |frames| :: frames[i].Some? && frames[i].value != "" && AtComponent(frames[i].value)
  }

  /** A walk may start with no frame, or with one frame without text. */
  predicate Ground(base: seq<Option<string>>) { base == [] || base == [None] }

  class Nameidata {
    const fs: Fs
    var path: Node
    var lastName: string
    var lastSlash: bool
    var lastType: LastType
    var stack: seq<Saved>
    var internal: bool
    var depth: nat
    var totalLinkCount: nat
    var follow: bool
    var directory: bool
    var linkInode: Node

    /** The stack has the size of its buffer and never outgrows the links followed. */
    ghost predicate Valid()
      reads this
    {
      && |stack| == (if internal then EMBEDDED_LEVELS else fs.maxLinks)
      && depth <= |stack| && depth <= totalLinkCount
    }

    /** The texts after the pending links, innermost last. */
    ghost function Names(): seq<Option<string>>
      reads this
      requires Valid()
    {
      NamesOf(stack[..depth])
    }

    constructor (fs: Fs, start: Node, links: nat, follow: bool, directory: bool)
      ensures Valid() && this.fs == fs && path == start && depth == 0 && totalLinkCount == links
      ensures this.follow == follow && this.directory == directory && lastType == LAST_ROOT
    {
      this.fs := fs;
      this.path := start;
      this.lastName, this.lastSlash, this.lastType := "", false, LAST_ROOT;
      this.stack, this.internal := seq(EMBEDDED_LEVELS, i => Saved(start, None)), true;
      this.depth, this.totalLinkCount := 0, links;
      this.follow, this.directory, this.linkInode := follow, directory, start;
    }

    /** `put_link`: forgets the innermost link. */
    method PutLink()
      requires Valid() && depth > 0
      modifies this`depth
      ensures Valid() && Names() == old(Names())[..old(depth) - 1] && depth == old(depth) - 1
    {
      depth := depth - 1;
      assert stack[..depth] == old(stack[..depth])[..depth];
    }

    /** `nd_alloc_stack`: moves a full embedded stack to a buffer of MAXSYMLINKS frames. */
    method NdAllocStack()
      requires Valid() && depth < fs.maxLinks
      modifies this`stack, this`internal
      ensures Valid() && depth < |stack| && stack[..depth] == old(stack[..depth])
    {
      if depth != EMBEDDED_LEVELS {
        return;
      }
      if !internal {
        return;
      }
      var blank := Saved(path, None);
      stack := stack[..EMBEDDED_LEVELS] + seq(fs.maxLinks - EMBEDDED_LEVELS, i => blank);
      internal := false;
    }

    /** `pick_link`: counts the link and pushes it, or gives up at the limit. */
    method PickLink(link: Node) returns (r: Walked)
      requires Valid()
      modifies this`path, this`stack, this`internal, this`depth, this`totalLinkCount, this`linkInode
      ensures Valid() && totalLinkCount == old(totalLinkCount) + 1
      ensures old(totalLinkCount) >= fs.maxLinks ==> r == WalkError(ELOOP)
      ensures old(totalLinkCount) < fs.maxLinks ==>
                && r == WalkLink && path == old(path) && depth == old(depth) + 1 && linkInode == link
                && stack[depth - 1].link == link && Names()[..old(depth)] == old(Names())
    {
      var count := totalLinkCount;
      totalLinkCount := totalLinkCount + 1;
      if count >= fs.maxLinks {
        path := link;
        return WalkError(ELOOP);
      }
      NdAllocStack();
      stack := stack[depth := stack[depth].(link := link)];
      depth := depth + 1;
      linkInode := link;
      assert stack[..depth][..old(depth)] == old(stack[..depth]);
      return WalkLink;
    }

    /** The frames that remain once a component that is not followed by more has been taken. */
    ghost function Remaining(more: bool): seq<Option<string>>
      reads this
      requires Valid()
    {
      if more || depth == 0 then Names() else Names()[..depth - 1]
    }

    /** `step_into`: moves to a node, or picks it up as a link to follow. */
    method StepInto(node: Node, followLink: bool, more: bool) returns (r: Walked)
      requires Valid()
      modifies this`path, this`stack, this`internal, this`depth, this`totalLinkCount, this`linkInode
      ensures Valid()
      ensures !fs.kind(node).Symlink? || !(followLink || follow) ==>
                && r == WalkDone && path == node && totalLinkCount == old(totalLinkCount)
                && Names() == old(Remaining(more))
      ensures fs.kind(node).Symlink? && (followLink || follow) && old(totalLinkCount) >= fs.maxLinks ==>
                r == WalkError(ELOOP)
      ensures fs.kind(node).Symlink? && (followLink || follow) && old(totalLinkCount) < fs.maxLinks ==>
                && r == WalkLink && path == old(path) && totalLinkCount == old(totalLinkCount) + 1
                && linkInode == node && depth == |old(Remaining(more))| + 1 && stack[depth - 1].link == node
                && Names()[..depth - 1] == old(Remaining(more))
    {
      if !more && depth > 0 {
        PutLink();
      }
      if !fs.kind(node).Symlink? || !(followLink || follow) {
        path := node;
        return WalkDone;
      }
      r := PickLink(node);
    }

    /** `walk_component`: takes the component held in the last name. */
    method WalkComponent(followLink: bool, more: bool) returns (r: Walked)
      requires Valid() && (lastType == TypeOf(lastName) || lastType == LAST_ROOT || lastType == LAST_BIND)
      modifies this`path, this`stack, this`internal, this`depth, this`totalLinkCount, this`linkInode
      ensures Valid()
      ensures var hop := if lastType == TypeOf(lastName)
                         then Enter(fs, old(path), lastName, followLink || follow, old(totalLinkCount))
                         else Arrive(old(path));
              && (hop.NoWay? ==> r == WalkError(hop.e))
              && (hop.Arrive? ==> && r == WalkDone && path == hop.node && totalLinkCount == old(totalLinkCount)
                                  && Names() == old(Remaining(more)))
              && (hop.Follow? ==> && r == WalkLink && path == old(path) && totalLinkCount == old(totalLinkCount) + 1
                                  && linkInode == hop.link && depth == |old(Remaining(more))| + 1
                                  && Names()[..depth - 1] == old(Remaining(more)))
    {
      if lastType != LAST_NORM {
        if lastType == LAST_DOTDOT && path != fs.root {
          path := fs.parent(path);
        }
        if !more && depth > 0 {
          PutLink();
        }
        return WalkDone;
      }
      match fs.child(path, lastName)
      case None => return WalkError(ENOENT);
      case Some(n) => r := StepInto(n, followLink, more);
    }

    /** `get_link`: where the link's body starts, and its text, or None if nothing is left to walk. */
    method GetLink() returns (res: Option<string>)
      requires Valid() && fs.kind(linkInode).Symlink?
      modifies this`path, this`lastType
      ensures var body := fs.kind(linkInode).body;
              && path == BodyStart(fs, old(path), body)
              && res == (if SkipSlashes(body) == "" then None else Some(SkipSlashes(body)))
      ensures lastType == LAST_BIND
    {
      lastType := LAST_BIND;
      var text := fs.kind(linkInode).body;
      if text != "" && text[0] == '/' {
        path := fs.root;
        text := SkipAll(text);
      }
      res := if text == "" then None else Some(text);
    }

    /** The slash-skipping loops. */
    method SkipAll(text: string) returns (r: string)
      ensures r == SkipSlashes(text)
    {
      r := text;
      while r != "" && r[0] == '/'
        invariant SkipSlashes(r) == SkipSlashes(text)
        decreases |r|
      {
        r := r[1..];
      }
    }

    /** Records the component at the front of the text and steps over it and the slashes behind it. */
    method ParseComponent(text: string) returns (next: string)
      requires text != "" && AtComponent(text)
      modifies this`lastName, this`lastSlash, this`lastType
      ensures lastName == First(text) && lastSlash == (Tail(text) != "") && lastType == TypeOf(First(text))
      ensures next == Rest(text)
    {
      var len := ComponentLength(text);
      lastType := LAST_NORM;
      if text[0] == '.' {
        if len == 2 && text[1] == '.' {
          lastType := LAST_DOTDOT;
        } else if len == 1 {
          lastType := LAST_DOT;
        }
      }
      lastName, lastSlash := text[..len], text[len..] != "";
      next := SkipAll(text[len..]);
    }

    /** The innermost suspended text. */
    method TopName() returns (name: Option<string>)
      requires Valid() && depth > 0
      ensures name == Names()[depth - 1]
    {
      name := stack[depth - 1].name;
    }

    /** Suspends text under the innermost link. */
    method Suspend(text: string)
      requires Valid() && depth > 0
      modifies this`stack
      ensures Valid() && Names() == old(Names())[..depth - 1] + [Some(text)]
    {
      stack := stack[depth - 1 := stack[depth - 1].(name := Some(text))];
    }

    /** After a link has been picked: either its body is walked next, or it had no text left. */
    method FollowPicked(next: string) returns (text: string, deeper: bool)
      requires Valid() && depth > 0 && fs.kind(linkInode).Symlink?
      modifies this`path, this`lastType, this`stack, this`depth
      ensures Valid()
      ensures var body := fs.kind(linkInode).body;
              && path == BodyStart(fs, old(path), body)
              && deeper == (SkipSlashes(body) != "")
              && (SkipSlashes(body) == "" ==> text == next && Names() == old(Names()[..depth - 1]))
              && (SkipSlashes(body) != "" ==> && text == SkipSlashes(body)
                                              && Names() == old(Names()[..depth - 1]) + [Some(next)])
    {
      var s := GetLink();
      deeper := s.Some?;
      if deeper {
        Suspend(next);
        text := s.value;
      } else {
        PutLink();
        text := next;
      }
    }

    /** A component that is followed by more must have led to a directory. */
    method CheckDir(ghost next: string) returns (err: Option<Errno>)
      requires Valid() && AtComponent(next) && FramesAtComponent(Names())
      ensures ContinueFrom(fs, Reached(path, totalLinkCount), next, Names())
              == if err.Some? then ParentFailed(err.value) else Continue(fs, path, next, Names(), totalLinkCount)
    {
      err := if fs.kind(path) != Dir then Some(ENOTDIR) else None;
    }

    /**
      One turn of the loop of `link_path_walk` once a component has been recorded: `next` is the
      text to go on with. Afterwards the walk has failed, or goes on at the returned text; a picked
      link lowers the number of links left.
     */
    method Turn(next: string, more: bool) returns (text: string, err: Option<Errno>)
      requires Valid() && lastType == TypeOf(lastName) && AtComponent(next)
      requires FramesAtComponent(Remaining(more)) && FramesAtComponent(Remaining(more) + [Some(next)])
      modifies this`path, this`lastType, this`stack, this`internal, this`depth, this`totalLinkCount, this`linkInode
      ensures Valid()
      ensures err.None? ==>
                TurnTaken(fs, next, old(Remaining(more)), old(totalLinkCount), text, Names(), totalLinkCount)
      ensures old(ContinueHop(fs, path, Enter(fs, path, lastName, true, totalLinkCount), next,
                              Remaining(more), totalLinkCount))
              == if err.Some? then ParentFailed(err.value) else Continue(fs, path, text, Names(), totalLinkCount)
    {
      var r := WalkComponent(true, more);
      text, err := next, None;
      match r {
        case WalkError(e) => return next, Some(e);
        case WalkDone =>
        case WalkLink =>
          var deeper;
          text, deeper := FollowPicked(next);
          if deeper {
            return;
          }
      }
      err := CheckDir(next);
    }

    /** `link_path_walk`: walks a path up to its last component, following every link on the way. */
    method LinkPathWalk(name: string) returns (err: Option<Errno>)
      requires Valid() && Ground(Names())
      modifies this`path, this`lastName, this`lastSlash, this`lastType,
               this`stack, this`internal, this`depth, this`totalLinkCount, this`linkInode
      ensures Valid()
      ensures match ResolveParent(fs, old(path), SkipSlashes(name), old(totalLinkCount))
              case ParentFailed(e) => err == Some(e)
              case Parent(dir, last, links) =>
                && err == None && path == dir && totalLinkCount == links && Names() == old(Names())
                && (last.None? ==> && lastName == old(lastName) && lastSlash == old(lastSlash)
                                   && lastType == old(lastType))
                && (last.Some? ==> (lastName, lastSlash) == last.value && lastType == TypeOf(lastName))
      ensures fs.kind(old(path)) == Dir ==>
                ResolveParent(fs, old(path), SkipSlashes(name), old(totalLinkCount))
                == PathSplice.SpliceParent(fs, old(path), name, old(totalLinkCount))
    {
      if fs.kind(path) == Dir {
        PathSplice.WalkIsSplice(fs, path, name, totalLinkCount);
      }
      ghost var base := Names();
      var text := SkipAll(name);
      if text == "" {
        return None;
      }
      ghost var whole := Continue(fs, path, text, base, totalLinkCount);
      var done := false;
      while !done
        invariant Valid() && (if done then Arrived(base, whole) else Walking(base, whole, text))
        decreases !done, Left(fs, totalLinkCount), |text| + Unread(Names())
      {
        text, done, err := Advance(text, base, whole);
        if err.Some? {
          return;
        }
      }
      err := None;
    }

    /** `lookup_last`: a trailing slash forces links to be followed and a directory to be found. */
    method LookupLast() returns (r: Walked)
      requires Valid() && Ground(Names())
      requires lastType == TypeOf(lastName) || lastType == LAST_ROOT || lastType == LAST_BIND
      modifies this`path, this`stack, this`internal, this`depth, this`totalLinkCount, this`linkInode,
               this`follow, this`directory
      ensures Valid()
      ensures var forced := lastType == LAST_NORM && lastSlash;
              follow == (old(follow) || forced) && directory == (old(directory) || forced)
      ensures var hop := if lastType == TypeOf(lastName)
                         then Enter(fs, old(path), lastName, follow, old(totalLinkCount))
                         else Arrive(old(path));
              && (hop.NoWay? ==> r == WalkError(hop.e))
              && (hop.Arrive? ==> r == WalkDone && path == hop.node && totalLinkCount == old(totalLinkCount))
              && (hop.Follow? ==> && r == WalkLink && path == old(path) && totalLinkCount == old(totalLinkCount) + 1
                                  && linkInode == hop.link && depth == 1)
    {
      if lastType == LAST_NORM && lastSlash {
        follow, directory := true, true;
      }
      r := WalkComponent(false, false);
    }

    /** `trailing_symlink`: the body of a link met at the end of a path is walked next, over a frame without text. */
    method TrailingSymlink() returns (text: string)
      requires Valid() && depth == 1 && fs.kind(linkInode).Symlink?
      modifies this`path, this`lastType, this`stack
      ensures Valid() && Names() == [None] && lastType == LAST_BIND
      ensures var body := fs.kind(linkInode).body;
              path == BodyStart(fs, old(path), body) && text == SkipSlashes(body)
    {
      stack := stack[0 := stack[0].(name := None)];
      var s := GetLink();
      text := if s.Some? then s.value else "";
    }

    /** The lookup that remains when the walker stands in its path before a text. */
    ghost function ToLookUp(text: string): Outcome
      reads this
    {
      DirIf(fs, directory, Resolve(fs, path, SkipSlashes(text), follow, totalLinkCount))
    }

    /** The lookup that remains once the walk to the parent is over. */
    ghost function ToFinish(): Outcome
      reads this
    {
      DirIf(fs, directory,
            if lastType == TypeOf(lastName) then Last(fs, path, lastName, lastSlash, follow, totalLinkCount)
            else Reached(path, totalLinkCount))
    }

    /** The text can be walked from here; an empty one from anything. */
    ghost predicate Ready(text: string)
      reads this
    {
      && Valid() && Ground(Names()) && (lastType == LAST_ROOT || lastType == LAST_BIND)
      && (fs.kind(path) == Dir || text == "")
    }

    /** The rest of one pass of `path_lookupat`: an outcome, or the text of a trailing link. */
    method TakeLast() returns (text: string, r: Option<Outcome>)
      requires Valid() && Ground(Names())
      requires (lastType == TypeOf(lastName) && fs.kind(path) == Dir) || lastType == LAST_ROOT || lastType == LAST_BIND
      modifies this
      ensures Valid()
      ensures r.Some? ==> r.value == old(ToFinish())
      ensures r.None? ==> ToLookUp(text) == old(ToFinish()) && Left(fs, totalLinkCount) < Left(fs, old(totalLinkCount))
      ensures r.None? ==> Ready(text)
    {
      if lastType == TypeOf(lastName) {
        FinishLast(fs, path, lastName, lastSlash, follow, directory, totalLinkCount);
      }
      var w := LookupLast();
      text := "";
      match w {
        case WalkError(e) => r := Some(Failed(e));
        case WalkDone =>
          r := Some(if directory && fs.kind(path) != Dir then Failed(ENOTDIR) else Reached(path, totalLinkCount));
        case WalkLink =>
          text := TrailingSymlink();
          r := None;
      }
    }

    /** One pass of the loop of `path_lookupat`. */
    method LookupOnce(text: string) returns (next: string, r: Option<Outcome>)
      requires Ready(text)
      modifies this
      ensures Valid()
      ensures r.Some? ==> r.value == old(ToLookUp(text))
      ensures r.None? ==> && ToLookUp(next) == old(ToLookUp(text))
                          && Left(fs, totalLinkCount) < Left(fs, old(totalLinkCount))
      ensures r.None? ==> Ready(next)
    {
      ResolveViaParent(fs, path, SkipSlashes(text), follow, totalLinkCount);
      if fs.kind(path) == Dir {
        ParentIsDir(fs, path, SkipSlashes(text), totalLinkCount);
      }
      LinksGrow(fs, path, SkipSlashes(text), totalLinkCount);
      var err := LinkPathWalk(text);
      if err.Some? {
        return "", Some(Failed(err.value));
      }
      next, r := TakeLast();
    }

    /**
      `path_init`: the root for an absolute name, else the start given, which must be a directory
      unless the name is empty.
     */
    method PathInit(name: string) returns (err: Option<Errno>)
      requires Valid() && depth == 0 && lastType == LAST_ROOT
      modifies this`path
      ensures err == if StartIsDir(fs, old(path), name) then None else Some(ENOTDIR)
      ensures err.None? ==> path == BodyStart(fs, old(path), name) && Ready(name)
    {
      if name != "" && name[0] == '/' {
        path := fs.root;
        return None;
      }
      if name != "" && fs.kind(path) != Dir {
        return Some(ENOTDIR);
      }
      return None;
    }

    /** `path_lookupat`: walks to the parent, takes the last component, and starts over on a link's body. */
    method PathLookupAt(name: string) returns (r: Outcome)
      requires Valid() && depth == 0 && lastType == LAST_ROOT
      modifies this
      ensures Valid()
      ensures r == LookupFrom(fs, old(path), name, old(follow), old(directory), old(totalLinkCount))
      ensures r == PathSplice.SpliceLookup(fs, old(path), name, old(follow), old(directory), old(totalLinkCount))
    {
      PathSplice.LookupIsSplice(fs, path, name, follow, directory, totalLinkCount);
      ghost var goal := Lookup(fs, path, name, follow, directory, totalLinkCount);
      var err := PathInit(name);
      if err.Some? {
        return Failed(err.value);
      }
      var text, result := name, None;
      while result.None?
        invariant if result.Some? then Valid() && result.value == goal else Ready(text) && ToLookUp(text) == goal
        decreases result.None?, Left(fs, totalLinkCount)
      {
        text, result := LookupOnce(text);
      }
      r := result.value;
    }

    /** Between turns: the work that remains, from here, is the whole work. */
    ghost predicate Walking(base: seq<Option<string>>, whole: ParentOutcome, text: string)
      reads this
      requires Valid()
    {
      && text != "" && AtComponent(text) && FramesAtComponent(Names()) && Ground(base) && Grounded(base, Names())
      && Continue(fs, path, text, Names(), totalLinkCount) == whole
    }

    /** At the end: the last component is recorded and the frames are those the walk started with. */
    ghost predicate Arrived(base: seq<Option<string>>, whole: ParentOutcome)
      reads this
      requires Valid()
    {
      && Names() == base && lastType == TypeOf(lastName)
      && whole == Parent(path, Some((lastName, lastSlash)), totalLinkCount)
    }

    /** One pass through the body of the loop. */
    method Advance(text: string, ghost base: seq<Option<string>>, ghost whole: ParentOutcome)
      returns (after: string, done: bool, err: Option<Errno>)
      requires Valid() && Walking(base, whole, text)
      modifies this`path, this`lastName, this`lastSlash, this`lastType,
               this`stack, this`internal, this`depth, this`totalLinkCount, this`linkInode
      ensures Valid()
      ensures err.Some? ==> whole == ParentFailed(err.value)
      ensures err.None? && done ==> Arrived(base, whole)
      ensures err.None? && !done ==>
                && Walking(base, whole, after)
                && (Left(fs, totalLinkCount) < Left(fs, old(totalLinkCount))
                    || (Left(fs, totalLinkCount) == Left(fs, old(totalLinkCount))
                        && |after| + Unread(Names()) < |text| + Unread(old(Names()))))
    {
      ghost var names := Names();
      var next := ParseComponent(text);
      var more := next != "";
      if !more {
        if depth == 0 {
          return "", true, None;
        }
        var suspended := TopName();
        if suspended.None? {
          return "", true, None;
        }
        next := suspended.value;
      }
      GoesOnGrounded(base, text, names, next, Remaining(more));
      ContinueStep(fs, path, text, names, totalLinkCount, next, Remaining(more));
      done := false;
      after, err := Turn(next, more);
    }
  }

  /** Going on after a component reads its text and leaves the frames grounded. */
  lemma GoesOnGrounded(base: seq<Option<string>>, text: string, names: seq<Option<string>>,
                       next: string, rest: seq<Option<string>>)
    requires text != "" && AtComponent(text) && Ground(base) && Grounded(base, names)
    requires GoesOn(text, names, next, rest)
    ensures next != "" && Grounded(base, rest) && Grounded(base, rest + [Some(next)])
    ensures |next| + Unread(rest) < |text| + Unread(names)
  {
    if Rest(text) == "" {
      assert |names| > |base|;
      assert names[|names| - 1].Some?;
    }
  }

  /** How a turn can leave the text and the frames. */
  ghost predicate TurnTaken(fs: Fs, next: string, rest: seq<Option<string>>, links: nat,
                            text: string, names: seq<Option<string>>, newLinks: nat) {
    && ((text == next && names == rest) || (text != "" && AtComponent(text) && names == rest + [Some(next)]))
    && (Left(fs, newLinks) < Left(fs, links) || (newLinks == links && text == next && names == rest))
  }
}
