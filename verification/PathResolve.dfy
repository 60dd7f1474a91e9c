/**
  Pathname resolution as a recursion: each component is resolved from the directory reached so far,
  and a symbolic link is resolved by resolving its body in its place (section 4.13 of the
  POSIX.1-2017 Base Definitions). This is what the explicit-stack walker of extra/namei.c refines.
 */
module PathResolve {
  import opened Wrappers

  type Node = nat

  datatype Kind = Dir | File | Symlink(body: string)

  /**
    An abstract file system without mounts or permissions. `parent` and `child` are what ".." and
    lookup find, and `maxLinks` is MAXSYMLINKS.
   */
  datatype FsData = FsData(root: Node, kind: Node -> Kind, parent: Node -> Node,
                           child: (Node, string) -> Option<Node>, maxLinks: nat) {
    ghost predicate Valid() {
      kind(root) == Dir && forall n :: kind(parent(n)) == Dir
    }
  }

  type Fs = fs: FsData | fs.Valid()
    ghost witness FsData(0, (n: Node) => Dir, (n: Node) => 0, (n: Node, s: string) => None, 0)

  datatype Errno = ENOENT | ENOTDIR | ELOOP

  // ---------- The text of a path ----------

  function SkipSlashes(s: string): (r: string)
    ensures |r| <= |s| && (r != "" ==> r[0] != '/')
  {
    if s != "" && s[0] == '/' then SkipSlashes(s[1..]) else s
  }

  /** A path that stands at a component: it is empty or does not start with a slash. */
  predicate AtComponent(s: string) { s == "" || s[0] != '/' }

  /** The length of the component at the front. */
  function ComponentLength(s: string): (n: nat)
    ensures n <= |s| && (s != "" && s[0] != '/' ==> n > 0)
  {
    if s == "" || s[0] == '/' then 0 else 1 + ComponentLength(s[1..])
  }

  function First(s: string): string { s[..ComponentLength(s)] }

  /** What follows the first component: nothing, or text that starts with a slash. */
  function Tail(s: string): string { s[ComponentLength(s)..] }

  /** The components after the first. */
  function Rest(s: string): (r: string)
    ensures AtComponent(r) && |r| <= |s| && (s != "" && s[0] != '/' ==> |r| < |s|)
  {
    SkipSlashes(Tail(s))
  }

  // ---------- One component ----------

  /** What a component leads to before any link is followed. */
  datatype Hop = NoWay(e: Errno) | Arrive(node: Node) | Follow(link: Node)

  function Up(fs: Fs, dir: Node): Node {
    if dir == fs.root then dir else fs.parent(dir)
  }

  function Enter(fs: Fs, dir: Node, name: string, follow: bool, links: nat): Hop {
    if name == "." then Arrive(dir)
    else if name == ".." then Arrive(Up(fs, dir))
    else match fs.child(dir, name)
      case None => NoWay(ENOENT)
      case Some(n) =>
        if !fs.kind(n).Symlink? || !follow then Arrive(n)
        else if links >= fs.maxLinks then NoWay(ELOOP)
        else Follow(n)
  }

  /** Where the body of a link found in dir starts. */
  function BodyStart(fs: Fs, dir: Node, body: string): Node {
    if body != "" && body[0] == '/' then fs.root else dir
  }

  // ---------- The recursive resolver ----------

  /** The node reached and the number of links followed so far, or an error. */
  datatype Outcome = Reached(node: Node, links: nat) | Failed(e: Errno)

  /** How many more links may be followed. */
  function Left(fs: Fs, links: nat): nat {
    if links < fs.maxLinks then fs.maxLinks - links else 0
  }

  /** The count only grows, and only while it is below the limit. */
  predicate Counted(fs: Fs, links: nat, o: Outcome) {
    o.Reached? ==> o.links == links || (links < fs.maxLinks && links < o.links <= fs.maxLinks)
  }

  function Component(fs: Fs, dir: Node, name: string, follow: bool, links: nat): (o: Outcome)
    ensures Counted(fs, links, o)
    decreases Left(fs, links), 0, 0
  {
    match Enter(fs, dir, name, follow, links)
    case NoWay(e) => Failed(e)
    case Arrive(n) => Reached(n, links)
    case Follow(n) =>
      var body := fs.kind(n).body;
      Resolve(fs, BodyStart(fs, dir, body), SkipSlashes(body), true, links + 1)
  }

  /** The outcome stands only if it is a directory. */
  function MustBeDir(fs: Fs, o: Outcome): Outcome {
    if o.Reached? && fs.kind(o.node) != Dir then Failed(ENOTDIR) else o
  }

  /** The last component: a trailing slash forces links to be followed and a directory to be found. */
  function Last(fs: Fs, dir: Node, name: string, slash: bool, follow: bool, links: nat): (o: Outcome)
    ensures Counted(fs, links, o)
    decreases Left(fs, links), 0, 1
  {
    var o := Component(fs, dir, name, follow || slash, links);
    if slash then MustBeDir(fs, o) else o
  }

  function Resolve(fs: Fs, dir: Node, text: string, follow: bool, links: nat): (o: Outcome)
    requires AtComponent(text)
    ensures Counted(fs, links, o)
    decreases Left(fs, links), 1, |text|
  {
    if text == "" then Reached(dir, links)
    else if Rest(text) == "" then Last(fs, dir, First(text), Tail(text) != "", follow, links)
    else
      match MustBeDir(fs, Component(fs, dir, First(text), true, links))
      case Failed(e) => Failed(e)
      case Reached(n, l) => Resolve(fs, n, Rest(text), follow, l)
  }

  // ---------- Resolution up to the parent of the last component ----------

  /** The directory of the last component, that component and whether a slash follows it, if any. */
  datatype ParentOutcome =
    | Parent(dir: Node, last: Option<(string, bool)>, links: nat)
    | ParentFailed(e: Errno)

  function ResolveParent(fs: Fs, dir: Node, text: string, links: nat): ParentOutcome
    requires AtComponent(text)
    decreases |text|
  {
    if text == "" then Parent(dir, None, links)
    else if Rest(text) == "" then Parent(dir, Some((First(text), Tail(text) != "")), links)
    else
      match MustBeDir(fs, Component(fs, dir, First(text), true, links))
      case Failed(e) => ParentFailed(e)
      case Reached(n, l) => ResolveParent(fs, n, Rest(text), l)
  }

  function Finish(fs: Fs, p: ParentOutcome, follow: bool): Outcome {
    match p
    case ParentFailed(e) => Failed(e)
    case Parent(d, None, l) => Reached(d, l)
    case Parent(d, Some((name, slash)), l) => Last(fs, d, name, slash, follow, l)
  }

  /** Resolving a path is resolving to the parent and then its last component. */
  lemma {:induction false} ResolveViaParent(fs: Fs, dir: Node, text: string, follow: bool, links: nat)
    requires AtComponent(text)
    ensures Resolve(fs, dir, text, follow, links) == Finish(fs, ResolveParent(fs, dir, text, links), follow)
    decreases |text|
  {
    if text != "" && Rest(text) != "" {
      match MustBeDir(fs, Component(fs, dir, First(text), true, links))
      case Failed(e) =>
      case Reached(n, l) => ResolveViaParent(fs, n, Rest(text), follow, l);
    }
  }

  /** From a directory, the parent reached is a directory. */
  lemma {:induction false} ParentIsDir(fs: Fs, dir: Node, text: string, links: nat)
    requires AtComponent(text) && fs.kind(dir) == Dir
    ensures var p := ResolveParent(fs, dir, text, links);
            p.Parent? ==> fs.kind(p.dir) == Dir && (p.last.None? <==> text == "")
    decreases |text|
  {
    if text != "" && Rest(text) != "" {
      var o := MustBeDir(fs, Component(fs, dir, First(text), true, links));
      if o.Reached? {
        ParentIsDir(fs, o.node, Rest(text), o.links);
      }
    }
  }

  lemma {:induction false} LinksGrow(fs: Fs, dir: Node, text: string, links: nat)
    requires AtComponent(text)
    ensures var p := ResolveParent(fs, dir, text, links); p.Parent? ==> Counted(fs, links, Reached(p.dir, p.links))
    decreases |text|
  {
    if text != "" && Rest(text) != "" {
      var o := MustBeDir(fs, Component(fs, dir, First(text), true, links));
      if o.Reached? {
        LinksGrow(fs, o.node, Rest(text), o.links);
      }
    }
  }

  function DirIf(fs: Fs, directory: bool, o: Outcome): Outcome {
    if directory then MustBeDir(fs, o) else o
  }

  /** A whole lookup: from the root or the given directory, to a directory if one is asked for. */
  function Lookup(fs: Fs, dir: Node, name: string, follow: bool, directory: bool, links: nat): Outcome {
    DirIf(fs, directory, Resolve(fs, BodyStart(fs, dir, name), SkipSlashes(name), follow, links))
  }

  /** Only a relative name that is not empty asks for a directory to start from. */
  predicate StartIsDir(fs: Fs, dir: Node, name: string) {
    name == "" || name[0] == '/' || fs.kind(dir) == Dir
  }

  /** A whole lookup from any node. */
  function LookupFrom(fs: Fs, dir: Node, name: string, follow: bool, directory: bool, links: nat): Outcome {
    if StartIsDir(fs, dir, name) then Lookup(fs, dir, name, follow, directory, links) else Failed(ENOTDIR)
  }

  /** Links followed from the last component turn the lookup into one of the link's body. */
  function FinishHop(fs: Fs, dir: Node, hop: Hop, directory: bool, links: nat): Outcome
    requires hop.Follow? ==> fs.kind(hop.link).Symlink?
  {
    match hop
    case NoWay(e) => Failed(e)
    case Arrive(n) => DirIf(fs, directory, Reached(n, links))
    case Follow(n) => Lookup(fs, dir, fs.kind(n).body, true, directory, links + 1)
  }

  lemma FinishLast(fs: Fs, dir: Node, name: string, slash: bool, follow: bool, directory: bool, links: nat)
    requires fs.kind(dir) == Dir
    ensures var norm := name != "." && name != "..";
            DirIf(fs, directory, Last(fs, dir, name, slash, follow, links))
            == FinishHop(fs, dir, Enter(fs, dir, name, follow || (norm && slash), links),
                         directory || (norm && slash), links)
  {
  }

  // ---------- What a stack of suspended texts still has to do ----------

  predicate FramesAtComponent(frames: seq<Option<string>>) {
    forall f | f in frames :: f.Some? ==> AtComponent(f.value)
  }

  /**
    The resolution that remains when the walker stands in dir before `text`, with the texts after
    its pending links in `frames`, innermost last. A frame without text is a link followed from the
    last component of a path: its body's own last component is left to the caller.
   */
  function Continue(fs: Fs, dir: Node, text: string, frames: seq<Option<string>>, links: nat): ParentOutcome
    requires AtComponent(text) && FramesAtComponent(frames)
    decreases |frames|
  {
    if |frames| == 0 || frames[|frames| - 1].None? then ResolveParent(fs, dir, text, links)
    else
      match MustBeDir(fs, Resolve(fs, dir, text, true, links))
      case Failed(e) => ParentFailed(e)
      case Reached(n, l) => Continue(fs, n, frames[|frames| - 1].value, frames[..|frames| - 1], l)
  }

  /** What remains once an outcome has been reached and `next` is the text to go on with. */
  function ContinueFrom(fs: Fs, o: Outcome, next: string, rest: seq<Option<string>>): ParentOutcome
    requires AtComponent(next) && FramesAtComponent(rest)
  {
    match MustBeDir(fs, o)
    case Failed(e) => ParentFailed(e)
    case Reached(n, l) => Continue(fs, n, next, rest, l)
  }

  /** What remains once a component has been entered, by what it led to. */
  function ContinueHop(fs: Fs, dir: Node, hop: Hop, next: string, rest: seq<Option<string>>, links: nat): ParentOutcome
    requires AtComponent(next) && FramesAtComponent(rest) && FramesAtComponent(rest + [Some(next)])
    requires hop.Follow? ==> fs.kind(hop.link).Symlink?
  {
    match hop
    case NoWay(e) => ParentFailed(e)
    case Arrive(n) => ContinueFrom(fs, Reached(n, links), next, rest)
    case Follow(n) =>
      var body := fs.kind(n).body;
      if SkipSlashes(body) == "" then
        ContinueFrom(fs, Reached(BodyStart(fs, dir, body), links + 1), next, rest)
      else
        Continue(fs, BodyStart(fs, dir, body), SkipSlashes(body), rest + [Some(next)], links + 1)
  }

  /** next and rest are the text and frames the walker goes on with after the first component. */
  ghost predicate GoesOn(text: string, frames: seq<Option<string>>, next: string, rest: seq<Option<string>>) {
    if Rest(text) != "" then next == Rest(text) && rest == frames
    else |frames| > 0 && frames[|frames| - 1] == Some(next) && rest == frames[..|frames| - 1]
  }

  lemma GoesOnAtComponent(text: string, frames: seq<Option<string>>, next: string, rest: seq<Option<string>>)
    requires FramesAtComponent(frames) && GoesOn(text, frames, next, rest)
    ensures AtComponent(next) && FramesAtComponent(rest) && FramesAtComponent(rest + [Some(next)])
  {
    if Rest(text) == "" {
      assert frames[|frames| - 1] in frames;
    }
  }

  /** After the first component the rest of the work goes on from the directory it led to. */
  lemma ContinueAfterComponent(fs: Fs, dir: Node, text: string, frames: seq<Option<string>>, links: nat,
                               next: string, rest: seq<Option<string>>)
    requires AtComponent(text) && text != "" && FramesAtComponent(frames) && GoesOn(text, frames, next, rest)
    requires AtComponent(next) && FramesAtComponent(rest)
    ensures Continue(fs, dir, text, frames, links)
            == ContinueFrom(fs, Component(fs, dir, First(text), true, links), next, rest)
  {
    var o := Component(fs, dir, First(text), true, links);
    if Rest(text) == "" {
      assert MustBeDir(fs, Resolve(fs, dir, text, true, links)) == MustBeDir(fs, o);
    } else if MustBeDir(fs, o).Reached? {
      assert Resolve(fs, dir, text, true, links) == Resolve(fs, o.node, Rest(text), true, o.links);
      assert ResolveParent(fs, dir, text, links) == ResolveParent(fs, o.node, Rest(text), o.links);
    }
  }

  /** Suspending `next` under a link's body, and resolving the body first, is the same work. */
  lemma ContinueIntoLink(fs: Fs, dir: Node, body: string, next: string, rest: seq<Option<string>>, links: nat)
    requires AtComponent(body) && AtComponent(next)
    requires FramesAtComponent(rest) && FramesAtComponent(rest + [Some(next)])
    ensures Continue(fs, dir, body, rest + [Some(next)], links)
            == ContinueFrom(fs, Resolve(fs, dir, body, true, links), next, rest)
  {
    var frames := rest + [Some(next)];
    assert frames[..|frames| - 1] == rest;
  }

  /** One turn of the walker keeps what remains to be done. */
  lemma ContinueStep(fs: Fs, dir: Node, text: string, frames: seq<Option<string>>, links: nat,
                     next: string, rest: seq<Option<string>>)
    requires AtComponent(text) && text != "" && FramesAtComponent(frames) && GoesOn(text, frames, next, rest)
    ensures AtComponent(next) && FramesAtComponent(rest) && FramesAtComponent(rest + [Some(next)])
    ensures Continue(fs, dir, text, frames, links)
            == ContinueHop(fs, dir, Enter(fs, dir, First(text), true, links), next, rest, links)
  {
    GoesOnAtComponent(text, frames, next, rest);
    ContinueAfterComponent(fs, dir, text, frames, links, next, rest);
    var hop := Enter(fs, dir, First(text), true, links);
    if hop.Follow? {
      var body := fs.kind(hop.link).body;
      ContinueIntoLink(fs, BodyStart(fs, dir, body), SkipSlashes(body), next, rest, links + 1);
    }
  }
}
