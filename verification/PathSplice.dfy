/**
  Pathname resolution as section 4.13 of the POSIX.1-2017 Base Definitions tells it: a list of
  components is worked off from a starting node, and the components of a symbolic link are put in
  front of those that remain. A pathname that ends in slashes is taken as if "." followed. The
  recursive resolver, and with it the walker, is proved to be this.
 */
module PathSplice {
  import opened Wrappers
  import opened PathResolve

  // ---------- Components ----------

  /** The maximal pieces without slashes, the first of them continuing w. */
  function WordsFrom(s: string, w: string): seq<string>
    decreases |s|
  {
    if s == "" then (if w == "" then [] else [w])
    else if s[0] == '/' then (if w == "" then [] else [w]) + WordsFrom(s[1..], "")
    else WordsFrom(s[1..], w + [s[0]])
  }

  function Words(s: string): seq<string> { WordsFrom(s, "") }

  predicate EndsInSlash(s: string) { s != "" && s[|s| - 1] == '/' }

  /** The components of a pathname, with "." for trailing slashes after a component. */
  function Components(s: string): seq<string> {
    Words(s) + (if Words(s) != [] && EndsInSlash(s) then ["."] else [])
  }

  // ---------- Working them off ----------

  function Splice(fs: Fs, node: Node, todo: seq<string>, follow: bool, links: nat): Outcome
    decreases Left(fs, links), |todo|
  {
    if todo == [] then Reached(node, links)
    else if fs.kind(node) != Dir then Failed(ENOTDIR)
    else if todo[0] == "." then Splice(fs, node, todo[1..], follow, links)
    else if todo[0] == ".." then
      Splice(fs, if node == fs.root then node else fs.parent(node), todo[1..], follow, links)
    else
      match fs.child(node, todo[0])
      case None => Failed(ENOENT)
      case Some(n) =>
        if !fs.kind(n).Symlink? || (todo[1..] == [] && !follow) then Splice(fs, n, todo[1..], follow, links)
        else if links >= fs.maxLinks then Failed(ELOOP)
        else
          var body := fs.kind(n).body;
          Splice(fs, if body != "" && body[0] == '/' then fs.root else node,
                 Components(body) + todo[1..], follow || todo[1..] == [], links + 1)
  }

  /** A whole lookup. */
  function SpliceLookup(fs: Fs, dir: Node, name: string, follow: bool, directory: bool, links: nat): Outcome {
    var start := if name != "" && name[0] == '/' then fs.root else dir;
    var o := Splice(fs, start, Components(name), follow, links);
    if directory && o.Reached? && fs.kind(o.node) != Dir then Failed(ENOTDIR) else o
  }

  // ---------- The text of a path and its words ----------

  lemma {:induction false} SkippingKeepsWords(s: string)
    ensures Words(SkipSlashes(s)) == Words(s)
    decreases |s|
  {
    if s != "" && s[0] == '/' {
      SkippingKeepsWords(s[1..]);
    }
  }

  lemma {:induction false} WordsContinue(s: string, w: string)
    requires w != ""
    ensures WordsFrom(s, w) == [w + First(s)] + Words(Tail(s))
    decreases |s|
  {
    if s == "" || s[0] == '/' {
      assert First(s) == "" && Tail(s) == s && w + "" == w;
    } else {
      WordsContinue(s[1..], w + [s[0]]);
      assert First(s) == [s[0]] + First(s[1..]);
      assert w + [s[0]] + First(s[1..]) == w + First(s);
    }
  }

  lemma WordsAre(s: string)
    requires s != "" && s[0] != '/'
    ensures Words(s) == [First(s)] + Words(Rest(s))
  {
    WordsContinue(s[1..], [s[0]]);
    assert "" + [s[0]] == [s[0]];
    assert First(s) == [s[0]] + First(s[1..]);
    SkippingKeepsWords(Tail(s));
  }

  lemma {:induction false} OnlySlashes(s: string)
    requires SkipSlashes(s) == "" && s != ""
    ensures EndsInSlash(s)
    decreases |s|
  {
    if |s| > 1 {
      OnlySlashes(s[1..]);
    }
  }

  lemma {:induction false} SkippedEnds(s: string)
    requires SkipSlashes(s) != ""
    ensures EndsInSlash(SkipSlashes(s)) == EndsInSlash(s)
    decreases |s|
  {
    if s[0] == '/' {
      SkippedEnds(s[1..]);
    }
  }

  lemma {:induction false} NoSlashInside(s: string)
    requires Tail(s) == ""
    ensures !EndsInSlash(s)
    decreases |s|
  {
    if |s| > 1 {
      NoSlashInside(s[1..]);
    }
  }

  lemma EndOfTail(s: string)
    requires Tail(s) != ""
    ensures EndsInSlash(s) == EndsInSlash(Tail(s))
  {
  }

  /** The components of a path are its first component and those of the rest. */
  lemma ComponentsAre(s: string)
    requires s != "" && s[0] != '/'
    ensures Components(s) == if Rest(s) != "" then [First(s)] + Components(Rest(s))
                             else if Tail(s) != "" then [First(s), "."] else [First(s)]
  {
    WordsAre(s);
    if Rest(s) != "" {
      WordsAre(Rest(s));
      EndOfTail(s);
      SkippedEnds(Tail(s));
    } else if Tail(s) != "" {
      OnlySlashes(Tail(s));
      EndOfTail(s);
    } else {
      NoSlashInside(s);
    }
  }

  lemma SkippingKeepsComponents(s: string)
    ensures Components(SkipSlashes(s)) == Components(s)
  {
    SkippingKeepsWords(s);
    if SkipSlashes(s) != "" {
      SkippedEnds(s);
    }
  }

  // ---------- Splicing is resolving first what comes first ----------

  function Then(fs: Fs, o: Outcome, rest: seq<string>, follow: bool): Outcome {
    match o
    case Failed(e) => Failed(e)
    case Reached(n, l) => Splice(fs, n, rest, follow, l)
  }

  lemma {:induction false} SpliceAppend(fs: Fs, node: Node, xs: seq<string>, ys: seq<string>, follow: bool, links: nat)
    requires ys != [] || follow
    ensures Splice(fs, node, xs + ys, follow, links) == Then(fs, Splice(fs, node, xs, true, links), ys, follow)
    decreases Left(fs, links), |xs|
  {
    if xs == [] {
      assert xs + ys == ys;
    } else if fs.kind(node) == Dir {
      assert (xs + ys)[0] == xs[0] && (xs + ys)[1..] == xs[1..] + ys;
      if xs[0] == "." {
        SpliceAppend(fs, node, xs[1..], ys, follow, links);
      } else if xs[0] == ".." {
        SpliceAppend(fs, if node == fs.root then node else fs.parent(node), xs[1..], ys, follow, links);
      } else if fs.child(node, xs[0]).Some? {
        AppendChild(fs, node, xs, ys, follow, links, fs.child(node, xs[0]).value);
      }
    }
  }

  lemma AppendChild(fs: Fs, node: Node, xs: seq<string>, ys: seq<string>, follow: bool, links: nat, n: Node)
    requires (ys != [] || follow) && xs != [] && fs.kind(node) == Dir && xs[0] != "." && xs[0] != ".."
    requires fs.child(node, xs[0]) == Some(n)
    ensures Splice(fs, node, xs + ys, follow, links) == Then(fs, Splice(fs, node, xs, true, links), ys, follow)
    decreases Left(fs, links), |xs|, 0
  {
    assert (xs + ys)[0] == xs[0] && (xs + ys)[1..] == xs[1..] + ys;
    if !fs.kind(n).Symlink? {
      SpliceAppend(fs, n, xs[1..], ys, follow, links);
    } else if links < fs.maxLinks {
      var body := fs.kind(n).body;
      var start := if body != "" && body[0] == '/' then fs.root else node;
      assert Components(body) + (xs[1..] + ys) == Components(body) + xs[1..] + ys;
      SpliceAppend(fs, start, Components(body) + xs[1..], ys, follow, links + 1);
    }
  }

  // ---------- The recursive resolver splices ----------

  lemma {:induction false} ComponentIsSplice(fs: Fs, dir: Node, name: string, follow: bool, links: nat)
    requires fs.kind(dir) == Dir
    ensures Component(fs, dir, name, follow, links) == Splice(fs, dir, [name], follow, links)
    decreases Left(fs, links), 0, 0
  {
    assert [name][1..] == [];
    if name != "." && name != ".." && fs.child(dir, name).Some? {
      var n := fs.child(dir, name).value;
      if fs.kind(n).Symlink? && follow && links < fs.maxLinks {
        var body := fs.kind(n).body;
        assert Components(body) + [] == Components(body);
        SkippingKeepsComponents(body);
        ResolveIsSplice(fs, BodyStart(fs, dir, body), SkipSlashes(body), true, links + 1);
      }
    }
  }

  /** Interior components, and a last one before slashes, are followed and must be directories. */
  lemma InteriorIsSplice(fs: Fs, dir: Node, name: string, rest: seq<string>, follow: bool, links: nat)
    requires fs.kind(dir) == Dir && rest != []
    ensures Splice(fs, dir, [name] + rest, follow, links)
            == Then(fs, MustBeDir(fs, Component(fs, dir, name, true, links)), rest, follow)
    decreases Left(fs, links), 0, 1
  {
    SpliceAppend(fs, dir, [name], rest, follow, links);
    ComponentIsSplice(fs, dir, name, true, links);
  }

  lemma DotNeedsDir(fs: Fs, o: Outcome, follow: bool)
    ensures Then(fs, MustBeDir(fs, o), ["."], follow) == MustBeDir(fs, o)
  {
    if o.Reached? && fs.kind(o.node) == Dir {
      var dot := ["."];
      assert dot[0] == "." && dot[1..] == [];
      assert Splice(fs, o.node, dot, follow, o.links) == Splice(fs, o.node, dot[1..], follow, o.links);
    }
  }

  lemma SlashedIsSplice(fs: Fs, dir: Node, name: string, follow: bool, links: nat)
    requires fs.kind(dir) == Dir
    ensures Splice(fs, dir, [name, "."], follow, links) == MustBeDir(fs, Component(fs, dir, name, true, links))
    decreases Left(fs, links), 0, 2
  {
    assert [name, "."] == [name] + ["."];
    InteriorIsSplice(fs, dir, name, ["."], follow, links);
    DotNeedsDir(fs, Component(fs, dir, name, true, links), follow);
  }

  /** The recursive resolver works off the components of its text. */
  lemma {:induction false} ResolveIsSplice(fs: Fs, dir: Node, text: string, follow: bool, links: nat)
    requires AtComponent(text) && (fs.kind(dir) == Dir || text == "")
    ensures Resolve(fs, dir, text, follow, links) == Splice(fs, dir, Components(text), follow, links)
    decreases Left(fs, links), 1, |text|
  {
    if text != "" {
      ComponentsAre(text);
      if Rest(text) != "" {
        ComponentsAre(Rest(text));
        InteriorIsSplice(fs, dir, First(text), Components(Rest(text)), follow, links);
        var o := MustBeDir(fs, Component(fs, dir, First(text), true, links));
        if o.Reached? {
          ResolveIsSplice(fs, o.node, Rest(text), follow, o.links);
        }
      } else if Tail(text) != "" {
        SlashedIsSplice(fs, dir, First(text), follow, links);
      } else {
        ComponentIsSplice(fs, dir, First(text), follow, links);
      }
    }
  }

  /** A lookup from any node works off the components of the name. */
  lemma LookupIsSplice(fs: Fs, dir: Node, name: string, follow: bool, directory: bool, links: nat)
    ensures LookupFrom(fs, dir, name, follow, directory, links) == SpliceLookup(fs, dir, name, follow, directory, links)
  {
    SkippingKeepsComponents(name);
    if StartIsDir(fs, dir, name) {
      ResolveIsSplice(fs, BodyStart(fs, dir, name), SkipSlashes(name), follow, links);
    } else {
      ComponentsAre(name);
    }
  }

  /** A name and "..", from its directory: the parent of the directory found, or its root again. */
  lemma DotDotGoesUp(fs: Fs, dir: Node, name: string, a: Node, follow: bool, links: nat)
    requires fs.kind(dir) == Dir && name != "." && name != ".." && fs.child(dir, name) == Some(a) && fs.kind(a) == Dir
    ensures Splice(fs, dir, [name, ".."], follow, links) == Reached(if a == fs.root then a else fs.parent(a), links)
  {
    var todo := [name, ".."];
    assert todo[1..] == [".."];
    assert [".."][1..] == [];
    assert Splice(fs, dir, todo, follow, links) == Splice(fs, a, todo[1..], follow, links);
  }

  // ---------- The walk to the parent ----------

  /** The words before the last are worked off, every link followed, and must end at a directory. */
  function SpliceParent(fs: Fs, dir: Node, text: string, links: nat): ParentOutcome {
    var ws := Words(text);
    if ws == [] then Parent(dir, None, links)
    else
      match Splice(fs, dir, ws[..|ws| - 1], true, links)
      case Failed(e) => ParentFailed(e)
      case Reached(n, l) =>
        if fs.kind(n) != Dir then ParentFailed(ENOTDIR)
        else Parent(n, Some((ws[|ws| - 1], EndsInSlash(text))), l)
  }

  /** What becomes of the parent of the rest once the first component has been entered. */
  function ThenParent(fs: Fs, o: Outcome, text: string): ParentOutcome {
    match o
    case Failed(e) => ParentFailed(e)
    case Reached(n, l) => SpliceParent(fs, n, text, l)
  }

  lemma ParentOfRest(fs: Fs, dir: Node, text: string, links: nat)
    requires text != "" && text[0] != '/' && Rest(text) != "" && fs.kind(dir) == Dir
    ensures SpliceParent(fs, dir, text, links)
            == ThenParent(fs, MustBeDir(fs, Component(fs, dir, First(text), true, links)), Rest(text))
  {
    var ws, rs := Words(text), Words(Rest(text));
    WordsAre(text);
    WordsAre(Rest(text));
    EndOfTail(text);
    SkippedEnds(Tail(text));
    assert ws[..|ws| - 1] == [First(text)] + rs[..|rs| - 1];
    SpliceAppend(fs, dir, [First(text)], rs[..|rs| - 1], true, links);
    ComponentIsSplice(fs, dir, First(text), true, links);
  }

  /** The recursive walk to the parent works off the words before the last. */
  lemma {:induction false} ParentIsSplice(fs: Fs, dir: Node, text: string, links: nat)
    requires AtComponent(text) && (fs.kind(dir) == Dir || text == "")
    ensures ResolveParent(fs, dir, text, links) == SpliceParent(fs, dir, text, links)
    decreases |text|
  {
    if text != "" && Rest(text) != "" {
      ParentOfRest(fs, dir, text, links);
      var o := MustBeDir(fs, Component(fs, dir, First(text), true, links));
      if o.Reached? {
        ParentIsSplice(fs, o.node, Rest(text), o.links);
      }
    } else if text != "" {
      OnlyWord(text);
    }
  }

  /** From a directory, the walk to the parent of a whole text, leading slashes and all. */
  lemma WalkIsSplice(fs: Fs, dir: Node, text: string, links: nat)
    requires fs.kind(dir) == Dir
    ensures ResolveParent(fs, dir, SkipSlashes(text), links) == SpliceParent(fs, dir, text, links)
  {
    ParentIsSplice(fs, dir, SkipSlashes(text), links);
    SkippingKeepsWords(text);
    if SkipSlashes(text) != "" {
      SkippedEnds(text);
    }
  }

  lemma OnlyWord(text: string)
    requires text != "" && text[0] != '/' && Rest(text) == ""
    ensures Words(text) == [First(text)] && EndsInSlash(text) == (Tail(text) != "")
  {
    WordsAre(text);
    if Tail(text) != "" {
      OnlySlashes(Tail(text));
      EndOfTail(text);
    } else {
      NoSlashInside(text);
    }
  }
}
