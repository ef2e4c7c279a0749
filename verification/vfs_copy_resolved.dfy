/** With links followed, a copy shows what each path below the source resolves to. */
module VfsCopyResolved {
  import opened Wrappers
  import opened VfsPath
  import opened VfsNodes
  import opened VfsResolve
  import opened VfsInvariant
  import opened VfsCopy
  import opened VfsOperations
  import opened VfsNamespace
  import opened VfsCopyEffects

  /** The textual path of an entry `names` below `path`. */
  function Joined(path: string, names: Components): string
    decreases |names|
  {
    if names == [] then path else Joined(ChildPath(path, names[0]), names[1..])
  }

  predicate EntryNamesOk(names: Components) {
    forall i :: 0 <= i < |names| ==> EntryName(names[i])
  }

  lemma HeadThenTail(above: Components, names: Components)
    requires names != []
    ensures above + names == (above + [names[0]]) + names[1..]
  {
  }

  lemma {:induction false} JoinedComponents(path: string, names: Components)
    requires AbsoluteComponents(Joined(path, names)).Ok? && EntryNamesOk(names) && path != ""
    ensures AbsoluteComponents(path).Ok?
    ensures AbsoluteComponents(Joined(path, names)).value == AbsoluteComponents(path).value + names
    decreases |names|
  {
    if names == [] {
      assert AbsoluteComponents(path).value + [] == AbsoluteComponents(path).value;
    } else {
      assert EntryNamesOk(names[1..]) && EntryName(names[0]);
      JoinedComponents(ChildPath(path, names[0]), names[1..]);
      ChildPathComponents(path, names[0]);
      HeadThenTail(AbsoluteComponents(path).value, names);
    }
  }

  /** Nothing resolves below what does not. */
  lemma {:induction false} NothingBelow(fs: Fs, components: Components, names: Components)
    requires ResolveFrom(fs, components, true).Err?
    ensures ResolveFrom(fs, components + names, true).Err?
    decreases |names|
  {
    if names == [] {
      assert components + names == components;
    } else {
      var k := |names| - 1;
      NothingBelow(fs, components, names[..k]);
      ResolveLast(fs, components + names[..k], names[k], ROOT, [], true, 0);
      assert components + names == components + names[..k] + [names[k]];
    }
  }

  /** The entry of a resolved directory, if it is not a link, is what its path resolves to. */
  lemma EntryResolves(fs: Fs, components: Components, node: Node, name: string)
    requires ResolveFrom(fs, components, true).Ok? && ResolveFrom(fs, components, true).value.0 == node
    ensures var r, step := ResolveFrom(fs, components + [name], true), Step(fs, node, name);
            && (step.None? ==> r.Err?)
            && (step.Some? && !step.value.Symlink? ==> r.Ok? && r.value.0 == step.value)
  {
    ResolveLast(fs, components, name, ROOT, [], true, 0);
  }

  /** The path of a node is one the node is read at: a link's may lead anywhere, other nodes' lead to them. */
  ghost predicate ReadAt(fs: Fs, node: Node, path: string) {
    path != "" && (AbsoluteComponents(path).Ok? && !node.Symlink? ==> ResolveNode(fs, path, true) == Ok(node))
  }

  lemma EntryReadAt(fs: Fs, directory: Directory, path: string, name: string)
    requires ReadAt(fs, Dir(directory), path) && EntryName(name) && Step(fs, Dir(directory), name).Some?
    ensures ReadAt(fs, Step(fs, Dir(directory), name).value, ChildPath(path, name))
  {
    if AbsoluteComponents(ChildPath(path, name)).Ok? {
      ChildPathComponents(path, name);
      EntryResolves(fs, AbsoluteComponents(path).value, Dir(directory), name);
    }
  }

  /** What a path resolves to, as a reader sees it. */
  function ResolvedContent(fs: Fs, path: string): Option<Shown> {
    var found := ResolveNode(fs, path, true);
    if found.Ok? then Some(Content(fs, found.value)) else None
  }

  lemma NothingResolves(fs: Fs, path: string, names: Components)
    requires names != [] && EntryNamesOk(names) && path != "" && AbsoluteComponents(Joined(path, names)).Ok?
    requires AbsoluteComponents(path).Ok? ==> ResolveFrom(fs, AbsoluteComponents(path).value + [names[0]], true).Err?
    ensures ResolvedContent(fs, Joined(path, names)) == None
  {
    JoinedComponents(path, names);
    var above := AbsoluteComponents(path).value;
    HeadThenTail(above, names);
    NothingBelow(fs, above + [names[0]], names[1..]);
  }

  /** The view through links is resolution itself: wherever the joined path resolves, it shows that node. */
  lemma {:induction false} ShownThroughResolves(fs: Fs, node: Node, path: string, names: Components)
    requires ReadAt(fs, node, path) && EntryNamesOk(names) && AbsoluteComponents(Joined(path, names)).Ok?
    requires ResolveNode(fs, Joined(path, names), true).Ok?
    ensures ShownThrough(fs, node, path, true, names) == ResolvedContent(fs, Joined(path, names))
    decreases |names|
  {
    JoinedComponents(path, names);
    var above := AbsoluteComponents(path).value;
    if ResolveFrom(fs, above, true).Err? {
      NothingBelow(fs, above, names);
    }
    if names != [] {
      var seen := ResolveNode(fs, path, true).value;
      EntryResolves(fs, above, seen, names[0]);
      if Step(fs, seen, names[0]).None? {
        NothingResolves(fs, path, names);
      } else {
        EntryReadAt(fs, seen.directory, path, names[0]);
        ShownThroughResolves(fs, Step(fs, seen, names[0]).value, ChildPath(path, names[0]), names[1..]);
      }
    }
  }

  lemma CopyFileResolves(
    fs: Fs, file: FileNode, path: string, at: Components, seen: set<nat>, links: nat, names: Components)
    requires Placed(fs, File(file), path, at, seen, links) && ReadAt(fs, File(file), path)
    requires CopyTree(fs, File(file), path, true, at, seen, links).Ok?
    requires EntryNamesOk(names) && AbsoluteComponents(Joined(path, names)).Ok?
    ensures TreeAt(CopyTree(fs, File(file), path, true, at, seen, links).value, names)
            == ResolvedContent(fs, Joined(path, names))
  {
    JoinedComponents(path, names);
    CopyFileShows(fs, file, path, true, at, seen, links, names);
    if names != [] {
      EntryResolves(fs, AbsoluteComponents(path).value, File(file), names[0]);
      NothingResolves(fs, path, names);
    }
  }

  /** The tree read with links followed shows at every path below the source what that path resolves to. */
  lemma {:induction false} CopyTreeResolves(
    fs: Fs, node: Node, path: string, at: Components, seen: set<nat>, links: nat, names: Components)
    requires Placed(fs, node, path, at, seen, links) && ReadAt(fs, node, path)
    requires CopyTree(fs, node, path, true, at, seen, links).Ok?
    requires EntryNamesOk(names) && AbsoluteComponents(Joined(path, names)).Ok?
    ensures TreeAt(CopyTree(fs, node, path, true, at, seen, links).value, names)
            == ResolvedContent(fs, Joined(path, names))
    decreases |names|, if node.Symlink? then 1 else 0
  {
    JoinedComponents(path, names);
    match node
    case Symlink(_) =>
      var found := ResolvePath(fs, path, true).value;
      CopyLinkAt(fs, node, path, at, seen, links, names);
      CopyTreeResolves(fs, found.0, path, found.1, {}, |AbsoluteComponents(path).value| + 1, names);
    case File(file) =>
      CopyFileResolves(fs, file, path, at, seen, links, names);
    case Dir(directory) =>
      if names != [] {
        CopyDirAt(fs, directory, path, true, at, seen, links, names);
        var step := Step(fs, node, names[0]);
        if step.Some? {
          EntryReadAt(fs, directory, path, names[0]);
          CopyTreeResolves(fs, step.value, ChildPath(path, names[0]), at + [names[0]], SeenBelow(node, seen), links,
                           names[1..]);
        } else {
          EntryResolves(fs, AbsoluteComponents(path).value, node, names[0]);
          NothingResolves(fs, path, names);
        }
      }
  }

  /**
   * A copy that follows links shows at every relative path exactly what the source's path joined
   * with it resolves to, through however many links, and nothing where that does not resolve.
   */
  lemma CopyShowsResolved(fs: Fs, from: string, to: string, options: CopyOptions, names: Components)
    requires Valid(fs) && Copy(fs, from, to, options).Ok? && CopyMade(fs, from, to, options) && options.dereference
    requires EntryNamesOk(names) && AbsoluteComponents(Joined(from, names)).Ok?
    requires CopySlot(fs, from, to, true).Ok? && CopySlot(fs, from, to, true).value.0.MemoryDir?
    ensures var next := Copy(fs, from, to, options).value;
            var (parent, name) := CopySlot(fs, from, to, true).value;
            && Slot(next, parent.id, name).Some?
            && ShownAt(next, Slot(next, parent.id, name).value, names) == ResolvedContent(fs, Joined(from, names))
  {
    var found := ResolvePath(fs, from, true).value;
    CopyPlanted(fs, from, to, options);
    CopyEffect(fs, from, to, options, names);
    ResolvedIsWalk(fs, AbsoluteComponents(from).value, ROOT, [], true, 0);
    CopyTreeShows(fs, found.0, from, true, found.1, {}, 0, names);
    CopyTreeResolves(fs, found.0, from, found.1, {}, 0, names);
  }
}
