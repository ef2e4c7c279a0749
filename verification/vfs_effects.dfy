/** What the operations that add names do, and what undoes them. */
module VfsEffects {
  import opened Wrappers
  import opened VfsPath
  import opened VfsNodes
  import opened VfsResolve
  import opened VfsInvariant
  import opened VfsCopy
  import opened VfsOperations
  import opened VfsNamespace

  /** An entry placed at `path` is what `path` denotes afterwards. */
  lemma PlacedResolves(before: Fs, after: Fs, path: string, node: Node, followFinal: bool)
    requires Grows(before, after) && Parent(before, path).Ok?
    requires var (parent, name) := Parent(before, path).value;
             Lookup(after, parent, name) == Ok(Some(node))
    requires followFinal ==> !node.Symlink?
    ensures ResolveNode(after, path, followFinal) == Ok(node)
  {
    var components := AbsoluteComponents(path).value;
    var k := |components| - 1;
    assert components == components[..k] + [components[k]];
    ResolveGrows(before, after, components[..k], ROOT, [], true, 0);
    ResolveLast(after, components[..k], components[k], ROOT, [], followFinal, 0);
  }

  lemma InsertNewEffect(fs: Fs, path: string, node: Node)
    requires Valid(fs) && InsertNew(fs, path, node).Ok?
    ensures var next := InsertNew(fs, path, node).value;
            var (parent, name) := Parent(fs, path).value;
            && parent.MemoryDir? && parent.id < |fs.dirs|
            && Grows(fs, next) && Parent(next, path) == Parent(fs, path)
            && next == WithEntries(fs, parent.id, fs.dirs[parent.id][name := node])
            && name !in fs.dirs[parent.id]
            && ResolveNode(next, path, false) == Ok(node)
            && (!node.Symlink? ==> ResolveNode(next, path, true) == Ok(node))
  {
    var next := InsertNew(fs, path, node).value;
    ParentOk(fs, path);
    ParentGrows(fs, next, path);
    PlacedResolves(fs, next, path, node, false);
    if !node.Symlink? {
      PlacedResolves(fs, next, path, node, true);
    }
  }

  /** After `link` both paths denote one file: what is written through either is read through the other. */
  lemma LinkAliases(fs: Fs, existing: string, path: string)
    requires Valid(fs) && Link(fs, existing, path).Ok?
    ensures var next := Link(fs, existing, path).value;
            ResolveNode(next, path, true) == ResolveNode(next, existing, true)
            && ResolveNode(next, existing, true) == ResolveNode(fs, existing, true)
  {
    var next := Link(fs, existing, path).value;
    InsertNewEffect(fs, path, ResolveNode(fs, existing, true).value);
    ResolveGrows(fs, next, AbsoluteComponents(existing).value, ROOT, [], true, 0);
  }

  /** A new link reads back as its target text, which need not resolve or even be a legal path. */
  lemma SymlinkReadsBack(fs: Fs, target: string, path: string)
    requires Valid(fs) && MakeSymlink(fs, target, path).Ok?
    ensures ReadLink(MakeSymlink(fs, target, path).value, path) == Ok(target)
  {
    InsertNewEffect(fs, path, Symlink(target));
  }

  /** Removing what `link` or `symlink` placed restores the filesystem exactly. */
  lemma RemoveUndoesInsert(fs: Fs, path: string, node: Node)
    requires Valid(fs) && InsertNew(fs, path, node).Ok? && !node.Dir?
    ensures RemovePath(InsertNew(fs, path, node).value, path, false, false) == Ok(fs)
  {
    InsertNewEffect(fs, path, node);
    var next := InsertNew(fs, path, node).value;
    var (parent, name) := Parent(fs, path).value;
    assert next.dirs[parent.id] - {name} == fs.dirs[parent.id];
    assert next.dirs[parent.id := fs.dirs[parent.id]] == fs.dirs;
  }

  // ---- mkdir ----

  lemma NewEntryGrows(fs: Fs, directory: Directory, name: string)
    requires Insert(NewDirectory(fs).0, directory, name, NewDirectory(fs).1).Ok?
    ensures Grows(fs, Insert(NewDirectory(fs).0, directory, name, NewDirectory(fs).1).value)
  {
  }

  /** `mkdir` makes exactly one new slot, holding a fresh empty directory that the path then denotes. */
  lemma MkdirEffect(fs: Fs, path: string)
    requires Valid(fs) && Mkdir(fs, path, false).Ok?
    ensures var next := Mkdir(fs, path, false).value;
            var (parent, name) := Parent(fs, path).value;
            && parent.MemoryDir? && Slot(fs, parent.id, name) == None
            && OnlySlots(fs, next, {(parent.id, name)}) && |next.dirs| == |fs.dirs| + 1
            && ResolveNode(next, path, true) == Ok(Dir(MemoryDir(|fs.dirs|, true)))
            && next.dirs[|fs.dirs|] == map[]
  {
    var next := Mkdir(fs, path, false).value;
    var (parent, name) := Parent(fs, path).value;
    ParentOk(fs, path);
    NewEntryGrows(fs, parent, name);
    PlacedResolves(fs, next, path, Dir(MemoryDir(|fs.dirs|, true)), true);
    assert next.files[..|fs.files|] == fs.files;
  }

  lemma {:induction false} MkdirFromWalks(fs: Fs, directory: Directory, components: Components)
    requires Valid(fs) && NodeOk(fs, Dir(directory)) && ValidComponents(components)
    requires MkdirFrom(fs, directory, components).Ok?
    ensures var next := MkdirFrom(fs, directory, components).value;
            && Grows(fs, next) && next.files == fs.files
            && Walk(next, Dir(directory), components).Some?
            && Walk(next, Dir(directory), components).value.Dir?
    decreases |components|
  {
    if components != [] {
      var next := MkdirFrom(fs, directory, components).value;
      match Lookup(fs, directory, components[0]).value
      case Some(node) =>
        StepOk(fs, Dir(directory), components[0]);
        MkdirFromWalks(fs, node.directory, components[1..]);
        assert Step(next, Dir(directory), components[0]) == Some(node);
      case None =>
        var (grown, child) := NewDirectory(fs);
        var placed := Insert(grown, directory, components[0], child).value;
        NewEntryValid(fs, directory, components[0]);
        NewEntryGrows(fs, directory, components[0]);
        MkdirFromWalks(placed, child.directory, components[1..]);
        assert Step(placed, Dir(directory), components[0]) == Some(child);
        assert Step(next, Dir(directory), components[0]) == Some(child);
    }
  }

  /** `mkdir -p` leaves a directory at the path, adds entries and takes none away. */
  lemma MkdirRecursiveEffect(fs: Fs, path: string)
    requires Valid(fs) && Mkdir(fs, path, true).Ok?
    ensures var next := Mkdir(fs, path, true).value;
            Grows(fs, next) && next.files == fs.files
            && ResolveNode(next, path, true).Ok? && ResolveNode(next, path, true).value.Dir?
  {
    var components := AbsoluteComponents(path).value;
    if components != [] && ResolveNode(fs, path, true).Err? {
      MkdirFromWalks(fs, ROOT.directory, components);
      WalkResolves(Mkdir(fs, path, true).value, ROOT, [], components, true, 0);
    }
  }
}
