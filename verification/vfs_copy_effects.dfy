/** What a copy guarantees, and what stays fixed over every run. */
module VfsCopyEffects {
  import opened Wrappers
  import opened VfsPath
  import opened VfsNodes
  import opened VfsResolve
  import opened VfsInvariant
  import opened VfsCopy
  import opened VfsOperations
  import opened VfsNamespace

  /** Fresh directories and files change no resolution, successful or not. */
  lemma {:induction false} ResolveArena(
    before: Fs, after: Fs, pending: Components, current: Node, resolved: Components, followFinal: bool, symlinks: nat)
    requires symlinks <= MAX_SYMLINKS && Valid(before) && NodeOk(before, current)
    requires before.host == after.host && |before.dirs| <= |after.dirs| && after.dirs[..|before.dirs|] == before.dirs
    ensures Resolve(after, pending, current, resolved, followFinal, symlinks)
            == Resolve(before, pending, current, resolved, followFinal, symlinks)
    decreases MAX_SYMLINKS - symlinks, |pending|
  {
    if pending != [] && current.Dir? {
      if current.directory.MemoryDir? {
        assert after.dirs[..|before.dirs|][current.directory.id] == before.dirs[current.directory.id];
      }
      match Lookup(before, current.directory, pending[0])
      case Ok(Some(child)) =>
        StepOk(before, current, pending[0]);
        if child.Symlink? && (followFinal || |pending| > 1) {
          if symlinks + 1 <= MAX_SYMLINKS {
            match TargetComponents(resolved, child.target)
            case Ok(next) => ResolveArena(before, after, next + pending[1..], ROOT, [], followFinal, symlinks + 1);
            case Err(_) =>
          }
        } else {
          ResolveArena(before, after, pending[1..], child, resolved + [pending[0]], followFinal, symlinks);
        }
      case _ =>
    }
  }

  lemma ParentArena(before: Fs, after: Fs, path: string)
    requires Valid(before)
    requires before.host == after.host && |before.dirs| <= |after.dirs| && after.dirs[..|before.dirs|] == before.dirs
    ensures Parent(after, path) == Parent(before, path)
  {
    match AbsoluteComponents(path)
    case Ok(components) =>
      if components != [] {
        ResolveArena(before, after, components[..|components| - 1], ROOT, [], true, 0);
      }
    case Err(_) =>
  }

  /** The copy is made rather than skipped because the target is there and `force` is not given. */
  predicate CopyMade(fs: Fs, from: string, to: string, options: CopyOptions) {
    match ResolveNode(fs, from, options.dereference)
    case Err(_) => false
    case Ok(source) =>
      match CopyTarget(fs, from, to, source)
      case Err(_) => false
      case Ok(target) => !ResolveNode(fs, target, false).Ok? || (options.force && !options.errorOnExist)
  }

  /** The slot a copy fills. */
  function CopySlot(fs: Fs, from: string, to: string, dereference: bool): Result<(Directory, string), ErrorKind> {
    var source :- ResolveNode(fs, from, dereference);
    var target :- CopyTarget(fs, from, to, source);
    Parent(fs, target)
  }

  lemma CopySourceShows(fs: Fs, from: string, dereference: bool, names: Components)
    requires Valid(fs) && CopySource(fs, from, dereference).Ok?
    ensures TreeOk(CopySource(fs, from, dereference).value)
    ensures TreeAt(CopySource(fs, from, dereference).value, names)
            == ShownThrough(fs, ResolveNode(fs, from, dereference).value, from, dereference, names)
  {
    var found := ResolvePath(fs, from, dereference).value;
    ResolvedIsWalk(fs, AbsoluteComponents(from).value, ROOT, [], dereference, 0);
    CopyTreeOk(fs, found.0, from, dereference, found.1, {}, 0);
    CopyTreeShows(fs, found.0, from, dereference, found.1, {}, 0, names);
  }

  /** Emptying a slot and filling it is filling it. */
  lemma ReplaceEntry(dirs: seq<Entries>, id: nat, entries: Entries, name: string, node: Node)
    requires id < |dirs|
    ensures dirs[id := entries - {name}][id := (entries - {name})[name := node]]
         == dirs[id := (entries - {name})[name := node]]
    ensures name !in entries ==> entries - {name} == entries
  {
  }

  lemma PlaceCopyEffect(fs: Fs, tree: Tree, target: string, present: bool)
    requires Valid(fs) && PlaceCopy(fs, tree, target, present).Ok?
    ensures Parent(fs, target).Ok?
    ensures var (planted, node) := Plant(fs, tree);
            var (parent, name) := Parent(fs, target).value;
            && parent.MemoryDir? && parent.writable && 0 < parent.id < |fs.dirs| && ValidName(name)
            && planted.dirs[parent.id] == fs.dirs[parent.id]
            && PlaceCopy(fs, tree, target, present).value
               == WithEntries(planted, parent.id, (fs.dirs[parent.id] - {name})[name := node])
  {
    var (planted, node) := Plant(fs, tree);
    ParentOk(fs, target);
    var (parent, name) := Parent(fs, target).value;
    assert planted.dirs[..|fs.dirs|][parent.id] == fs.dirs[parent.id];
    ReplaceEntry(planted.dirs, parent.id, fs.dirs[parent.id], name, node);
  }

  /** The state just before the copy is put in its slot. */
  lemma CopyPlanted(fs: Fs, from: string, to: string, options: CopyOptions)
    requires Valid(fs) && Copy(fs, from, to, options).Ok? && CopyMade(fs, from, to, options)
    ensures CopySource(fs, from, options.dereference).Ok? && CopySlot(fs, from, to, options.dereference).Ok?
    ensures var tree := CopySource(fs, from, options.dereference).value;
            var (planted, node) := Plant(fs, tree);
            var (parent, name) := CopySlot(fs, from, to, options.dereference).value;
            && TreeOk(tree) && Valid(planted) && EntryOk(planted, node) && Loose(planted, node)
            && parent.MemoryDir? && parent.writable && 0 < parent.id < |fs.dirs| && EntryName(name)
            && planted.dirs[parent.id] == fs.dirs[parent.id]
            && Copy(fs, from, to, options).value
               == WithEntries(planted, parent.id, (fs.dirs[parent.id] - {name})[name := node])
  {
    var tree := CopySource(fs, from, options.dereference).value;
    CopySourceShows(fs, from, options.dereference, []);
    PlantValid(fs, tree);
    var target := CopyTarget(fs, from, to, ResolveNode(fs, from, options.dereference).value).value;
    PlaceCopyEffect(fs, tree, target, ResolveNode(fs, target, false).Ok?);
  }

  lemma CopyValid(fs: Fs, from: string, to: string, options: CopyOptions)
    requires Valid(fs) && Copy(fs, from, to, options).Ok?
    ensures Valid(Copy(fs, from, to, options).value)
  {
    if CopyMade(fs, from, to, options) {
      CopyPlanted(fs, from, to, options);
      var tree := CopySource(fs, from, options.dereference).value;
      var (planted, node) := Plant(fs, tree);
      var (parent, name) := CopySlot(fs, from, to, options.dereference).value;
      RemoveValid(planted, parent, name);
      var vacant := Remove(planted, parent, name).value;
      assert forall i: nat, m, entry :: HasSlot(vacant, i, m, entry) ==> HasSlot(planted, i, m, entry);
      InsertValid(vacant, parent, name, node);
      assert vacant.dirs[parent.id := vacant.dirs[parent.id][name := node]]
             == planted.dirs[parent.id := (fs.dirs[parent.id] - {name})[name := node]];
    }
  }

  /**
   * A copy shows at every relative path exactly what the source shows, links followed or kept as
   * asked; it is made only of fresh directories and files; and no other slot or file changes.
   */
  lemma CopyEffect(fs: Fs, from: string, to: string, options: CopyOptions, names: Components)
    requires Valid(fs) && Copy(fs, from, to, options).Ok? && CopyMade(fs, from, to, options)
    ensures var next := Copy(fs, from, to, options).value;
            var (parent, name) := CopySlot(fs, from, to, options.dereference).value;
            && parent.MemoryDir? && Slot(next, parent.id, name).Some?
            && OnlySlots(fs, next, {(parent.id, name)})
            && var copy := Slot(next, parent.id, name).value;
            && Within(next, |fs.dirs|, |fs.files|, copy) && Region(next, |fs.dirs|, |fs.files|)
            && ShownAt(next, copy, names)
               == ShownThrough(fs, ResolveNode(fs, from, options.dereference).value, from, options.dereference, names)
  {
    CopyPlanted(fs, from, to, options);
    var tree := CopySource(fs, from, options.dereference).value;
    var (planted, node) := Plant(fs, tree);
    var (parent, name) := CopySlot(fs, from, to, options.dereference).value;
    var next := Copy(fs, from, to, options).value;
    PlantRegion(fs, tree);
    PlantShows(fs, tree, names);
    CopySourceShows(fs, from, options.dereference, names);
    RegionFrame(planted, next, |fs.dirs|, |fs.files|, node, names);
    assert Slot(next, parent.id, name) == Some(node);
    forall i: nat, m, entry | HasSlot(next, i, m, entry) && i >= |fs.dirs|
      ensures Within(next, |fs.dirs|, |fs.files|, entry)
    {
      assert HasSlot(planted, i, m, entry);
    }
    PlacedSlots(fs, planted, next, parent.id, name, node);
  }

  /** Only the filled slot differs from the filesystem before the copy. */
  lemma PlacedSlots(fs: Fs, planted: Fs, next: Fs, id: nat, name: string, node: Node)
    requires |fs.dirs| <= |planted.dirs| && planted.dirs[..|fs.dirs|] == fs.dirs && id < |fs.dirs|
    requires planted.host == fs.host && |fs.files| <= |planted.files| && planted.files[..|fs.files|] == fs.files
    requires next == WithEntries(planted, id, (fs.dirs[id] - {name})[name := node])
    ensures OnlySlots(fs, next, {(id, name)})
  {
    forall other: nat, m | other < |fs.dirs| && (other, m) !in {(id, name)}
      ensures Slot(next, other, m) == Slot(fs, other, m)
    {
      assert planted.dirs[..|fs.dirs|][other] == fs.dirs[other];
    }
  }

  /** Two handles to one memory directory or one memory file. */
  predicate Shared(a: Node, b: Node) {
    || (a.Dir? && b.Dir? && a.directory.MemoryDir? && b.directory.MemoryDir? && a.directory.id == b.directory.id)
    || (a.File? && b.File? && a.file.MemoryFile? && b.file.MemoryFile? && a.file.id == b.file.id)
  }

  /** No directory and no file body reached inside the copy was reachable before it was made. */
  lemma CopySharesNothing(
    fs: Fs, from: string, to: string, options: CopyOptions,
    previous: Node, previousNames: Components, names: Components)
    requires Valid(fs) && Copy(fs, from, to, options).Ok? && CopyMade(fs, from, to, options)
    requires NodeOk(fs, previous) && Walk(fs, previous, previousNames).Some?
    ensures var next := Copy(fs, from, to, options).value;
            var (parent, name) := CopySlot(fs, from, to, options.dereference).value;
            parent.MemoryDir? && Slot(next, parent.id, name).Some?
            && var inside := Walk(next, Slot(next, parent.id, name).value, names);
               inside.Some? ==> !Shared(Walk(fs, previous, previousNames).value, inside.value)
  {
    CopyEffect(fs, from, to, options, names);
    var next := Copy(fs, from, to, options).value;
    var (parent, name) := CopySlot(fs, from, to, options.dereference).value;
    RegionFrame(next, next, |fs.dirs|, |fs.files|, Slot(next, parent.id, name).value, names);
    WalkOk(fs, previous, previousNames);
  }

  /** Later changes to anything that existed before the copy never show in it. */
  lemma CopyUnaffected(fs: Fs, from: string, to: string, options: CopyOptions, later: Fs, names: Components)
    requires Valid(fs) && Copy(fs, from, to, options).Ok? && CopyMade(fs, from, to, options)
    requires var next := Copy(fs, from, to, options).value;
             && |next.dirs| <= |later.dirs| && |next.files| <= |later.files|
             && later.dirs[|fs.dirs|..|next.dirs|] == next.dirs[|fs.dirs|..]
             && later.files[|fs.files|..|next.files|] == next.files[|fs.files|..]
    ensures var next := Copy(fs, from, to, options).value;
            var (parent, name) := CopySlot(fs, from, to, options.dereference).value;
            parent.MemoryDir? && Slot(next, parent.id, name).Some?
            && ShownAt(later, Slot(next, parent.id, name).value, names)
               == ShownThrough(fs, ResolveNode(fs, from, options.dereference).value, from, options.dereference, names)
  {
    CopyEffect(fs, from, to, options, names);
    var next := Copy(fs, from, to, options).value;
    var (parent, name) := CopySlot(fs, from, to, options.dereference).value;
    forall i | |fs.dirs| <= i < |next.dirs|
      ensures later.dirs[i] == next.dirs[i]
    {
      assert later.dirs[|fs.dirs|..|next.dirs|][i - |fs.dirs|] == next.dirs[|fs.dirs|..][i - |fs.dirs|];
    }
    forall i | |fs.files| <= i < |next.files|
      ensures later.files[i] == next.files[i]
    {
      assert later.files[|fs.files|..|next.files|][i - |fs.files|] == next.files[|fs.files|..][i - |fs.files|];
    }
    RegionFrame(next, later, |fs.dirs|, |fs.files|, Slot(next, parent.id, name).value, names);
  }

  /** What `later` may be after a copy for the old part of the namespace to stand as the copy left it. */
  ghost predicate KeepsOld(fs: Fs, next: Fs, later: Fs)
    requires |fs.dirs| <= |next.dirs| && |fs.files| <= |next.files|
  {
    && later.host == next.host && |fs.dirs| <= |later.dirs| && |fs.files| <= |later.files|
    && (forall i :: 0 <= i < |fs.dirs| ==> later.dirs[i] == next.dirs[i])
    && (forall i :: 0 <= i < |fs.files| ==> later.files[i] == next.files[i])
  }

  lemma OldPart(fs: Fs, next: Fs, later: Fs, slot: (nat, string))
    requires OnlySlots(fs, next, {slot}) && KeepsOld(fs, next, later)
    ensures OnlySlots(fs, later, {slot})
  {
    forall id: nat, m | id < |fs.dirs| && (id, m) !in {slot}
      ensures Slot(later, id, m) == Slot(fs, id, m)
    {
      assert Slot(next, id, m) == Slot(fs, id, m);
    }
    forall i | 0 <= i < |fs.files|
      ensures later.files[i] == fs.files[i]
    {
      assert next.files[..|fs.files|][i] == fs.files[i];
    }
    assert later.files[..|fs.files|] == fs.files;
  }

  /**
   * Later changes inside the copy never show in the source, or anywhere outside the copy: however
   * the fresh directories and files are changed, a walk from an older node that is not through the
   * filled slot shows what it showed before the copy was made.
   */
  lemma SourceUnaffected(
    fs: Fs, from: string, to: string, options: CopyOptions, later: Fs, node: Node, names: Components)
    requires Valid(fs) && Copy(fs, from, to, options).Ok? && CopyMade(fs, from, to, options)
    requires |fs.dirs| <= |Copy(fs, from, to, options).value.dirs|
    requires |fs.files| <= |Copy(fs, from, to, options).value.files|
    requires KeepsOld(fs, Copy(fs, from, to, options).value, later) && NodeOk(fs, node)
    requires CopySlot(fs, from, to, options.dereference).Ok?
    requires CopySlot(fs, from, to, options.dereference).value.0.MemoryDir?
    requires var (parent, name) := CopySlot(fs, from, to, options.dereference).value;
             forall k: nat :: k < |names| ==> StepAvoids(fs, node, names, k, (parent.id, name))
    ensures Walk(later, node, names) == Walk(fs, node, names)
    ensures ShownAt(later, node, names) == ShownAt(fs, node, names)
  {
    var next := Copy(fs, from, to, options).value;
    var (parent, name) := CopySlot(fs, from, to, options.dereference).value;
    var slot := (parent.id, name);
    CopyPlanted(fs, from, to, options);
    CopyEffect(fs, from, to, options, []);
    OldPart(fs, next, later, slot);
    WalkKept(fs, later, {slot}, node, names);
    if Walk(fs, node, names).Some? {
      WalkOk(fs, node, names);
      SameContent(fs, later, Walk(fs, node, names).value);
    }
  }

  lemma SameContent(before: Fs, after: Fs, node: Node)
    requires NodeOk(before, node) && before.host == after.host
    requires |before.files| <= |after.files| && after.files[..|before.files|] == before.files
    ensures Content(after, node) == Content(before, node)
  {
    match node
    case File(MemoryFile(id)) => assert after.files[..|before.files|][id] == before.files[id];
    case _ =>
  }

  // ---- Where a copy goes ----

  /**
   * What the target of a copy denotes: when `to` leads to a directory, the slot of that directory,
   * wherever links have taken it, that bears the source's last name; otherwise `to` itself.
   */
  lemma CopyTargetMeans(fs: Fs, from: string, to: string, source: Node)
    requires Valid(fs) && CopyTarget(fs, from, to, source).Ok?
    ensures var target := CopyTarget(fs, from, to, source).value;
            var place, names := ResolveNode(fs, to, true), AbsoluteComponents(from);
            if place.Ok? && place.value.Dir? then
              && names.Ok? && names.value != []
              && (AbsoluteComponents(target).Ok? ==>
                    Parent(fs, target) == Ok((place.value.directory, names.value[|names.value| - 1])))
            else target == to
  {
    match ResolveNode(fs, to, true)
    case Ok(Dir(directory)) =>
      var names := AbsoluteComponents(from).value;
      var name, target := names[|names| - 1], CopyTarget(fs, from, to, source).value;
      if AbsoluteComponents(target).Ok? {
        ChildPathComponents(to, name);
        var above := AbsoluteComponents(to).value;
        assert (above + [name])[..|above|] == above;
      }
    case _ =>
  }
}
