/**
 * Deep copy. The recursion first reads the source into a tree value and then plants that tree
 * in fresh directories and files.
 */
module VfsCopy {
  import opened Wrappers
  import opened VfsPath
  import opened VfsNodes
  import opened VfsResolve
  import opened VfsInvariant
  import opened Sorting

  datatype Tree = FileTree(bytes: Bytes) | LinkTree(target: string) | DirTree(children: map<string, Tree>)

  // ---- Termination of the recursion ----

  /** `seen` holds only memory directories strictly above the place `at`. */
  ghost predicate Above(fs: Fs, at: Components, seen: set<nat>) {
    forall id :: id in seen ==>
      exists k :: 0 <= k < |at| && Walk(fs, ROOT, at[..k]) == Some(Dir(MemoryDir(id, id != 0)))
  }

  ghost function Unseen(fs: Fs, seen: set<nat>): set<nat> {
    set id: nat | id < |fs.dirs| && id !in seen
  }

  /** The host subtree a node stands for; memory nodes stand above the whole bundle. */
  ghost function HostPart(fs: Fs, node: Node): HostNode {
    match node
    case Dir(BundleDir(relative)) => var part := HostAt(fs.host, relative); if part.Some? then part.value else fs.host
    case File(BundleFile(relative)) => var part := HostAt(fs.host, relative); if part.Some? then part.value else fs.host
    case _ => fs.host
  }

  /** If a link can be followed at or below `path`, the path it is followed at has `links` segments or more. */
  ghost predicate LinkFloor(node: Node, path: string, links: nat) {
    AbsoluteComponents(path).Ok? ==> |AbsoluteComponents(path).value| + (if node.Symlink? then 0 else 1) >= links
  }

  ghost predicate Placed(fs: Fs, node: Node, path: string, at: Components, seen: set<nat>, links: nat) {
    Valid(fs) && Walk(fs, ROOT, at) == Some(node) && Above(fs, at, seen)
    && links <= MAX_PATH_SEGMENTS + 1 && LinkFloor(node, path, links) && path != ""
  }

  ghost function SeenBelow(node: Node, seen: set<nat>): set<nat> {
    if node.Dir? && node.directory.MemoryDir? then seen + {node.directory.id} else seen
  }

  /** The directory being copied is not among those above it: the reachable part is a tree. */
  lemma NotSeenAbove(fs: Fs, at: Components, seen: set<nat>, directory: Directory)
    requires Valid(fs) && Above(fs, at, seen)
    requires Walk(fs, ROOT, at) == Some(Dir(directory)) && directory.MemoryDir?
    ensures directory.id !in seen && directory.id < |fs.dirs|
  {
    WalkOk(fs, ROOT, at);
    if directory.id in seen {
      var k :| 0 <= k < |at| && Walk(fs, ROOT, at[..k]) == Some(Dir(MemoryDir(directory.id, directory.id != 0)));
      TreeFromRoot(fs, at[..k], at, directory);
    }
  }

  lemma EntryPlaced(
    fs: Fs, directory: Directory, path: string, at: Components, seen: set<nat>, links: nat, name: string)
    requires Placed(fs, Dir(directory), path, at, seen, links)
    requires Step(fs, Dir(directory), name).Some?
    ensures var child := Step(fs, Dir(directory), name).value;
            Placed(fs, child, ChildPath(path, name), at + [name], SeenBelow(Dir(directory), seen), links)
  {
    var child := Step(fs, Dir(directory), name).value;
    var below := SeenBelow(Dir(directory), seen);
    WalkOk(fs, ROOT, at);
    WalkSnoc(fs, ROOT, at, name);
    StepName(fs, Dir(directory), name);
    forall id | id in below
      ensures exists k :: 0 <= k < |at + [name]|
                          && Walk(fs, ROOT, (at + [name])[..k]) == Some(Dir(MemoryDir(id, id != 0)))
    {
      if id in seen {
        var k :| 0 <= k < |at| && Walk(fs, ROOT, at[..k]) == Some(Dir(MemoryDir(id, id != 0)));
        assert (at + [name])[..k] == at[..k];
      } else {
        assert (at + [name])[..|at|] == at;
      }
    }
    if AbsoluteComponents(ChildPath(path, name)).Ok? {
      ChildPathComponents(path, name);
    }
  }

  lemma EntryDescends(fs: Fs, directory: Directory, at: Components, seen: set<nat>, name: string)
    requires Valid(fs) && Walk(fs, ROOT, at) == Some(Dir(directory)) && Above(fs, at, seen)
    requires Step(fs, Dir(directory), name).Some?
    ensures var child := Step(fs, Dir(directory), name).value;
            var below := SeenBelow(Dir(directory), seen);
            match directory {
              case MemoryDir(id, _) => id in Unseen(fs, seen) && Unseen(fs, below) == Unseen(fs, seen) - {id}
              case BundleDir(_) => below == seen && HostPart(fs, Dir(directory)).HostDir?
                                   && name in HostPart(fs, Dir(directory)).entries
                                   && HostPart(fs, child) == HostPart(fs, Dir(directory)).entries[name]
              case StaticDir => below == seen && HostPart(fs, child) == HostPart(fs, Dir(directory)) && child.File?
            }
  {
    match directory
    case MemoryDir(id, _) => NotSeenAbove(fs, at, seen, directory);
    case BundleDir(relative) => HostAtSnoc(fs.host, relative, name);
    case StaticDir =>
  }

  // ---- Reading the source ----

  function CopyFileTree(fs: Fs, file: FileNode): Result<Tree, ErrorKind> {
    if file.DeviceFile? then Err(Unsupported)
    else
      var size :- FileSize(fs, file);
      var length :- CheckedSize(size);
      var bytes :- ReadFileNode(fs, file, 0, length, []);
      Ok(FileTree(bytes))
  }

  /**
   * The tree a copy of `node`, found at `path`, will show. The measure is the room left for
   * link paths, then the memory directories not yet above the node, then the host subtree.
   */
  function CopyTree(fs: Fs, node: Node, path: string, dereference: bool,
                    ghost at: Components, ghost seen: set<nat>, ghost links: nat): Result<Tree, ErrorKind>
    requires Placed(fs, node, path, at, seen, links)
    decreases MAX_PATH_SEGMENTS + 1 - links, Unseen(fs, seen), HostPart(fs, node), if node.Dir? then 1 else 0
  {
    match node
    case File(file) => CopyFileTree(fs, file)
    case Symlink(target) =>
      if !dereference then Ok(LinkTree(target))
      else
        var found :- ResolvePath(fs, path, true);
        ResolvedIsWalk(fs, AbsoluteComponents(path).value, ROOT, [], true, 0);
        CopyTree(fs, found.0, path, dereference, found.1, {}, |AbsoluteComponents(path).value| + 1)
    case Dir(directory) =>
      var names :- EntryNames(fs, directory);
      var children :- CopyChildren(fs, directory, names, path, dereference, at, seen, links);
      Ok(DirTree(children))
  }

  function CopyChildren(fs: Fs, directory: Directory, names: seq<string>, path: string, dereference: bool,
                        ghost at: Components, ghost seen: set<nat>, ghost links: nat)
    : Result<map<string, Tree>, ErrorKind>
    requires Placed(fs, Dir(directory), path, at, seen, links)
    decreases MAX_PATH_SEGMENTS + 1 - links, Unseen(fs, seen), HostPart(fs, Dir(directory)), 1, |names|
  {
    if names == [] then Ok(map[])
    else
      var found :- Lookup(fs, directory, names[0]);
      match found
      case None => Err(NotFound)
      case Some(child) =>
        EntryPlaced(fs, directory, path, at, seen, links, names[0]);
        EntryDescends(fs, directory, at, seen, names[0]);
        var tree :- CopyTree(fs, child, ChildPath(path, names[0]), dereference,
                             at + [names[0]], SeenBelow(Dir(directory), seen), links);
        var rest :- CopyChildren(fs, directory, names[1..], path, dereference, at, seen, links);
        Ok(rest[names[0] := tree])
  }

  // ---- Planting ----

  function Plant(fs: Fs, tree: Tree): (r: (Fs, Node))
    ensures |r.0.dirs| >= |fs.dirs| && r.0.dirs[..|fs.dirs|] == fs.dirs
    ensures |r.0.files| >= |fs.files| && r.0.files[..|fs.files|] == fs.files
    ensures r.0.host == fs.host
    decreases tree
  {
    match tree
    case FileTree(bytes) => NewFile(fs, bytes)
    case LinkTree(target) => (fs, Symlink(target))
    case DirTree(children) =>
      var (grown, target) := NewDirectory(fs);
      (PlantChildren(grown, |fs.dirs|, Sorted(children.Keys), tree), target)
  }

  function PlantChildren(fs: Fs, target: nat, names: seq<string>, tree: Tree): (r: Fs)
    requires target < |fs.dirs| && tree.DirTree? && forall name :: name in names ==> name in tree.children
    ensures |r.dirs| >= |fs.dirs|
    ensures forall i :: 0 <= i < |fs.dirs| && i != target ==> r.dirs[i] == fs.dirs[i]
    ensures |r.files| >= |fs.files| && r.files[..|fs.files|] == fs.files
    ensures r.host == fs.host
    decreases tree, |names|
  {
    if names == [] then fs
    else
      var (grown, child) := Plant(fs, tree.children[names[0]]);
      assert forall i :: 0 <= i < |fs.dirs| ==> grown.dirs[i] == grown.dirs[..|fs.dirs|][i];
      assert forall i :: 0 <= i < |fs.files| ==> grown.files[i] == grown.files[..|fs.files|][i];
      PlantChildren(WithEntries(grown, target, grown.dirs[target][names[0] := child]), target, names[1..], tree)
  }

  // ---- Everything planted is fresh ----

  /** The handle is a link, or points at or above the given arena positions. */
  ghost predicate Within(fs: Fs, dirFloor: nat, fileFloor: nat, node: Node) {
    match node
    case Dir(MemoryDir(id, writable)) => dirFloor <= id < |fs.dirs| && writable
    case File(MemoryFile(id)) => fileFloor <= id < |fs.files|
    case Symlink(_) => true
    case _ => false
  }

  /** The directories from `dirFloor` on hold only handles at or above the floors. */
  ghost predicate Region(fs: Fs, dirFloor: nat, fileFloor: nat) {
    forall i: nat, name, node :: HasSlot(fs, i, name, node) && i >= dirFloor ==> Within(fs, dirFloor, fileFloor, node)
  }

  lemma {:induction false} PlantRegion(fs: Fs, tree: Tree)
    ensures var (next, node) := Plant(fs, tree);
            Region(next, |fs.dirs|, |fs.files|) && Within(next, |fs.dirs|, |fs.files|, node)
    decreases tree
  {
    match tree
    case FileTree(bytes) =>
    case LinkTree(_) =>
    case DirTree(children) =>
      PlantChildrenRegion(NewDirectory(fs).0, |fs.dirs|, Sorted(children.Keys), tree, |fs.dirs|, |fs.files|);
  }

  lemma {:induction false} PlantChildrenRegion(
    fs: Fs, target: nat, names: seq<string>, tree: Tree, dirFloor: nat, fileFloor: nat)
    requires dirFloor <= target < |fs.dirs| && fileFloor <= |fs.files| && Region(fs, dirFloor, fileFloor)
    requires tree.DirTree? && forall name :: name in names ==> name in tree.children
    ensures Region(PlantChildren(fs, target, names, tree), dirFloor, fileFloor)
    decreases tree, |names|
  {
    if names != [] {
      var (grown, child) := Plant(fs, tree.children[names[0]]);
      PlantRegion(fs, tree.children[names[0]]);
      var next := WithEntries(grown, target, grown.dirs[target][names[0] := child]);
      forall i: nat, name, node | HasSlot(next, i, name, node) && i >= dirFloor
        ensures Within(next, dirFloor, fileFloor, node)
      {
        if i == target && name == names[0] {
        } else if i < |fs.dirs| {
          assert grown.dirs[i] == grown.dirs[..|fs.dirs|][i];
          assert HasSlot(fs, i, name, node);
        } else {
          assert HasSlot(grown, i, name, node);
        }
      }
      PlantChildrenRegion(next, target, names[1..], tree, dirFloor, fileFloor);
    }
  }

  lemma PlantKeepsLoose(fs: Fs, tree: Tree, id: nat)
    requires id < |fs.dirs| && Loose(fs, Dir(MemoryDir(id, true)))
    ensures Loose(Plant(fs, tree).0, Dir(MemoryDir(id, true)))
    ensures Plant(fs, tree).1 != Dir(MemoryDir(id, true))
  {
    var next := Plant(fs, tree).0;
    PlantRegion(fs, tree);
    forall i: nat, name | HasSlot(next, i, name, Dir(MemoryDir(id, true)))
      ensures HasSlot(fs, i, name, Dir(MemoryDir(id, true)))
    {
      if i < |fs.dirs| {
        assert next.dirs[i] == next.dirs[..|fs.dirs|][i];
      }
    }
  }

  ghost predicate TreeOk(tree: Tree) {
    match tree
    case FileTree(bytes) => |bytes| <= MAX_FILE_SIZE
    case LinkTree(_) => true
    case DirTree(children) => forall name :: name in children ==> EntryName(name) && TreeOk(children[name])
  }

  lemma {:induction false} PlantValid(fs: Fs, tree: Tree)
    requires Valid(fs) && TreeOk(tree)
    ensures var (next, node) := Plant(fs, tree);
            Valid(next) && EntryOk(next, node) && Loose(next, node)
    decreases tree
  {
    match tree
    case FileTree(bytes) => NewFileValid(fs, bytes);
    case LinkTree(_) =>
    case DirTree(children) =>
      NewDirectoryValid(fs);
      PlantChildrenValid(NewDirectory(fs).0, |fs.dirs|, Sorted(children.Keys), tree);
  }

  lemma {:induction false} PlantChildrenValid(fs: Fs, target: nat, names: seq<string>, tree: Tree)
    requires Valid(fs) && TreeOk(tree) && 2 <= target < |fs.dirs| && Loose(fs, Dir(MemoryDir(target, true)))
    requires tree.DirTree? && forall name :: name in names ==> name in tree.children
    requires forall name :: name in names ==> name !in fs.dirs[target]
    requires forall i, j :: 0 <= i < j < |names| ==> names[i] != names[j]
    ensures Valid(PlantChildren(fs, target, names, tree))
    ensures Loose(PlantChildren(fs, target, names, tree), Dir(MemoryDir(target, true)))
    decreases tree, |names|
  {
    if names != [] {
      var (grown, child) := Plant(fs, tree.children[names[0]]);
      PlantValid(fs, tree.children[names[0]]);
      PlantKeepsLoose(fs, tree.children[names[0]], target);
      InsertValid(grown, MemoryDir(target, true), names[0], child);
      var next := Insert(grown, MemoryDir(target, true), names[0], child).value;
      assert forall i, m :: HasSlot(next, i, m, Dir(MemoryDir(target, true))) ==>
          HasSlot(grown, i, m, Dir(MemoryDir(target, true))) || child == Dir(MemoryDir(target, true));
      PlantChildrenValid(next, target, names[1..], tree);
    }
  }

  // ---- What a reader sees ----

  datatype Shown = ShownDir | ShownFile(bytes: Bytes) | ShownLink(target: string) | ShownDevice(device: Device)

  function Content(fs: Fs, node: Node): Shown {
    match node
    case Dir(_) => ShownDir
    case Symlink(target) => ShownLink(target)
    case File(MemoryFile(id)) => ShownFile(FileBytes(fs, id))
    case File(BundleFile(relative)) =>
      var bytes := HostBytes(fs.host, relative);
      ShownFile(if bytes.Ok? then bytes.value else [])
    case File(DeviceFile(device)) => ShownDevice(device)
  }

  /** What is at `names` below `node`, if anything. */
  function ShownAt(fs: Fs, node: Node, names: Components): Option<Shown> {
    match Walk(fs, node, names)
    case Some(found) => Some(Content(fs, found))
    case None => None
  }

  function TreeAt(tree: Tree, names: Components): Option<Shown>
    decreases |names|
  {
    if names == [] then
      match tree
      case FileTree(bytes) => Some(ShownFile(bytes))
      case LinkTree(target) => Some(ShownLink(target))
      case DirTree(_) => Some(ShownDir)
    else if tree.DirTree? && names[0] in tree.children then TreeAt(tree.children[names[0]], names[1..])
    else None
  }

  /** Changes outside a region do not show inside it. */
  lemma {:induction false} RegionFrame(
    before: Fs, after: Fs, dirFloor: nat, fileFloor: nat, node: Node, names: Components)
    requires Region(before, dirFloor, fileFloor) && Within(before, dirFloor, fileFloor, node)
    requires |before.dirs| <= |after.dirs| && |before.files| <= |after.files|
    requires forall i :: dirFloor <= i < |before.dirs| ==> after.dirs[i] == before.dirs[i]
    requires forall i :: fileFloor <= i < |before.files| ==> after.files[i] == before.files[i]
    ensures Walk(after, node, names) == Walk(before, node, names)
    ensures ShownAt(after, node, names) == ShownAt(before, node, names)
    ensures Walk(after, node, names).Some? ==> Within(before, dirFloor, fileFloor, Walk(after, node, names).value)
    decreases |names|
  {
    if names != [] && node.Dir? {
      var id := node.directory.id;
      if names[0] in before.dirs[id] {
        var child := before.dirs[id][names[0]];
        assert HasSlot(before, id, names[0], child);
        RegionFrame(before, after, dirFloor, fileFloor, child, names[1..]);
      }
    }
  }

  /** What a memory directory shows below itself is what its entry shows. */
  lemma ShownStep(fs: Fs, id: nat, names: Components)
    requires id < |fs.dirs| && names != []
    ensures ShownAt(fs, Dir(MemoryDir(id, true)), names)
         == if names[0] in fs.dirs[id] then ShownAt(fs, fs.dirs[id][names[0]], names[1..]) else None
  {
    assert Step(fs, Dir(MemoryDir(id, true)), names[0])
        == if names[0] in fs.dirs[id] then Some(fs.dirs[id][names[0]]) else None;
  }

  lemma PlantDirectory(fs: Fs, tree: Tree)
    requires tree.DirTree?
    ensures var grown := NewDirectory(fs).0;
            && |grown.dirs| == |fs.dirs| + 1 && grown.dirs[|fs.dirs|] == map[]
            && Plant(fs, tree)
               == (PlantChildren(grown, |fs.dirs|, Sorted(tree.children.Keys), tree), Dir(MemoryDir(|fs.dirs|, true)))
  {
  }

  /** A planted tree shows exactly the tree. */
  lemma {:induction false} PlantShows(fs: Fs, tree: Tree, names: Components)
    ensures ShownAt(Plant(fs, tree).0, Plant(fs, tree).1, names) == TreeAt(tree, names)
    decreases tree, |names| + 1, 0
  {
    if tree.DirTree? && names != [] {
      var target := |fs.dirs|;
      var grown := NewDirectory(fs).0;
      var planted := Sorted(tree.children.Keys);
      PlantDirectory(fs, tree);
      PlantChildrenShow(grown, target, planted, tree, names);
      ShownStep(PlantChildren(grown, target, planted, tree), target, names);
    }
  }

  lemma {:induction false} PlantChildrenShow(fs: Fs, target: nat, planted: seq<string>, tree: Tree, names: Components)
    requires target < |fs.dirs| && tree.DirTree? && (forall name :: name in planted ==> name in tree.children)
    requires forall i, j :: 0 <= i < j < |planted| ==> planted[i] != planted[j]
    requires forall name :: name in planted ==> name !in fs.dirs[target]
    requires names != []
    ensures var next := PlantChildren(fs, target, planted, tree);
            && (forall name :: name in next.dirs[target] <==> name in fs.dirs[target] || name in planted)
            && (forall name :: name in fs.dirs[target] ==> next.dirs[target][name] == fs.dirs[target][name])
            && (names[0] in planted ==>
                  ShownAt(next, next.dirs[target][names[0]], names[1..]) == TreeAt(tree.children[names[0]], names[1..]))
    decreases tree, |names|, |planted|
  {
    if planted != [] {
      var (grown, child) := Plant(fs, tree.children[planted[0]]);
      assert grown.dirs[target] == grown.dirs[..|fs.dirs|][target];
      var next := WithEntries(grown, target, grown.dirs[target][planted[0] := child]);
      PlantChildrenShow(next, target, planted[1..], tree, names);
      if names[0] == planted[0] {
        var final := PlantChildren(next, target, planted[1..], tree);
        PlantShows(fs, tree.children[planted[0]], names[1..]);
        PlantRegion(fs, tree.children[planted[0]]);
        assert forall i :: |fs.files| <= i < |grown.files| ==> final.files[..|grown.files|][i] == grown.files[i];
        RegionFrame(grown, final, |fs.dirs|, |fs.files|, child, names[1..]);
      }
    }
  }

  // ---- The tree read is what the source shows ----

  /** What a reader sees at `names` below `node`, following links by their textual path if asked to. */
  function ShownThrough(fs: Fs, node: Node, path: string, dereference: bool, names: Components): Option<Shown>
    decreases |names|
  {
    var target := if node.Symlink? && dereference then ResolveNode(fs, path, true) else Ok(node);
    var seen := if target.Ok? then target.value else node;
    if names == [] then Some(Content(fs, seen))
    else
      match Step(fs, seen, names[0])
      case Some(child) => ShownThrough(fs, child, ChildPath(path, names[0]), dereference, names[1..])
      case None => None
  }

  lemma {:induction false} ShownThroughPlain(fs: Fs, node: Node, path: string, names: Components)
    ensures ShownThrough(fs, node, path, false, names) == ShownAt(fs, node, names)
    decreases |names|
  {
    if names != [] {
      match Step(fs, node, names[0])
      case Some(child) => ShownThroughPlain(fs, child, ChildPath(path, names[0]), names[1..]);
      case None =>
    }
  }

  lemma EntryNamesExact(fs: Fs, directory: Directory, name: string)
    requires EntryNames(fs, directory).Ok?
    ensures name in EntryNames(fs, directory).value <==> Step(fs, Dir(directory), name).Some?
    ensures forall i, j :: 0 <= i < j < |EntryNames(fs, directory).value| ==>
              EntryNames(fs, directory).value[i] != EntryNames(fs, directory).value[j]
  {
    match directory
    case MemoryDir(id, _) =>
    case StaticDir =>
    case BundleDir(relative) =>
      HostAtSnoc(fs.host, relative, name);
      var entries := HostAt(fs.host, relative).value.entries;
      assert name in entries.Keys ==> !entries[name].HostOther?;
  }

  lemma {:induction false} CopyChildrenAt(
    fs: Fs, directory: Directory, names: seq<string>, path: string, dereference: bool,
    at: Components, seen: set<nat>, links: nat, name: string)
    requires Placed(fs, Dir(directory), path, at, seen, links)
    requires CopyChildren(fs, directory, names, path, dereference, at, seen, links).Ok?
    ensures var children := CopyChildren(fs, directory, names, path, dereference, at, seen, links).value;
            && (name in children <==> name in names)
            && (name in names ==>
                  var child := Step(fs, Dir(directory), name);
                  child.Some?
                  && Placed(fs, child.value, ChildPath(path, name), at + [name], SeenBelow(Dir(directory), seen), links)
                  && CopyTree(fs, child.value, ChildPath(path, name), dereference,
                              at + [name], SeenBelow(Dir(directory), seen), links) == Ok(children[name]))
    decreases |names|
  {
    if names != [] {
      CopyChildrenAt(fs, directory, names[1..], path, dereference, at, seen, links, name);
      EntryPlaced(fs, directory, path, at, seen, links, names[0]);
    }
  }

  /** The children read carry exactly the listed names. */
  lemma {:induction false} ChildrenNames(
    fs: Fs, directory: Directory, names: seq<string>, path: string, dereference: bool,
    at: Components, seen: set<nat>, links: nat)
    requires Placed(fs, Dir(directory), path, at, seen, links)
    requires CopyChildren(fs, directory, names, path, dereference, at, seen, links).Ok?
    ensures CopyChildren(fs, directory, names, path, dereference, at, seen, links).value.Keys
         == set name | name in names
    decreases |names|
  {
    if names != [] {
      ChildrenNames(fs, directory, names[1..], path, dereference, at, seen, links);
      EntryPlaced(fs, directory, path, at, seen, links, names[0]);
    }
  }

  lemma CopyFileShows(fs: Fs, file: FileNode, path: string, dereference: bool, at: Components, seen: set<nat>,
                      links: nat, names: Components)
    requires Placed(fs, File(file), path, at, seen, links)
    requires CopyTree(fs, File(file), path, dereference, at, seen, links).Ok?
    ensures TreeAt(CopyTree(fs, File(file), path, dereference, at, seen, links).value, names)
            == ShownThrough(fs, File(file), path, dereference, names)
  {
    match file
    case MemoryFile(id) => assert FileBytes(fs, id)[0..|FileBytes(fs, id)|] == FileBytes(fs, id);
    case BundleFile(relative) =>
      var bytes := HostBytes(fs.host, relative).value;
      assert bytes[0..|bytes|] == bytes;
    case DeviceFile(_) =>
  }

  /** Below a directory, the tree read is the tree read of the entry of that name. */
  lemma CopyDirAt(fs: Fs, directory: Directory, path: string, dereference: bool, at: Components, seen: set<nat>,
                  links: nat, names: Components)
    requires Placed(fs, Dir(directory), path, at, seen, links) && names != []
    requires CopyTree(fs, Dir(directory), path, dereference, at, seen, links).Ok?
    ensures var step := Step(fs, Dir(directory), names[0]);
            var tree := CopyTree(fs, Dir(directory), path, dereference, at, seen, links);
            if step.None? then TreeAt(tree.value, names) == None
            else
              && Placed(fs, step.value, ChildPath(path, names[0]),
                        at + [names[0]], SeenBelow(Dir(directory), seen), links)
              && var child := CopyTree(fs, step.value, ChildPath(path, names[0]), dereference,
                                       at + [names[0]], SeenBelow(Dir(directory), seen), links);
              child.Ok? && TreeAt(tree.value, names) == TreeAt(child.value, names[1..])
  {
    var listed := EntryNames(fs, directory).value;
    EntryNamesExact(fs, directory, names[0]);
    CopyChildrenAt(fs, directory, listed, path, dereference, at, seen, links, names[0]);
  }

  /** A followed link is read, and shown, as the node it resolves to. */
  lemma CopyLinkAt(fs: Fs, node: Node, path: string, at: Components, seen: set<nat>, links: nat, names: Components)
    requires Placed(fs, node, path, at, seen, links) && node.Symlink?
    requires CopyTree(fs, node, path, true, at, seen, links).Ok?
    ensures ResolvePath(fs, path, true).Ok? && AbsoluteComponents(path).Ok?
    ensures var (found, place), used := ResolvePath(fs, path, true).value, |AbsoluteComponents(path).value| + 1;
            && !found.Symlink? && Placed(fs, found, path, place, {}, used)
            && CopyTree(fs, node, path, true, at, seen, links) == CopyTree(fs, found, path, true, place, {}, used)
            && ShownThrough(fs, node, path, true, names) == ShownThrough(fs, found, path, true, names)
  {
    ResolvedIsWalk(fs, AbsoluteComponents(path).value, ROOT, [], true, 0);
  }

  /** The tree read shows what the source shows, at every relative path. */
  lemma {:induction false} CopyTreeShows(
    fs: Fs, node: Node, path: string, dereference: bool, at: Components, seen: set<nat>, links: nat, names: Components)
    requires Placed(fs, node, path, at, seen, links)
    requires CopyTree(fs, node, path, dereference, at, seen, links).Ok?
    ensures TreeAt(CopyTree(fs, node, path, dereference, at, seen, links).value, names)
            == ShownThrough(fs, node, path, dereference, names)
    decreases |names|, if node.Symlink? then 1 else 0
  {
    match node
    case File(file) => CopyFileShows(fs, file, path, dereference, at, seen, links, names);
    case Symlink(target) =>
      if dereference {
        var found := ResolvePath(fs, path, true).value;
        CopyLinkAt(fs, node, path, at, seen, links, names);
        CopyTreeShows(fs, found.0, path, dereference, found.1, {}, |AbsoluteComponents(path).value| + 1, names);
      }
    case Dir(directory) =>
      if names != [] {
        CopyDirAt(fs, directory, path, dereference, at, seen, links, names);
        if Step(fs, Dir(directory), names[0]).Some? {
          var child := Step(fs, Dir(directory), names[0]).value;
          CopyTreeShows(fs, child, ChildPath(path, names[0]), dereference,
                        at + [names[0]], SeenBelow(Dir(directory), seen), links, names[1..]);
        }
      }
  }

  lemma {:induction false} CopyTreeOk(
    fs: Fs, node: Node, path: string, dereference: bool, at: Components, seen: set<nat>, links: nat)
    requires Placed(fs, node, path, at, seen, links)
    requires CopyTree(fs, node, path, dereference, at, seen, links).Ok?
    ensures TreeOk(CopyTree(fs, node, path, dereference, at, seen, links).value)
    decreases MAX_PATH_SEGMENTS + 1 - links, Unseen(fs, seen), HostPart(fs, node), if node.Dir? then 1 else 0
  {
    match node
    case File(file) =>
    case Symlink(target) =>
      if dereference {
        var found := ResolvePath(fs, path, true).value;
        ResolvedIsWalk(fs, AbsoluteComponents(path).value, ROOT, [], true, 0);
        CopyTreeOk(fs, found.0, path, dereference, found.1, {}, |AbsoluteComponents(path).value| + 1);
      }
    case Dir(directory) =>
      var listed := EntryNames(fs, directory).value;
      var children := CopyChildren(fs, directory, listed, path, dereference, at, seen, links).value;
      WalkOk(fs, ROOT, at);
      forall name | name in children
        ensures EntryName(name) && TreeOk(children[name])
      {
        CopyChildrenAt(fs, directory, listed, path, dereference, at, seen, links, name);
        StepName(fs, node, name);
        EntryDescends(fs, directory, at, seen, name);
        CopyTreeOk(fs, Step(fs, node, name).value, ChildPath(path, name), dereference,
                   at + [name], SeenBelow(node, seen), links);
      }
  }
}
