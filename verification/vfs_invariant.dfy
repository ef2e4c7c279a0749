/** The invariant every operation keeps, and the tree shape it gives. */
module VfsInvariant {
  import opened Wrappers
  import opened VfsPath
  import opened VfsNodes
  import opened VfsResolve

  ghost predicate HasSlot(fs: Fs, id: nat, name: string, node: Node) {
    id < |fs.dirs| && name in fs.dirs[id] && fs.dirs[id][name] == node
  }

  /** What an entry of a writable memory directory may be. */
  ghost predicate EntryOk(fs: Fs, node: Node) {
    match node
    case Dir(MemoryDir(id, writable)) => 2 <= id < |fs.dirs| && writable
    case Dir(_) => false
    case File(MemoryFile(id)) => id < |fs.files|
    case File(BundleFile(relative)) => HostBytes(fs.host, relative).Ok?
    case File(DeviceFile(_)) => false
    case Symlink(_) => true
  }

  /** Each memory directory is held by at most one (parent, name) slot. */
  ghost predicate UniqueSlots(fs: Fs) {
    forall i, m, j, n, id ::
      HasSlot(fs, i, m, Dir(MemoryDir(id, true))) && HasSlot(fs, j, n, Dir(MemoryDir(id, true))) ==> i == j && m == n
  }

  ghost predicate EntriesOk(fs: Fs) {
    forall i, name, node :: HasSlot(fs, i, name, node) && i > 0 ==> EntryName(name) && EntryOk(fs, node)
  }

  ghost predicate FilesOk(fs: Fs) {
    forall i :: 0 <= i < |fs.files| ==> |fs.files[i]| <= MAX_FILE_SIZE
  }

  /** Host file names are file names. */
  ghost predicate HostNamesOk(host: HostNode) {
    host.HostDir? ==> forall name :: name in host.entries ==> EntryName(name) && HostNamesOk(host.entries[name])
  }

  ghost predicate Valid(fs: Fs) {
    && HostNamesOk(fs.host)
    && |fs.dirs| >= 2
    && fs.dirs[0] == ROOT_ENTRIES
    && EntriesOk(fs)
    && UniqueSlots(fs)
    && FilesOk(fs)
  }

  lemma NewFsValid(host: HostNode)
    requires HostNamesOk(host)
    ensures Valid(NewFs(host))
  {
  }

  // ---- Reachability ----

  /** A handle that a walk from the root can return. */
  ghost predicate NodeOk(fs: Fs, node: Node) {
    match node
    case Dir(MemoryDir(id, writable)) => id < |fs.dirs| && writable == (id != 0)
    case Dir(_) => true
    case File(MemoryFile(id)) => id < |fs.files|
    case File(_) => true
    case Symlink(_) => true
  }

  lemma StepOk(fs: Fs, node: Node, name: string)
    requires Valid(fs) && NodeOk(fs, node) && Step(fs, node, name).Some?
    ensures NodeOk(fs, Step(fs, node, name).value)
  {
    if node.directory.MemoryDir? {
      assert HasSlot(fs, node.directory.id, name, Step(fs, node, name).value);
    }
  }

  lemma {:induction false} WalkOk(fs: Fs, node: Node, names: Components)
    requires Valid(fs) && NodeOk(fs, node) && Walk(fs, node, names).Some?
    ensures NodeOk(fs, Walk(fs, node, names).value)
    decreases |names|
  {
    if names != [] {
      StepOk(fs, node, names[0]);
      WalkOk(fs, Step(fs, node, names[0]).value, names[1..]);
    }
  }

  lemma LastStep(fs: Fs, names: Components)
    requires names != [] && Walk(fs, ROOT, names).Some?
    ensures var k := |names| - 1;
            Walk(fs, ROOT, names[..k]).Some?
            && Step(fs, Walk(fs, ROOT, names[..k]).value, names[k]) == Walk(fs, ROOT, names)
  {
    var k := |names| - 1;
    assert names == names[..k] + [names[k]];
    WalkSnoc(fs, ROOT, names[..k], names[k]);
  }

  /** A memory directory reached by a step sits in a slot of the memory directory stepped from. */
  lemma MemorySlot(fs: Fs, node: Node, name: string, id: nat, writable: bool)
    requires Valid(fs) && NodeOk(fs, node)
    requires Step(fs, node, name) == Some(Dir(MemoryDir(id, writable)))
    ensures node.Dir? && node.directory.MemoryDir?
    ensures HasSlot(fs, node.directory.id, name, Dir(MemoryDir(id, true))) && id > 0
  {
    if node.directory.MemoryDir? {
      assert HasSlot(fs, node.directory.id, name, Step(fs, node, name).value);
    }
  }

  /**
   * What is reachable from the root is a tree: two plain walks from the root that end in the
   * same memory directory are the same walk.
   */
  lemma {:induction false} TreeFromRoot(fs: Fs, p: Components, q: Components, directory: Directory)
    requires Valid(fs) && directory.MemoryDir?
    requires Walk(fs, ROOT, p) == Some(Dir(directory)) && Walk(fs, ROOT, q) == Some(Dir(directory))
    ensures p == q
    decreases |p|
  {
    if p == [] || q == [] {
      if p != [] {
        RootHasNoSlot(fs, p);
      }
      if q != [] {
        RootHasNoSlot(fs, q);
      }
    } else {
      var i, j := |p| - 1, |q| - 1;
      LastStep(fs, p);
      LastStep(fs, q);
      WalkOk(fs, ROOT, p[..i]);
      WalkOk(fs, ROOT, q[..j]);
      var a, b := Walk(fs, ROOT, p[..i]).value, Walk(fs, ROOT, q[..j]).value;
      MemorySlot(fs, a, p[i], directory.id, directory.writable);
      MemorySlot(fs, b, q[j], directory.id, directory.writable);
      TreeFromRoot(fs, p[..i], q[..j], a.directory);
      assert p == p[..i] + [p[i]] && q == q[..j] + [q[j]];
    }
  }

  /** No walk of one step or more comes back to the root. */
  lemma RootHasNoSlot(fs: Fs, p: Components)
    requires Valid(fs) && p != []
    ensures Walk(fs, ROOT, p) != Some(ROOT)
  {
    if Walk(fs, ROOT, p) == Some(ROOT) {
      LastStep(fs, p);
      WalkOk(fs, ROOT, p[..|p| - 1]);
      MemorySlot(fs, Walk(fs, ROOT, p[..|p| - 1]).value, p[|p| - 1], 0, false);
    }
  }

  /** Consequence: no directory reachable from the root contains itself, at any depth. */
  lemma NoCycleFromRoot(fs: Fs, p: Components, below: Components, directory: Directory)
    requires Valid(fs) && directory.MemoryDir? && below != []
    requires Walk(fs, ROOT, p) == Some(Dir(directory))
    ensures Walk(fs, Dir(directory), below) != Some(Dir(directory))
  {
    if Walk(fs, Dir(directory), below) == Some(Dir(directory)) {
      WalkConcat(fs, ROOT, p, below);
      TreeFromRoot(fs, p, p + below, directory);
    }
  }

  lemma {:induction false} HostNamesBelow(host: HostNode, relative: Components)
    requires HostNamesOk(host) && HostAt(host, relative).Some?
    ensures HostNamesOk(HostAt(host, relative).value)
    decreases |relative|
  {
    if relative != [] {
      HostNamesBelow(host.entries[relative[0]], relative[1..]);
    }
  }

  lemma {:induction false} HostAtSnoc(host: HostNode, relative: Components, name: string)
    ensures HostAt(host, relative + [name]) ==
            match HostAt(host, relative) {
              case Some(HostDir(entries)) => if name in entries then Some(entries[name]) else None
              case _ => None
            }
    decreases |relative|
  {
    if relative == [] {
      assert [name][1..] == [];
      assert relative + [name] == [name];
    } else {
      assert (relative + [name])[1..] == relative[1..] + [name];
      if host.HostDir? && relative[0] in host.entries {
        HostAtSnoc(host.entries[relative[0]], relative[1..], name);
      }
    }
  }

  lemma StepName(fs: Fs, node: Node, name: string)
    requires Valid(fs) && NodeOk(fs, node) && Step(fs, node, name).Some?
    ensures EntryName(name)
  {
    match node.directory
    case MemoryDir(id, _) => assert HasSlot(fs, id, name, Step(fs, node, name).value);
    case StaticDir =>
    case BundleDir(relative) =>
      HostAtSnoc(fs.host, relative, name);
      HostNamesBelow(fs.host, relative);
  }

  // ---- Primitive changes keep the invariant ----

  /** A directory handle that no slot holds yet. */
  ghost predicate Loose(fs: Fs, node: Node) {
    node.Dir? ==> forall i, name :: !HasSlot(fs, i, name, node)
  }

  lemma NewDirectoryValid(fs: Fs)
    requires Valid(fs)
    ensures var (next, node) := NewDirectory(fs);
            Valid(next) && EntryOk(next, node) && Loose(next, node)
  {
    var (next, node) := NewDirectory(fs);
    forall i, name, entry | HasSlot(next, i, name, entry)
      ensures HasSlot(fs, i, name, entry)
    {
    }
    assert forall i, name :: HasSlot(next, i, name, node) ==> HasSlot(fs, i, name, node);
  }

  lemma NewFileValid(fs: Fs, bytes: Bytes)
    requires Valid(fs) && |bytes| <= MAX_FILE_SIZE
    ensures var (next, node) := NewFile(fs, bytes);
            Valid(next) && EntryOk(next, node)
  {
    var (next, node) := NewFile(fs, bytes);
    forall i, name, entry | HasSlot(next, i, name, entry)
      ensures HasSlot(fs, i, name, entry)
    {
    }
  }

  lemma InsertValid(fs: Fs, directory: Directory, name: string, node: Node)
    requires Valid(fs) && EntryOk(fs, node) && Loose(fs, node) && EntryName(name)
    requires NodeOk(fs, Dir(directory)) && Insert(fs, directory, name, node).Ok?
    ensures Valid(Insert(fs, directory, name, node).value)
  {
    var next := Insert(fs, directory, name, node).value;
    var id := directory.id;
    forall i, m, entry | HasSlot(next, i, m, entry)
      ensures HasSlot(fs, i, m, entry) || (i == id && m == name && entry == node)
    {
    }
  }

  lemma RemoveValid(fs: Fs, directory: Directory, name: string)
    requires Valid(fs) && NodeOk(fs, Dir(directory)) && Remove(fs, directory, name).Ok?
    ensures Valid(Remove(fs, directory, name).value)
  {
    var next := Remove(fs, directory, name).value;
    forall i, m, entry | HasSlot(next, i, m, entry)
      ensures HasSlot(fs, i, m, entry)
    {
    }
  }

  lemma WithFileValid(fs: Fs, id: nat, bytes: Bytes)
    requires Valid(fs) && |bytes| <= MAX_FILE_SIZE
    ensures Valid(WithFile(fs, id, bytes))
  {
    var next := WithFile(fs, id, bytes);
    forall i, m, entry | HasSlot(next, i, m, entry)
      ensures HasSlot(fs, i, m, entry)
    {
    }
  }
}
