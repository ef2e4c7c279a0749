/** When each operation on names succeeds, and with which error it fails. */
module VfsOutcomes {
  import opened Wrappers
  import opened VfsPath
  import opened VfsNodes
  import opened VfsResolve
  import opened VfsInvariant
  import opened VfsCopy
  import opened VfsOperations
  import opened VfsNamespace
  import opened VfsEffects
  import opened VfsCopyEffects

  /** The path leads to a slot of a writable directory. */
  predicate WritableSlot(fs: Fs, path: string) {
    Parent(fs, path).Ok? && Parent(fs, path).value.0.MemoryDir? && Parent(fs, path).value.0.writable
  }

  /** What the slot at the end of the path holds. */
  function Held(fs: Fs, path: string): Option<Node>
    requires WritableSlot(fs, path)
  {
    Slot(fs, Parent(fs, path).value.0.id, Parent(fs, path).value.1)
  }

  /** A directory with something in it. */
  ghost predicate Occupied(fs: Fs, node: Node) {
    node.Dir? && exists name :: Step(fs, node, name).Some?
  }

  lemma OccupiedIs(fs: Fs, node: Node)
    requires node.Dir? && node.directory.MemoryDir?
    ensures IsEmptyDir(fs, node.directory) == Ok(!Occupied(fs, node))
  {
    var entries := EntriesOf(fs, node.directory.id);
    if EntryNames(fs, node.directory).value != [] {
      var name := EntryNames(fs, node.directory).value[0];
      assert name in entries.Keys;
      assert Step(fs, node, name).Some?;
    }
    forall name
      ensures Step(fs, node, name).Some? ==> name in EntryNames(fs, node.directory).value
    {
    }
  }

  lemma HeldDirectory(fs: Fs, path: string)
    requires Valid(fs) && WritableSlot(fs, path) && Held(fs, path).Some? && Held(fs, path).value.Dir?
    ensures Held(fs, path).value.directory.MemoryDir? && Held(fs, path).value.directory.writable
  {
    ParentOk(fs, path);
    var (parent, name) := Parent(fs, path).value;
    assert HasSlot(fs, parent.id, name, Held(fs, path).value);
  }

  // ---- Removing ----

  /**
   * Removing what a slot of a writable directory holds: refused only if that is a directory with
   * entries and the removal is not recursive. An empty slot is an error unless the removal is forced.
   */
  lemma RemoveOutcome(fs: Fs, path: string, recursive: bool, force: bool)
    requires Valid(fs) && WritableSlot(fs, path)
    ensures Held(fs, path).None? ==>
              RemovePath(fs, path, recursive, force) == if force then Ok(fs) else Err(NotFound)
    ensures Held(fs, path).Some? && Occupied(fs, Held(fs, path).value) && !recursive ==>
              RemovePath(fs, path, recursive, force) == Err(NotEmpty)
    ensures Held(fs, path).Some? && (recursive || !Occupied(fs, Held(fs, path).value)) ==>
              RemovePath(fs, path, recursive, force).Ok?
  {
    if Held(fs, path).Some? && Held(fs, path).value.Dir? {
      HeldDirectory(fs, path);
      OccupiedIs(fs, Held(fs, path).value);
    }
  }

  /** Nothing outside a writable directory is ever removed. */
  lemma RemoveRefused(fs: Fs, path: string, recursive: bool, force: bool)
    requires Valid(fs) && !WritableSlot(fs, path)
    ensures RemovePath(fs, path, recursive, force).Ok? ==>
              force && RemovePath(fs, path, recursive, force) == Ok(fs) && ResolveNode(fs, path, false).Err?
  {
    ResolveThroughParent(fs, path);
  }

  /** What stands in a directory that is not writable is refused as read-only. */
  lemma RemoveReadOnly(fs: Fs, path: string, force: bool)
    requires Parent(fs, path).Ok? && !WritableSlot(fs, path)
    requires Step(fs, Dir(Parent(fs, path).value.0), Parent(fs, path).value.1).Some?
    ensures RemovePath(fs, path, true, force) == Err(ReadOnly)
  {
  }

  /** `remove_directory` takes only what leads to a directory, `remove_file` only what is not one itself. */
  lemma RemoveKinds(fs: Fs, path: string, recursive: bool)
    ensures var followed, itself := ResolveNode(fs, path, true), ResolveNode(fs, path, false);
            && (followed.Ok? && !followed.value.Dir? ==> RemoveDirectory(fs, path, recursive) == Err(NotDirectory))
            && (followed.Ok? && followed.value.Dir? ==>
                  RemoveDirectory(fs, path, recursive) == RemovePath(fs, path, recursive, false))
            && (itself.Ok? && itself.value.Dir? ==> RemoveFile(fs, path) == Err(IsDirectory))
            && (itself.Ok? && !itself.value.Dir? ==> RemoveFile(fs, path) == RemovePath(fs, path, false, false))
            && (followed.Err? ==> RemoveDirectory(fs, path, recursive) == Err(followed.error))
            && (itself.Err? ==> RemoveFile(fs, path) == Err(itself.error))
  {
  }

  // ---- Renaming ----

  /**
   * A rename between different paths, neither above the other as written, from an occupied slot of a
   * writable directory to another slot of one: refused only if the target is a directory with entries.
   */
  lemma RenameOutcome(fs: Fs, from: string, to: string)
    requires Valid(fs) && WritableSlot(fs, from) && WritableSlot(fs, to) && Held(fs, from).Some?
    requires !(AbsoluteComponents(from).value <= AbsoluteComponents(to).value)
    ensures Held(fs, to).Some? && Occupied(fs, Held(fs, to).value) ==> Rename(fs, from, to) == Err(NotEmpty)
    ensures !(Held(fs, to).Some? && Occupied(fs, Held(fs, to).value)) ==> Rename(fs, from, to).Ok?
  {
    ParentOk(fs, to);
    ParentOk(fs, from);
    if Held(fs, to).Some? && Held(fs, to).value.Dir? {
      HeldDirectory(fs, to);
      OccupiedIs(fs, Held(fs, to).value);
    }
  }

  /** The refusals of a rename, in the order in which they are found. */
  lemma RenameRefused(fs: Fs, from: string, to: string)
    requires Valid(fs) && AbsoluteComponents(from).Ok? && AbsoluteComponents(to).Ok?
    ensures AbsoluteComponents(from) == AbsoluteComponents(to) ==> Rename(fs, from, to) == Ok(fs)
    ensures AbsoluteComponents(from).value < AbsoluteComponents(to).value ==> Rename(fs, from, to) == Err(InvalidInput)
    ensures !(AbsoluteComponents(from).value <= AbsoluteComponents(to).value)
            && Parent(fs, from).Ok? && Lookup(fs, Parent(fs, from).value.0, Parent(fs, from).value.1) == Ok(None)
            ==> Rename(fs, from, to) == Err(NotFound)
    ensures !(AbsoluteComponents(from).value <= AbsoluteComponents(to).value)
            && Parent(fs, from).Ok? && Step(fs, Dir(Parent(fs, from).value.0), Parent(fs, from).value.1).Some?
            && Parent(fs, to).Ok? && !(WritableSlot(fs, from) && WritableSlot(fs, to))
            ==> Rename(fs, from, to) == Err(ReadOnly)
    ensures Rename(fs, from, to).Ok? && AbsoluteComponents(from) != AbsoluteComponents(to) ==>
              WritableSlot(fs, from) && WritableSlot(fs, to) && Held(fs, from).Some?
  {
  }

  // ---- Making entries ----

  /** A new entry needs a free slot in a writable directory. */
  lemma InsertOutcome(fs: Fs, path: string, node: Node)
    requires Valid(fs)
    ensures InsertNew(fs, path, node).Ok? <==> WritableSlot(fs, path) && Held(fs, path).None?
    ensures WritableSlot(fs, path) && Held(fs, path).Some? ==> InsertNew(fs, path, node) == Err(AlreadyExists)
    ensures Parent(fs, path).Ok? && !WritableSlot(fs, path)
            && Lookup(fs, Parent(fs, path).value.0, Parent(fs, path).value.1) == Ok(None)
            ==> InsertNew(fs, path, node) == Err(ReadOnly)
  {
    if Parent(fs, path).Ok? {
      ParentOk(fs, path);
    }
  }

  /** Links are made to memory and bundle files, under a free name. */
  lemma LinkOutcome(fs: Fs, existing: string, path: string)
    requires Valid(fs)
    ensures Link(fs, existing, path).Ok? <==>
            ResolveNode(fs, existing, true).Ok? && ResolveNode(fs, existing, true).value.File?
            && !ResolveNode(fs, existing, true).value.file.DeviceFile?
            && WritableSlot(fs, path) && Held(fs, path).None?
    ensures ResolveNode(fs, existing, true).Ok?
            && (ResolveNode(fs, existing, true).value.File? ==> ResolveNode(fs, existing, true).value.file.DeviceFile?)
            ==> Link(fs, existing, path) == Err(Unsupported)
  {
    if ResolveNode(fs, existing, true).Ok? {
      InsertOutcome(fs, path, ResolveNode(fs, existing, true).value);
    }
  }

  lemma SymlinkOutcome(fs: Fs, target: string, path: string)
    requires Valid(fs)
    ensures MakeSymlink(fs, target, path).Ok? <==>
            '\0' !in target && WritableSlot(fs, path) && Held(fs, path).None?
    ensures '\0' in target ==> MakeSymlink(fs, target, path) == Err(InvalidInput)
  {
    InsertOutcome(fs, path, Symlink(target));
  }

  /** `readlink` reads links and nothing else. */
  lemma ReadLinkOutcome(fs: Fs, path: string)
    requires ResolveNode(fs, path, false).Ok?
    ensures ReadLink(fs, path).Ok? <==> ResolveNode(fs, path, false).value.Symlink?
    ensures ReadLink(fs, path).Ok? ==> ResolveNode(fs, path, false) == Ok(Symlink(ReadLink(fs, path).value))
    ensures ReadLink(fs, path).Err? ==> ReadLink(fs, path) == Err(InvalidInput)
  {
  }

  // ---- mkdir ----

  /** Without `recursive`, the path must lead nowhere yet and its slot be free in a writable directory. */
  lemma MkdirOutcome(fs: Fs, path: string)
    requires Valid(fs) && AbsoluteComponents(path).Ok?
    ensures Mkdir(fs, path, false).Ok? <==>
            ResolveNode(fs, path, true) == Err(NotFound) && WritableSlot(fs, path) && Held(fs, path).None?
    ensures ResolveNode(fs, path, true).Ok? ==> Mkdir(fs, path, false) == Err(AlreadyExists)
    ensures ResolveNode(fs, path, true).Ok? ==>
              Mkdir(fs, path, true) == if ResolveNode(fs, path, true).value.Dir? then Ok(fs) else Err(AlreadyExists)
    ensures ResolveNode(fs, path, true).Err? && ResolveNode(fs, path, true) != Err(NotFound) ==>
              forall recursive :: Mkdir(fs, path, recursive) == Err(ResolveNode(fs, path, true).error)
  {
    if Parent(fs, path).Ok? {
      ParentOk(fs, path);
    }
  }

  /**
   * `mkdir -p` from a directory: the names exist as directories up to some depth, and where they end,
   * if they do, a writable directory is there to take the rest.
   */
  ghost predicate CanMake(fs: Fs, directory: Directory, names: Components, depth: nat) {
    && depth <= |names| && Walk(fs, Dir(directory), names[..depth]).Some?
    && Walk(fs, Dir(directory), names[..depth]).value.Dir?
    && (depth < |names| ==>
          var last := Walk(fs, Dir(directory), names[..depth]).value.directory;
          last.MemoryDir? && last.writable && Step(fs, Dir(last), names[depth]) == None)
  }

  lemma {:induction false} MkdirFromOutcome(fs: Fs, directory: Directory, names: Components)
    requires Valid(fs) && NodeOk(fs, Dir(directory))
    ensures MkdirFrom(fs, directory, names).Ok? <==> exists depth :: CanMake(fs, directory, names, depth)
    decreases |names|
  {
    if names == [] {
      assert CanMake(fs, directory, names, 0);
    } else if Step(fs, Dir(directory), names[0]).Some? {
      var child := Step(fs, Dir(directory), names[0]).value;
      StepOk(fs, Dir(directory), names[0]);
      if child.Dir? {
        MkdirFromOutcome(fs, child.directory, names[1..]);
        forall depth: nat | depth < |names|
          ensures CanMake(fs, directory, names, depth + 1) <==> CanMake(fs, child.directory, names[1..], depth)
        {
          CanMakeStep(fs, directory, names, child.directory, depth);
        }
        assert !CanMake(fs, directory, names, 0);
        if depth: nat :| CanMake(fs, directory, names, depth) {
          assert depth > 0;
          assert CanMake(fs, child.directory, names[1..], depth - 1);
        }
      } else {
        NoWayThrough(fs, directory, names);
      }
    } else {
      MkdirFromMissing(fs, directory, names);
    }
  }

  lemma CanMakeStep(fs: Fs, directory: Directory, names: Components, child: Directory, depth: nat)
    requires names != [] && depth < |names| && Step(fs, Dir(directory), names[0]) == Some(Dir(child))
    ensures CanMake(fs, directory, names, depth + 1) <==> CanMake(fs, child, names[1..], depth)
  {
    assert names[..depth + 1][0] == names[0] && names[..depth + 1][1..] == names[1..][..depth];
    assert depth + 1 < |names| ==> names[1..][depth] == names[depth + 1];
  }

  lemma NoWayThrough(fs: Fs, directory: Directory, names: Components)
    requires names != [] && Step(fs, Dir(directory), names[0]).Some?
    requires !Step(fs, Dir(directory), names[0]).value.Dir?
    ensures forall depth :: !CanMake(fs, directory, names, depth)
  {
    forall depth: nat
      ensures !CanMake(fs, directory, names, depth)
    {
      if 0 < depth <= |names| {
        var first := names[..depth];
        assert first[0] == names[0];
        assert Walk(fs, Dir(directory), first) == Walk(fs, Step(fs, Dir(directory), names[0]).value, first[1..]);
      }
    }
  }

  lemma MkdirFromMissing(fs: Fs, directory: Directory, names: Components)
    requires Valid(fs) && NodeOk(fs, Dir(directory)) && names != [] && Step(fs, Dir(directory), names[0]).None?
    ensures MkdirFrom(fs, directory, names).Ok? <==> exists depth :: CanMake(fs, directory, names, depth)
  {
    forall depth: nat
      ensures CanMake(fs, directory, names, depth) ==> depth == 0
    {
      if 0 < depth <= |names| {
        assert names[..depth][0] == names[0];
      }
    }
    if directory.MemoryDir? && directory.writable {
      assert names[..0] == [];
      assert CanMake(fs, directory, names, 0);
      MkdirFromFresh(fs, directory.id, names);
    }
  }

  /** In a writable directory without the first name the whole chain is made. */
  lemma {:induction false} MkdirFromFresh(fs: Fs, id: nat, names: Components)
    requires id < |fs.dirs| && names != [] && names[0] !in fs.dirs[id]
    ensures MkdirFrom(fs, MemoryDir(id, true), names).Ok?
    decreases |names|
  {
    var child := |fs.dirs|;
    var placed := Insert(NewDirectory(fs).0, MemoryDir(id, true), names[0], Dir(MemoryDir(child, true))).value;
    assert placed.dirs[child] == map[];
    if |names| > 1 {
      MkdirFromFresh(placed, child, names[1..]);
    } else {
      assert names[1..] == [];
    }
  }

  /** `mkdir -p` where nothing is yet. */
  lemma MkdirRecursiveOutcome(fs: Fs, path: string)
    requires Valid(fs) && ResolveNode(fs, path, true) == Err(NotFound)
    ensures Mkdir(fs, path, true).Ok? <==>
            AbsoluteComponents(path).Ok?
            && exists depth :: CanMake(fs, ROOT.directory, AbsoluteComponents(path).value, depth)
  {
    if AbsoluteComponents(path).Ok? {
      MkdirFromOutcome(fs, ROOT.directory, AbsoluteComponents(path).value);
    }
  }

  /** A file in the way of `mkdir -p` is refused as such. */
  lemma {:induction false} MkdirThroughFile(fs: Fs, directory: Directory, names: Components, depth: nat)
    requires depth < |names| && Walk(fs, Dir(directory), names[..depth]).Some?
    requires Walk(fs, Dir(directory), names[..depth]).value.Dir?
    requires var step := Step(fs, Walk(fs, Dir(directory), names[..depth]).value, names[depth]);
             step.Some? && !step.value.Dir?
    ensures MkdirFrom(fs, directory, names) == Err(NotDirectory)
    decreases depth
  {
    if depth > 0 {
      var first := names[..depth];
      assert first[0] == names[0] && first[1..] == names[1..][..depth - 1] && names[1..][depth - 1] == names[depth];
      var child := Step(fs, Dir(directory), names[0]).value;
      MkdirThroughFile(fs, child.directory, names[1..], depth - 1);
    } else {
      assert names[..0] == [];
    }
  }

  // ---- Temporary directories ----

  const SUFFIX_ALPHABET := "0123456789abcdefghijklmnopqrstuvwxyz"

  lemma SuffixSpelled(bytes: Bytes, i: nat)
    requires i < |bytes|
    ensures |RandomSuffix(bytes)| == |bytes|
    ensures RandomSuffix(bytes)[i] == SUFFIX_ALPHABET[bytes[i] as nat % 36]
  {
    AlphabetSpelled(bytes[i] as nat % 36);
  }

  lemma AlphabetSpelled(i: nat)
    requires i < 36
    ensures SuffixChar(i) == SUFFIX_ALPHABET[i]
  {
  }

  /** The first drawn name that is free is made an empty directory, and the path returned leads to it. */
  lemma {:induction false} MakeTempOutcome(fs: Fs, prefix: string, attempts: seq<Bytes>)
    requires Valid(fs) && WritableSlot(fs, prefix)
    ensures var (parent, name) := Parent(fs, prefix).value;
            var made := MakeTempDir(fs, prefix, attempts);
            && (made.Ok? <==> exists k :: 0 <= k < |attempts| && Free(fs, parent, name, attempts[k]))
            && (made.Err? ==> made == Err(AlreadyExists))
  {
    var (parent, name) := Parent(fs, prefix).value;
    ParentOk(fs, prefix);
    TempFromOutcome(fs, prefix, parent, name, attempts);
  }

  predicate Free(fs: Fs, parent: Directory, name: string, bytes: Bytes) {
    parent.MemoryDir? && Slot(fs, parent.id, name + RandomSuffix(bytes)).None?
  }

  lemma {:induction false} TempFromOutcome(
    fs: Fs, prefix: string, parent: Directory, name: string, attempts: seq<Bytes>)
    requires Valid(fs) && WritableSlot(fs, prefix) && Parent(fs, prefix) == Ok((parent, name))
    ensures var made := MakeTempFrom(fs, prefix, parent, name, attempts);
            && (made.Ok? <==> exists k :: 0 <= k < |attempts| && Free(fs, parent, name, attempts[k]))
            && (made.Err? ==> made == Err(AlreadyExists))
    decreases |attempts|
  {
    if attempts != [] {
      TempFromOutcome(fs, prefix, parent, name, attempts[1..]);
      if Free(fs, parent, name, attempts[0]) {
        assert 0 <= 0 < |attempts| && Free(fs, parent, name, attempts[0]);
      } else if k :| 0 <= k < |attempts| && Free(fs, parent, name, attempts[k]) {
        assert attempts[1..][k - 1] == attempts[k];
      } else {
        assert forall k :: 0 <= k < |attempts| - 1 ==> attempts[1..][k] == attempts[k + 1];
      }
    }
  }

  /** Which name it was, and what stands there. */
  lemma {:induction false} MakeTempMade(fs: Fs, prefix: string, attempts: seq<Bytes>) returns (k: nat)
    requires Valid(fs) && MakeTempDir(fs, prefix, attempts).Ok?
    ensures WritableSlot(fs, prefix) && k < |attempts|
    ensures var (parent, name) := Parent(fs, prefix).value;
            var (next, path) := MakeTempDir(fs, prefix, attempts).value;
            var components := AbsoluteComponents(prefix).value;
            && Free(fs, parent, name, attempts[k])
            && (forall j :: 0 <= j < k ==> !Free(fs, parent, name, attempts[j]))
            && path == PathFromComponents(components[..|components| - 1] + [name + RandomSuffix(attempts[k])])
            && OnlySlots(fs, next, {(parent.id, name + RandomSuffix(attempts[k]))})
            && Slot(next, parent.id, name + RandomSuffix(attempts[k])) == Some(Dir(MemoryDir(|fs.dirs|, true)))
            && |next.dirs| == |fs.dirs| + 1 && next.dirs[|fs.dirs|] == map[]
            && (AbsoluteComponents(path).Ok? ==> ResolveNode(next, path, true) == Ok(Dir(MemoryDir(|fs.dirs|, true))))
  {
    var (parent, name) := Parent(fs, prefix).value;
    ParentOk(fs, prefix);
    k := TempMade(fs, prefix, parent, name, attempts);
    CandidateValid(name, attempts[k]);
    var (next, path) := MakeTempDir(fs, prefix, attempts).value;
    if AbsoluteComponents(path).Ok? {
      TempResolves(fs, next, prefix, parent, name, name + RandomSuffix(attempts[k]));
    }
  }

  lemma {:induction false} TempMade(fs: Fs, prefix: string, parent: Directory, name: string, attempts: seq<Bytes>)
    returns (k: nat)
    requires Valid(fs) && Parent(fs, prefix) == Ok((parent, name)) && NodeOk(fs, Dir(parent))
    requires MakeTempFrom(fs, prefix, parent, name, attempts).Ok?
    ensures WritableSlot(fs, prefix) && k < |attempts| && Free(fs, parent, name, attempts[k])
    ensures forall j :: 0 <= j < k ==> !Free(fs, parent, name, attempts[j])
    ensures var (next, path) := MakeTempFrom(fs, prefix, parent, name, attempts).value;
            var candidate := name + RandomSuffix(attempts[k]);
            var components := AbsoluteComponents(prefix).value;
            && path == PathFromComponents(components[..|components| - 1] + [candidate])
            && next == WithEntries(NewDirectory(fs).0, parent.id,
                                   fs.dirs[parent.id][candidate := Dir(MemoryDir(|fs.dirs|, true))])
    decreases |attempts|
  {
    if Lookup(fs, parent, name + RandomSuffix(attempts[0])).value.Some? {
      k := TempMade(fs, prefix, parent, name, attempts[1..]);
      assert forall j :: 0 < j < |attempts| ==> attempts[j] == attempts[1..][j - 1];
      k := k + 1;
    } else {
      k := 0;
    }
  }

  lemma CandidateValid(name: string, bytes: Bytes)
    requires ValidName(name)
    ensures ValidName(name + RandomSuffix(bytes))
  {
    var suffix := RandomSuffix(bytes);
    var candidate := name + suffix;
    if suffix == "" {
      assert candidate == name;
    } else {
      assert candidate[|candidate| - 1] == suffix[|suffix| - 1];
    }
  }

  lemma TempResolves(fs: Fs, next: Fs, prefix: string, parent: Directory, name: string, candidate: string)
    requires Valid(fs) && Parent(fs, prefix) == Ok((parent, name)) && parent.MemoryDir? && parent.id < |fs.dirs|
    requires candidate !in fs.dirs[parent.id] && ValidName(candidate)
    requires next == WithEntries(NewDirectory(fs).0, parent.id,
                                 fs.dirs[parent.id][candidate := Dir(MemoryDir(|fs.dirs|, true))])
    requires var components := AbsoluteComponents(prefix).value;
             AbsoluteComponents(PathFromComponents(components[..|components| - 1] + [candidate])).Ok?
    ensures var components := AbsoluteComponents(prefix).value;
            ResolveNode(next, PathFromComponents(components[..|components| - 1] + [candidate]), true)
            == Ok(Dir(MemoryDir(|fs.dirs|, true)))
  {
    var components := AbsoluteComponents(prefix).value;
    var above := components[..|components| - 1];
    var names := above + [candidate];
    assert ValidComponents(above);
    PathRoundTrip(names);
    assert names[..|above|] == above;
    assert Grows(fs, next);
    ResolveGrows(fs, next, above, ROOT, [], true, 0);
    ResolveLast(next, above, candidate, ROOT, [], true, 0);
  }

  // ---- Copies ----

  /** What a copied file is: its bytes, if they are within the size limit; devices are not copied. */
  lemma CopiedFile(fs: Fs, file: FileNode)
    ensures file.DeviceFile? ==> CopyFileTree(fs, file) == Err(Unsupported)
    ensures file.MemoryFile? && file.id < |fs.files| ==>
              CopyFileTree(fs, file)
              == if |fs.files[file.id]| <= 128 * 1024 * 1024 then Ok(FileTree(fs.files[file.id])) else Err(FileTooLarge)
    ensures file.BundleFile? && HostBytes(fs.host, file.relative).Ok? ==>
              var bytes := HostBytes(fs.host, file.relative).value;
              CopyFileTree(fs, file) == if |bytes| <= 128 * 1024 * 1024 then Ok(FileTree(bytes)) else Err(FileTooLarge)
  {
    if file.MemoryFile? && file.id < |fs.files| {
      assert fs.files[file.id][0..|fs.files[file.id]|] == fs.files[file.id];
    } else if file.BundleFile? && HostBytes(fs.host, file.relative).Ok? {
      var bytes := HostBytes(fs.host, file.relative).value;
      assert bytes[0..|bytes|] == bytes;
    }
  }

  /** What the flags of a copy do once source and target are known. */
  lemma CopyFlags(fs: Fs, from: string, to: string, options: CopyOptions)
    requires Valid(fs) && ResolveNode(fs, from, options.dereference).Ok?
    requires CopyTarget(fs, from, to, ResolveNode(fs, from, options.dereference).value).Ok?
    ensures var source := ResolveNode(fs, from, options.dereference).value;
            var present := ResolveNode(fs, CopyTarget(fs, from, to, source).value, false).Ok?;
            && (present && options.errorOnExist ==> Copy(fs, from, to, options) == Err(AlreadyExists))
            && (present && !options.errorOnExist && !options.force ==> Copy(fs, from, to, options) == Ok(fs))
            && (CopyMade(fs, from, to, options) && source.Dir? && !options.recursive ==>
                  Copy(fs, from, to, options) == Err(IsDirectory))
            && (CopyMade(fs, from, to, options) && (source.Dir? ==> options.recursive) ==>
                  (Copy(fs, from, to, options).Ok? <==>
                     CopySource(fs, from, options.dereference).Ok?
                     && WritableSlot(fs, CopyTarget(fs, from, to, source).value)))
  {
    var source := ResolveNode(fs, from, options.dereference).value;
    var target := CopyTarget(fs, from, to, source).value;
    if CopySource(fs, from, options.dereference).Ok? {
      PlaceOutcome(fs, CopySource(fs, from, options.dereference).value, target);
    }
  }

  lemma PlaceOutcome(fs: Fs, tree: Tree, target: string)
    requires Valid(fs)
    ensures PlaceCopy(fs, tree, target, ResolveNode(fs, target, false).Ok?).Ok? <==> WritableSlot(fs, target)
  {
    ResolveThroughParent(fs, target);
    if WritableSlot(fs, target) {
      ParentOk(fs, target);
      var (parent, _) := Parent(fs, target).value;
      assert Plant(fs, tree).0.dirs[..|fs.dirs|][parent.id] == fs.dirs[parent.id];
    }
  }
}
