/**
 * The filesystem object, updated in place step by step. Each method is proved to carry out the
 * transaction of the same name, so an error leaves every name and every byte as it was.
 */
module VirtualFilesystem {
  import opened Wrappers
  import opened VfsPath
  import opened VfsNodes
  import opened VfsResolve
  import opened VfsInvariant
  import opened VfsCopy
  import opened VfsDescriptors
  import opened Sorting
  import Ops = VfsOperations
  import Names = VfsNamespace
  import Effects = VfsCopyEffects
  import Runs = VfsRuns

  /** `after` and `r` are what the transaction `outcome` on `before` prescribes. */
  ghost predicate Carried(before: Fs, outcome: Result<Fs, ErrorKind>, r: Result<(), ErrorKind>, after: Fs) {
    match outcome
    case Ok(next) => r == Ok(()) && after == next
    case Err(e) => r == Err(e) && after == before
  }

  /** The arenas only grew. */
  ghost predicate Extends(before: Fs, after: Fs) {
    && before.host == after.host
    && |before.dirs| <= |after.dirs| && after.dirs[..|before.dirs|] == before.dirs
    && |before.files| <= |after.files| && after.files[..|before.files|] == before.files
  }

  lemma EntryNamesArena(before: Fs, after: Fs, directory: Directory, name: string)
    requires Extends(before, after) && NodeOk(before, Dir(directory))
    ensures EntryNames(after, directory) == EntryNames(before, directory)
    ensures Lookup(after, directory, name) == Lookup(before, directory, name)
  {
    if directory.MemoryDir? {
      assert after.dirs[..|before.dirs|][directory.id] == before.dirs[directory.id];
    }
  }

  /** Below a fresh empty directory nothing can stop `mkdir -p`. */
  lemma {:induction false} MkdirBelowEmpty(fs: Fs, id: nat, components: Components)
    requires id < |fs.dirs| && fs.dirs[id] == map[]
    ensures Ops.MkdirFrom(fs, MemoryDir(id, true), components).Ok?
    decreases |components|
  {
    if components != [] {
      var (grown, child) := NewDirectory(fs);
      var next := Insert(grown, MemoryDir(id, true), components[0], child).value;
      MkdirBelowEmpty(next, |fs.dirs|, components[1..]);
    }
  }

  /** Two readings end the same way: both with a value, or both with one error. */
  ghost predicate SameOutcome(a: Result<map<string, Tree>, ErrorKind>, b: Result<map<string, Tree>, ErrorKind>) {
    match (a, b)
    case (Ok(_), Ok(_)) => true
    case (Err(x), Err(y)) => x == y
    case _ => false
  }

  /** The children read carry the listed names, which are listed in lexical order. */
  lemma ChildrenListed(fs: Fs, directory: Directory, names: seq<string>, path: string, dereference: bool,
                       at: Components, seen: set<nat>, links: nat)
    requires Placed(fs, Dir(directory), path, at, seen, links) && EntryNames(fs, directory) == Ok(names)
    requires CopyChildren(fs, directory, names, path, dereference, at, seen, links).Ok?
    ensures var children := CopyChildren(fs, directory, names, path, dereference, at, seen, links).value;
            && names == Sorted(children.Keys)
            && (forall name :: name in names ==>
                  && Step(fs, Dir(directory), name).Some?
                  && Placed(fs, Step(fs, Dir(directory), name).value, ChildPath(path, name), at + [name],
                            SeenBelow(Dir(directory), seen), links)
                  && name in children
                  && CopyTree(fs, Step(fs, Dir(directory), name).value, ChildPath(path, name), dereference,
                              at + [name], SeenBelow(Dir(directory), seen), links) == Ok(children[name]))
  {
    ChildrenNames(fs, directory, names, path, dereference, at, seen, links);
    match directory {
      case MemoryDir(id, _) => assert EntriesOf(fs, id).Keys == set name | name in names;
      case StaticDir => assert DEVICES.Keys == set name | name in names;
      case BundleDir(relative) =>
        var entries := HostAt(fs.host, relative).value.entries;
        assert entries.Keys == set name | name in names;
    }
    forall name | name in names
      ensures Step(fs, Dir(directory), name).Some?
              && Placed(fs, Step(fs, Dir(directory), name).value, ChildPath(path, name), at + [name],
                        SeenBelow(Dir(directory), seen), links)
              && name in CopyChildren(fs, directory, names, path, dereference, at, seen, links).value
              && CopyTree(fs, Step(fs, Dir(directory), name).value, ChildPath(path, name), dereference,
                          at + [name], SeenBelow(Dir(directory), seen), links)
                 == Ok(CopyChildren(fs, directory, names, path, dereference, at, seen, links).value[name])
    {
      CopyChildrenAt(fs, directory, names, path, dereference, at, seen, links, name);
    }
  }

  /** How far copying the entries of a directory has come after `index` of them. */
  ghost predicate CopyProgress(
    source: Fs, start: Fs, now: Fs, directory: Directory, names: seq<string>, index: nat, target: nat,
    path: string, dereference: bool, at: Components, seen: set<nat>, links: nat)
    requires Placed(source, Dir(directory), path, at, seen, links) && index <= |names|
  {
    var whole := CopyChildren(source, directory, names, path, dereference, at, seen, links);
    && target < |start.dirs| && target < |now.dirs| && Extends(source, now)
    && Extends(start.(dirs := start.dirs[..target]), now)
    && (forall k :: index <= k < |names| ==> names[k] !in now.dirs[target])
    && SameOutcome(whole, CopyChildren(source, directory, names[index..], path, dereference, at, seen, links))
    && (whole.Ok? ==>
          && (forall name :: name in names ==> name in whole.value)
          && PlantChildren(start, target, names, DirTree(whole.value))
             == PlantChildren(now, target, names[index..], DirTree(whole.value)))
  }

  lemma ProgressStarts(
    source: Fs, start: Fs, directory: Directory, names: seq<string>, target: nat,
    path: string, dereference: bool, at: Components, seen: set<nat>, links: nat)
    requires Placed(source, Dir(directory), path, at, seen, links) && EntryNames(source, directory) == Ok(names)
    requires Extends(source, start) && |source.dirs| <= target < |start.dirs| && start.dirs[target] == map[]
    ensures CopyProgress(source, start, start, directory, names, 0, target, path, dereference, at, seen, links)
  {
    assert names[0..] == names;
    if CopyChildren(source, directory, names, path, dereference, at, seen, links).Ok? {
      ChildrenListed(source, directory, names, path, dereference, at, seen, links);
    }
  }

  /** One more entry: its copy moves the progress on, or its error is the error of the whole. */
  lemma ProgressStep(
    source: Fs, start: Fs, now: Fs, next: Fs, directory: Directory, names: seq<string>, index: nat, target: nat,
    path: string, dereference: bool, at: Components, seen: set<nat>, links: nat, copied: Result<Tree, ErrorKind>)
    requires Placed(source, Dir(directory), path, at, seen, links) && EntryNames(source, directory) == Ok(names)
    requires index < |names| && |source.dirs| <= target
    requires CopyProgress(source, start, now, directory, names, index, target, path, dereference, at, seen, links)
    requires EntryRead(source, directory, names[index], path, dereference, at, seen, links, copied)
    requires copied.Ok? ==> next == PlantEntry(now, target, names[index], copied.value)
    ensures copied.Ok? ==>
              CopyProgress(source, start, next, directory, names, index + 1, target, path, dereference, at, seen, links)
    ensures copied.Err? ==>
              CopyChildren(source, directory, names, path, dereference, at, seen, links) == Err(copied.error)
  {
    ChildrenStep(source, directory, names, index, path, dereference, at, seen, links, copied);
    if copied.Ok? {
      PlantEntryGrows(now, target, names[index], copied.value);
      PrefixExtends(start, now, next, target);
      ArenaExtends(source, now, next, target);
      EntryNamesExact(source, directory, names[index]);
      var whole := CopyChildren(source, directory, names, path, dereference, at, seen, links);
      if whole.Ok? {
        CopyChildrenAt(source, directory, names, path, dereference, at, seen, links, names[index]);
        PlantChildrenStep(now, target, names, index, DirTree(whole.value));
      }
    }
  }

  /** Reading the children from `index` on: the next child, then the rest. */
  lemma ChildrenStep(
    source: Fs, directory: Directory, names: seq<string>, index: nat, path: string, dereference: bool,
    at: Components, seen: set<nat>, links: nat, copied: Result<Tree, ErrorKind>)
    requires Placed(source, Dir(directory), path, at, seen, links) && index < |names|
    requires EntryRead(source, directory, names[index], path, dereference, at, seen, links, copied)
    ensures var here := CopyChildren(source, directory, names[index..], path, dereference, at, seen, links);
            if copied.Err? then here == Err(copied.error)
            else
              SameOutcome(here, CopyChildren(source, directory, names[index + 1..], path, dereference, at, seen, links))
  {
    assert names[index..][0] == names[index] && names[index..][1..] == names[index + 1..];
  }

  /** Planting the children from `index` on: the next child, then the rest. */
  lemma PlantChildrenStep(fs: Fs, target: nat, names: seq<string>, index: nat, tree: Tree)
    requires target < |fs.dirs| && tree.DirTree? && index < |names|
    requires forall name :: name in names ==> name in tree.children
    ensures forall name :: name in names[index..] ==> name in tree.children
    ensures forall name :: name in names[index + 1..] ==> name in tree.children
    ensures target < |PlantEntry(fs, target, names[index], tree.children[names[index]]).dirs|
    ensures PlantChildren(fs, target, names[index..], tree)
            == PlantChildren(PlantEntry(fs, target, names[index], tree.children[names[index]]), target,
                             names[index + 1..], tree)
  {
    assert names[index..][0] == names[index] && names[index..][1..] == names[index + 1..];
  }

  lemma PlantEntryGrows(fs: Fs, target: nat, name: string, tree: Tree)
    requires target < |fs.dirs|
    ensures var next := PlantEntry(fs, target, name, tree);
            && next.host == fs.host && |fs.dirs| <= |next.dirs|
            && |fs.files| <= |next.files| && next.files[..|fs.files|] == fs.files
            && (forall i :: 0 <= i < |fs.dirs| && i != target ==> next.dirs[i] == fs.dirs[i])
            && next.dirs[target].Keys == fs.dirs[target].Keys + {name}
  {
    var grown := Plant(fs, tree).0;
    assert forall i :: 0 <= i < |fs.dirs| ==> grown.dirs[..|fs.dirs|][i] == fs.dirs[i];
  }

  lemma PrefixExtends(start: Fs, now: Fs, next: Fs, target: nat)
    requires target < |start.dirs| && target < |now.dirs| <= |next.dirs|
    requires Extends(start.(dirs := start.dirs[..target]), now)
    requires now.host == next.host && |now.files| <= |next.files| && next.files[..|now.files|] == now.files
    requires forall i :: 0 <= i < |now.dirs| && i != target ==> next.dirs[i] == now.dirs[i]
    ensures Extends(start.(dirs := start.dirs[..target]), next)
  {
    assert next.files[..|start.files|] == now.files[..|start.files|];
    assert next.dirs[..target] == now.dirs[..target];
  }

  lemma ArenaExtends(source: Fs, now: Fs, next: Fs, target: nat)
    requires |source.dirs| <= target < |now.dirs| <= |next.dirs| && Extends(source, now)
    requires now.host == next.host && |now.files| <= |next.files| && next.files[..|now.files|] == now.files
    requires forall i :: 0 <= i < |now.dirs| && i != target ==> next.dirs[i] == now.dirs[i]
    ensures Extends(source, next)
  {
    assert next.files[..|source.files|] == now.files[..|source.files|];
    assert next.dirs[..|source.dirs|] == now.dirs[..|source.dirs|];
  }

  /** `copied` is what reading the entry `name` gives. */
  ghost predicate EntryRead(source: Fs, directory: Directory, name: string, path: string, dereference: bool,
                            at: Components, seen: set<nat>, links: nat, copied: Result<Tree, ErrorKind>)
    requires Placed(source, Dir(directory), path, at, seen, links)
  {
    Step(source, Dir(directory), name).Some?
    && var child := Step(source, Dir(directory), name).value;
       EntryPlaced(source, directory, path, at, seen, links, name);
       copied == CopyTree(source, child, ChildPath(path, name), dereference,
                          at + [name], SeenBelow(Dir(directory), seen), links)
  }

  function PlantEntry(fs: Fs, target: nat, name: string, tree: Tree): Fs
    requires target < |fs.dirs|
  {
    var (grown, child) := Plant(fs, tree);
    WithEntries(grown, target, grown.dirs[target][name := child])
  }

  lemma ProgressEnds(
    source: Fs, start: Fs, now: Fs, directory: Directory, names: seq<string>, target: nat,
    path: string, dereference: bool, at: Components, seen: set<nat>, links: nat)
    requires Placed(source, Dir(directory), path, at, seen, links) && EntryNames(source, directory) == Ok(names)
    requires CopyProgress(source, start, now, directory, names, |names|, target, path, dereference, at, seen, links)
    ensures var whole := CopyChildren(source, directory, names, path, dereference, at, seen, links);
            whole.Ok? && names == Sorted(whole.value.Keys)
            && now == PlantChildren(start, target, names, DirTree(whole.value))
  {
    assert names[|names|..] == [];
    ChildrenListed(source, directory, names, path, dereference, at, seen, links);
  }

  /** The outcome of the remaining reads, behind the pieces already read. */
  function Behind(pieces: seq<Bytes>, rest: (State, Result<seq<Bytes>, ErrorKind>))
    : (State, Result<seq<Bytes>, ErrorKind>)
  {
    (rest.0, if rest.1.Ok? then Ok(pieces + rest.1.value) else rest.1)
  }

  /** The outcome of the remaining writes, after `count` bytes already written. */
  function Counted(count: nat, rest: (State, Result<nat, ErrorKind>)): (State, Result<nat, ErrorKind>) {
    (rest.0, if rest.1.Ok? then Ok(count + rest.1.value) else rest.1)
  }

  lemma NothingBefore(rest: (State, Result<seq<Bytes>, ErrorKind>))
    ensures Behind([], rest) == rest
  {
    if rest.1.Ok? {
      assert [] + rest.1.value == rest.1.value;
    }
  }

  lemma BehindMore(pieces: seq<Bytes>, piece: Bytes, rest: seq<Bytes>)
    ensures pieces + ([piece] + rest) == (pieces + [piece]) + rest
  {
  }

  /** One read of the remaining ones. */
  lemma ReadEachFrom(
    s: State, descriptor: nat, requests: seq<ReadRequest>, index: nat, offset: Option<u64>, pieces: seq<Bytes>)
    requires index < |requests|
    ensures var first := VfsDescriptors.Read(s, descriptor, requests[index], offset);
            Behind(pieces, ReadEach(s, descriptor, requests[index..], offset))
            == if first.1.Err? then (first.0, Err(first.1.error))
               else Behind(pieces + [first.1.value],
                           ReadEach(first.0, descriptor, requests[index + 1..], Advance(offset, |first.1.value|)))
  {
    assert requests[index..][0] == requests[index] && requests[index..][1..] == requests[index + 1..];
    var first := VfsDescriptors.Read(s, descriptor, requests[index], offset);
    if first.1.Ok? {
      var rest := ReadEach(first.0, descriptor, requests[index + 1..], Advance(offset, |first.1.value|));
      if rest.1.Ok? {
        BehindMore(pieces, first.1.value, rest.1.value);
      }
    }
  }

  /** One write of the remaining ones. */
  lemma WriteEachFrom(s: State, descriptor: nat, buffers: seq<Bytes>, index: nat, offset: Option<u64>, count: nat)
    requires index < |buffers|
    ensures var first := VfsDescriptors.Write(s, descriptor, buffers[index], offset);
            Counted(count, WriteEach(s, descriptor, buffers[index..], offset))
            == if first.1.Err? then first
               else Counted(count + first.1.value,
                            WriteEach(first.0, descriptor, buffers[index + 1..], Advance(offset, first.1.value)))
  {
    assert buffers[index..][0] == buffers[index] && buffers[index..][1..] == buffers[index + 1..];
  }

  /** Growing a body and then replacing the middle writes exactly the input. */
  lemma OverwriteInPlace(data: Bytes, start: nat, input: Bytes)
    ensures var end := start + |input|;
            var grown := if end > |data| then Resized(data, end) else data;
            grown[..start] + input + grown[end..] == Overwrite(data, start, input)
  {
  }

  class VirtualFileSystem {
    const host: HostNode
    var dirs: seq<Entries>
    var files: seq<Bytes>
    var descriptors: map<nat, OpenFile>
    var nextDescriptor: nat

    function Fs(): Fs
      reads this
    {
      VfsNodes.Fs(host, dirs, files)
    }

    function View(): State
      reads this
    {
      State(Fs(), descriptors, nextDescriptor)
    }

    constructor (host: HostNode)
      ensures View() == Runs.NewState(host)
    {
      this.host := host;
      dirs := [ROOT_ENTRIES, map[]];
      files := [];
      descriptors := map[];
      nextDescriptor := FIRST_DESCRIPTOR;
    }

    // ---- Directories ----

    method InsertEntry(directory: Directory, name: string, node: Node) returns (r: Result<(), ErrorKind>)
      requires NodeOk(Fs(), Dir(directory))
      modifies this`dirs
      ensures Carried(old(Fs()), Insert(old(Fs()), directory, name, node), r, Fs())
    {
      if !DirWritable(directory) {
        return Err(ReadOnly);
      }
      if name in dirs[directory.id] {
        return Err(AlreadyExists);
      }
      dirs := dirs[directory.id := dirs[directory.id][name := node]];
      return Ok(());
    }

    method RemoveEntry(directory: Directory, name: string) returns (r: Result<(), ErrorKind>)
      requires NodeOk(Fs(), Dir(directory))
      modifies this`dirs
      ensures Carried(old(Fs()), Remove(old(Fs()), directory, name), r, Fs())
    {
      if !DirWritable(directory) {
        return Err(ReadOnly);
      }
      dirs := dirs[directory.id := dirs[directory.id] - {name}];
      return Ok(());
    }

    /** Allocates a directory and inserts it; a directory that cannot be inserted is dropped again. */
    method InsertDirectory(directory: Directory, name: string) returns (r: Result<(), ErrorKind>)
      requires NodeOk(Fs(), Dir(directory))
      modifies this`dirs
      ensures var (grown, child) := NewDirectory(old(Fs()));
              Carried(old(Fs()), Insert(grown, directory, name, child), r, Fs())
    {
      var id := |dirs|;
      dirs := dirs + [map[]];
      r := InsertEntry(directory, name, Dir(MemoryDir(id, true)));
      if r.Err? {
        dirs := dirs[..id];
      }
    }

    // ---- Resolution ----

    method ResolveComponents(components: Components, followFinal: bool)
      returns (r: Result<(Node, Components), ErrorKind>)
      ensures r == ResolveFrom(Fs(), components, followFinal)
    {
      var pending := components;
      var current := ROOT;
      var resolved: Components := [];
      var index := 0;
      var symlinks := 0;
      while true
        invariant 0 <= index <= |pending| && symlinks <= MAX_SYMLINKS
        invariant ResolveFrom(Fs(), components, followFinal)
                  == Resolve(Fs(), pending[index..], current, resolved, followFinal, symlinks)
        decreases MAX_SYMLINKS - symlinks, |pending| - index
      {
        if index == |pending| {
          return Ok((current, resolved));
        }
        var name := pending[index];
        if !current.Dir? {
          return Err(NotDirectory);
        }
        var found := Lookup(Fs(), current.directory, name);
        if found.Err? {
          return Err(found.error);
        }
        if found.value.None? {
          return Err(NotFound);
        }
        var child := found.value.value;
        if child.Symlink? && (followFinal || index + 1 != |pending|) {
          symlinks := symlinks + 1;
          if symlinks > MAX_SYMLINKS {
            return Err(SymlinkLoop);
          }
          var next := TargetComponents(resolved, child.target);
          if next.Err? {
            return Err(next.error);
          }
          assert pending[index..][1..] == pending[index + 1..];
          pending := next.value + pending[index + 1..];
          current := ROOT;
          resolved := [];
          index := 0;
          assert pending[0..] == pending;
        } else {
          assert pending[index..][1..] == pending[index + 1..];
          current := child;
          resolved := resolved + [name];
          index := index + 1;
        }
      }
    }

    method ResolveAt(path: string, followFinal: bool) returns (r: Result<Node, ErrorKind>)
      ensures r == ResolveNode(Fs(), path, followFinal)
    {
      var components := AbsoluteComponents(path);
      if components.Err? {
        return Err(components.error);
      }
      var found := ResolveComponents(components.value, followFinal);
      return if found.Ok? then Ok(found.value.0) else Err(found.error);
    }

    method ParentOf(path: string) returns (r: Result<(Directory, string), ErrorKind>)
      ensures r == Parent(Fs(), path)
    {
      var components := AbsoluteComponents(path);
      if components.Err? {
        return Err(components.error);
      }
      var k := |components.value| - 1;
      if k < 0 {
        return Err(InvalidInput);
      }
      var found := ResolveComponents(components.value[..k], true);
      if found.Err? {
        return Err(found.error);
      }
      if !found.value.0.Dir? {
        return Err(NotDirectory);
      }
      return Ok((found.value.0.directory, components.value[k]));
    }

    // ---- Names ----

    method MkdirRecursive(components: Components) returns (r: Result<(), ErrorKind>)
      requires Valid(Fs()) && ValidComponents(components)
      modifies this`dirs
      ensures Carried(old(Fs()), Ops.MkdirFrom(old(Fs()), ROOT.directory, components), r, Fs())
    {
      ghost var before := Fs();
      var current := ROOT.directory;
      var index := 0;
      ghost var grown := false;
      while index < |components|
        invariant 0 <= index <= |components|
        invariant Valid(Fs()) && NodeOk(Fs(), Dir(current))
        invariant Ops.MkdirFrom(before, ROOT.directory, components) == Ops.MkdirFrom(Fs(), current, components[index..])
        invariant !grown ==> Fs() == before
        invariant grown ==> current.MemoryDir? && current.writable && dirs[current.id] == map[]
        decreases |components| - index
      {
        var name := components[index];
        assert components[index..][1..] == components[index + 1..];
        if grown {
          MkdirBelowEmpty(Fs(), current.id, components[index..]);
        }
        var found := Lookup(Fs(), current, name);
        if found.Err? {
          return Err(found.error);
        }
        match found.value {
          case Some(Dir(child)) =>
            StepOk(Fs(), Dir(current), name);
            current := child;
          case Some(_) =>
            return Err(NotDirectory);
          case None =>
            var id := |dirs|;
            ghost var here := Fs();
            var inserted := InsertDirectory(current, name);
            if inserted.Err? {
              return Err(inserted.error);
            }
            Names.NewEntryValid(here, current, name);
            current := MemoryDir(id, true);
            grown := true;
        }
        index := index + 1;
      }
      return Ok(());
    }

    method Mkdir(path: string, recursive: bool) returns (r: Result<(), ErrorKind>)
      requires Valid(Fs())
      modifies this`dirs
      ensures Carried(old(Fs()), Ops.Mkdir(old(Fs()), path, recursive), r, Fs())
    {
      var components := AbsoluteComponents(path);
      if components.Err? {
        return Err(components.error);
      }
      if components.value == [] {
        return if recursive then Ok(()) else Err(AlreadyExists);
      }
      var found := ResolveAt(path, true);
      if found.Ok? {
        return if found.value.Dir? && recursive then Ok(()) else Err(AlreadyExists);
      }
      if found.error != NotFound {
        return Err(found.error);
      }
      if recursive {
        r := MkdirRecursive(components.value);
      } else {
        var parent := ParentOf(path);
        if parent.Err? {
          return Err(parent.error);
        }
        Names.ParentOk(Fs(), path);
        r := InsertDirectory(parent.value.0, parent.value.1);
      }
    }

    method RemovePath(path: string, recursive: bool, force: bool) returns (r: Result<(), ErrorKind>)
      requires Valid(Fs())
      modifies this`dirs
      ensures Carried(old(Fs()), Ops.RemovePath(old(Fs()), path, recursive, force), r, Fs())
    {
      var parent := ParentOf(path);
      if parent.Err? {
        return if force && parent.error == NotFound then Ok(()) else Err(parent.error);
      }
      var (directory, name) := parent.value;
      var found := Lookup(Fs(), directory, name);
      if found.Err? {
        return Err(found.error);
      }
      if found.value.None? {
        return if force then Ok(()) else Err(NotFound);
      }
      var node := found.value.value;
      if node.Dir? && !recursive {
        var empty := IsEmptyDir(Fs(), node.directory);
        if empty.Err? {
          return Err(empty.error);
        }
        if !empty.value {
          return Err(NotEmpty);
        }
      }
      Names.ParentOk(Fs(), path);
      r := RemoveEntry(directory, name);
    }

    method RemoveDirectory(path: string, recursive: bool) returns (r: Result<(), ErrorKind>)
      requires Valid(Fs())
      modifies this`dirs
      ensures Carried(old(Fs()), Ops.RemoveDirectory(old(Fs()), path, recursive), r, Fs())
    {
      var node := ResolveAt(path, true);
      if node.Err? {
        return Err(node.error);
      }
      if !node.value.Dir? {
        return Err(NotDirectory);
      }
      r := RemovePath(path, recursive, false);
    }

    method RemoveFile(path: string) returns (r: Result<(), ErrorKind>)
      requires Valid(Fs())
      modifies this`dirs
      ensures Carried(old(Fs()), Ops.RemoveFile(old(Fs()), path), r, Fs())
    {
      var node := ResolveAt(path, false);
      if node.Err? {
        return Err(node.error);
      }
      if node.value.Dir? {
        return Err(IsDirectory);
      }
      r := RemovePath(path, false, false);
    }

    /**
     * The target is emptied before the source is inserted there and removed from its old slot. No
     * step after the first can fail, so a refused rename has changed nothing.
     */
    method Rename(from: string, to: string) returns (r: Result<(), ErrorKind>)
      requires Valid(Fs())
      modifies this`dirs
      ensures Carried(old(Fs()), Ops.Rename(old(Fs()), from, to), r, Fs())
    {
      var fromComponents, toComponents := AbsoluteComponents(from), AbsoluteComponents(to);
      if fromComponents.Err? {
        return Err(fromComponents.error);
      }
      if toComponents.Err? {
        return Err(toComponents.error);
      }
      if fromComponents.value == toComponents.value {
        return Ok(());
      }
      if fromComponents.value <= toComponents.value {
        return Err(InvalidInput);
      }
      var source := ParentOf(from);
      if source.Err? {
        return Err(source.error);
      }
      var found := Lookup(Fs(), source.value.0, source.value.1);
      if found.Err? {
        return Err(found.error);
      }
      if found.value.None? {
        return Err(NotFound);
      }
      var target := ParentOf(to);
      if target.Err? {
        return Err(target.error);
      }
      if !DirWritable(source.value.0) || !DirWritable(target.value.0) {
        return Err(ReadOnly);
      }
      Names.ParentOk(Fs(), from);
      Names.ParentOk(Fs(), to);
      var existing := Lookup(Fs(), target.value.0, target.value.1);
      if existing.value.Some? {
        if existing.value.value.Dir? {
          var empty := IsEmptyDir(Fs(), existing.value.value.directory);
          if empty.Err? {
            return Err(empty.error);
          }
          if !empty.value {
            return Err(NotEmpty);
          }
        }
        r := RemoveEntry(target.value.0, target.value.1);
      }
      r := InsertEntry(target.value.0, target.value.1, found.value.value);
      r := RemoveEntry(source.value.0, source.value.1);
    }

    method InsertNew(path: string, node: Node) returns (r: Result<(), ErrorKind>)
      requires Valid(Fs())
      modifies this`dirs
      ensures Carried(old(Fs()), Ops.InsertNew(old(Fs()), path, node), r, Fs())
    {
      var parent := ParentOf(path);
      if parent.Err? {
        return Err(parent.error);
      }
      var taken := Lookup(Fs(), parent.value.0, parent.value.1);
      if taken.Err? {
        return Err(taken.error);
      }
      if taken.value.Some? {
        return Err(AlreadyExists);
      }
      Names.ParentOk(Fs(), path);
      r := InsertEntry(parent.value.0, parent.value.1, node);
    }

    method Link(existing: string, path: string) returns (r: Result<(), ErrorKind>)
      requires Valid(Fs())
      modifies this`dirs
      ensures Carried(old(Fs()), Ops.Link(old(Fs()), existing, path), r, Fs())
    {
      var source := ResolveAt(existing, true);
      if source.Err? {
        return Err(source.error);
      }
      if !source.value.File? || source.value.file.DeviceFile? {
        return Err(Unsupported);
      }
      r := InsertNew(path, source.value);
    }

    method MakeSymlink(target: string, path: string) returns (r: Result<(), ErrorKind>)
      requires Valid(Fs())
      modifies this`dirs
      ensures Carried(old(Fs()), Ops.MakeSymlink(old(Fs()), target, path), r, Fs())
    {
      if '\0' in target {
        return Err(InvalidInput);
      }
      r := InsertNew(path, Symlink(target));
    }

    /** Tries one draw after another until a name is free. */
    method MakeTempDir(prefix: string, attempts: seq<Bytes>) returns (r: Result<string, ErrorKind>)
      requires Valid(Fs())
      modifies this`dirs
      ensures match Ops.MakeTempDir(old(Fs()), prefix, attempts) {
                case Ok((next, path)) => r == Ok(path) && Fs() == next
                case Err(e) => r == Err(e) && Fs() == old(Fs())
              }
    {
      var parent := ParentOf(prefix);
      if parent.Err? {
        return Err(parent.error);
      }
      Names.ParentOk(Fs(), prefix);
      var (directory, name) := parent.value;
      var components := AbsoluteComponents(prefix).value;
      var index := 0;
      while index < |attempts|
        invariant 0 <= index <= |attempts| && Fs() == old(Fs())
        invariant Ops.MakeTempFrom(Fs(), prefix, directory, name, attempts)
                  == Ops.MakeTempFrom(Fs(), prefix, directory, name, attempts[index..])
      {
        var candidate := name + Ops.RandomSuffix(attempts[index]);
        assert attempts[index..][1..] == attempts[index + 1..];
        var taken := Lookup(Fs(), directory, candidate);
        if taken.Err? {
          return Err(taken.error);
        }
        if taken.value.None? {
          var inserted := InsertDirectory(directory, candidate);
          if inserted.Err? {
            return Err(inserted.error);
          }
          return Ok(PathFromComponents(components[..|components| - 1] + [candidate]));
        }
        index := index + 1;
      }
      return Err(AlreadyExists);
    }

    // ---- Copying ----

    /**
     * Copies one node into fresh directories and files. `source` is the namespace as it was when
     * the copy began; on an error the part already built is dropped.
     */
    method CopyNode(ghost source: Fs, node: Node, path: string, dereference: bool,
                    ghost at: Components, ghost seen: set<nat>, ghost links: nat)
      returns (r: Result<Node, ErrorKind>)
      requires Placed(source, node, path, at, seen, links) && Extends(source, Fs())
      modifies this`dirs, this`files
      ensures match CopyTree(source, node, path, dereference, at, seen, links) {
                case Ok(tree) => r.Ok? && (Fs(), r.value) == Plant(old(Fs()), tree)
                case Err(e) => r == Err(e) && Fs() == old(Fs())
              }
      decreases MAX_PATH_SEGMENTS + 1 - links, Unseen(source, seen), HostPart(source, node), if node.Dir? then 1 else 0
    {
      WalkOk(source, ROOT, at);
      if node.File? {
        r := CopyFileNode(source, node.file);
      } else if node.Symlink? {
        if !dereference {
          return Ok(node);
        }
        var components := AbsoluteComponents(path);
        if components.Err? {
          return Err(components.error);
        }
        Effects.ResolveArena(source, Fs(), components.value, ROOT, [], true, 0);
        var found := ResolveComponents(components.value, true);
        if found.Err? {
          return Err(found.error);
        }
        ResolvedIsWalk(source, components.value, ROOT, [], true, 0);
        r := CopyNode(source, found.value.0, path, dereference, found.value.1, {}, |components.value| + 1);
      } else {
        EntryNamesArena(source, Fs(), node.directory, "");
        var names := EntryNames(Fs(), node.directory);
        if names.Err? {
          return Err(names.error);
        }
        r := CopyDirectory(source, node.directory, names.value, path, dereference, at, seen, links);
      }
    }

    method CopyFileNode(ghost source: Fs, file: FileNode) returns (r: Result<Node, ErrorKind>)
      requires Extends(source, Fs()) && NodeOk(source, File(file))
      modifies this`files
      ensures match CopyFileTree(source, file) {
                case Ok(tree) => r.Ok? && (Fs(), r.value) == Plant(old(Fs()), tree)
                case Err(e) => r == Err(e) && Fs() == old(Fs())
              }
    {
      if file.MemoryFile? {
        assert files[..|source.files|][file.id] == source.files[file.id];
      }
      if file.DeviceFile? {
        return Err(Unsupported);
      }
      var size := FileSize(Fs(), file);
      if size.Err? {
        return Err(size.error);
      }
      var length := CheckedSize(size.value);
      if length.Err? {
        return Err(length.error);
      }
      var bytes := ReadFileNode(Fs(), file, 0, length.value, []);
      files := files + [bytes.value];
      return Ok(File(MemoryFile(|files| - 1)));
    }

    /** Copies one entry of `directory` and inserts the copy in the directory being built. */
    method CopyEntry(ghost source: Fs, directory: Directory, name: string, target: nat, path: string, dereference: bool,
                     ghost at: Components, ghost seen: set<nat>, ghost links: nat)
      returns (r: Result<(), ErrorKind>, ghost copied: Result<Tree, ErrorKind>)
      requires Placed(source, Dir(directory), path, at, seen, links) && Step(source, Dir(directory), name).Some?
      requires Extends(source, Fs()) && |source.dirs| <= target < |dirs| && name !in dirs[target]
      modifies this`dirs, this`files
      ensures EntryRead(source, directory, name, path, dereference, at, seen, links, copied)
      ensures match copied {
                case Ok(tree) => r.Ok? && Fs() == PlantEntry(old(Fs()), target, name, tree)
                case Err(e) => r == Err(e) && Fs() == old(Fs())
              }
      decreases MAX_PATH_SEGMENTS + 1 - links, Unseen(source, seen), HostPart(source, Dir(directory)), 1, 0
    {
      WalkOk(source, ROOT, at);
      EntryNamesArena(source, Fs(), directory, name);
      EntryPlaced(source, directory, path, at, seen, links, name);
      EntryDescends(source, directory, at, seen, name);
      var child := Lookup(Fs(), directory, name).value.value;
      copied := CopyTree(source, child, ChildPath(path, name), dereference,
                         at + [name], SeenBelow(Dir(directory), seen), links);
      var node := CopyNode(source, child, ChildPath(path, name), dereference,
                           at + [name], SeenBelow(Dir(directory), seen), links);
      if node.Err? {
        return Err(node.error), copied;
      }
      dirs := dirs[target := dirs[target][name := node.value]];
      return Ok(()), copied;
    }

    /** Copies the entries one after another into the fresh directory `target`. */
    method CopyEntries(ghost source: Fs, directory: Directory, names: seq<string>, target: nat, path: string,
                       dereference: bool, ghost at: Components, ghost seen: set<nat>, ghost links: nat)
      returns (r: Result<(), ErrorKind>)
      requires Placed(source, Dir(directory), path, at, seen, links) && EntryNames(source, directory) == Ok(names)
      requires Extends(source, Fs()) && |source.dirs| <= target < |dirs| && dirs[target] == map[]
      modifies this`dirs, this`files
      ensures target < |dirs| && Extends(VfsNodes.Fs(host, old(dirs)[..target], old(files)), Fs())
      ensures match CopyChildren(source, directory, names, path, dereference, at, seen, links) {
                case Ok(children) =>
                  r.Ok? && names == Sorted(children.Keys)
                  && Fs() == PlantChildren(old(Fs()), target, names, DirTree(children))
                case Err(e) => r == Err(e)
              }
      decreases MAX_PATH_SEGMENTS + 1 - links, Unseen(source, seen), HostPart(source, Dir(directory)), 1, 1
    {
      ghost var start := Fs();
      ProgressStarts(source, start, directory, names, target, path, dereference, at, seen, links);
      var index := 0;
      while index < |names|
        invariant 0 <= index <= |names|
        invariant CopyProgress(source, start, Fs(), directory, names, index, target, path, dereference, at, seen, links)
      {
        EntryNamesExact(source, directory, names[index]);
        ghost var before, copied := Fs(), Err(NotFound);
        r, copied := CopyEntry(source, directory, names[index], target, path, dereference, at, seen, links);
        ProgressStep(source, start, before, Fs(), directory, names, index, target, path, dereference, at, seen, links,
                     copied);
        if r.Err? {
          return;
        }
        index := index + 1;
      }
      ProgressEnds(source, start, Fs(), directory, names, target, path, dereference, at, seen, links);
      return Ok(());
    }

    method CopyDirectory(ghost source: Fs, directory: Directory, names: seq<string>, path: string, dereference: bool,
                         ghost at: Components, ghost seen: set<nat>, ghost links: nat)
      returns (r: Result<Node, ErrorKind>)
      requires Placed(source, Dir(directory), path, at, seen, links) && Extends(source, Fs())
      requires EntryNames(source, directory) == Ok(names)
      modifies this`dirs, this`files
      ensures match CopyChildren(source, directory, names, path, dereference, at, seen, links) {
                case Ok(children) => r.Ok? && (Fs(), r.value) == Plant(old(Fs()), DirTree(children))
                case Err(e) => r == Err(e) && Fs() == old(Fs())
              }
      decreases MAX_PATH_SEGMENTS + 1 - links, Unseen(source, seen), HostPart(source, Dir(directory)), 1, 2
    {
      var target, fileCount := |dirs|, |files|;
      dirs := dirs + [map[]];
      assert dirs[..target] == old(dirs);
      var copied := CopyEntries(source, directory, names, target, path, dereference, at, seen, links);
      if copied.Err? {
        dirs := dirs[..target];
        files := files[..fileCount];
        return Err(copied.error);
      }
      return Ok(Dir(MemoryDir(target, true)));
    }

    method CopyTargetOf(from: string, to: string, source: Node) returns (r: Result<string, ErrorKind>)
      ensures r == Ops.CopyTarget(Fs(), from, to, source)
    {
      var destination := ResolveAt(to, true);
      if destination.Ok? && destination.value.Dir? {
        var components := AbsoluteComponents(from);
        if components.Err? {
          return Err(components.error);
        }
        if components.value == [] {
          return Err(InvalidInput);
        }
        return Ok(ChildPath(to, components.value[|components.value| - 1]));
      }
      if source.Dir? && destination.Err? {
        var parent := ParentOf(to);
        if parent.Err? {
          return Err(parent.error);
        }
        if parent.value.1 == "" {
          return Err(InvalidInput);
        }
      }
      return Ok(to);
    }

    /** Puts a finished copy in the target slot. */
    method PlaceCopy(node: Node, target: string, present: bool, ghost source: Fs, ghost tree: Tree)
      returns (r: Result<(), ErrorKind>)
      requires Valid(source) && (Fs(), node) == Plant(source, tree)
      modifies this`dirs
      ensures match Ops.PlaceCopy(source, tree, target, present) {
                case Ok(next) => r == Ok(()) && Fs() == next
                case Err(e) => r == Err(e) && Fs() == old(Fs())
              }
    {
      Effects.ParentArena(source, Fs(), target);
      var parent := ParentOf(target);
      if parent.Err? {
        return Err(parent.error);
      }
      Names.ParentOk(source, target);
      if present {
        r := RemoveEntry(parent.value.0, parent.value.1);
        if r.Err? {
          return;
        }
      }
      r := InsertEntry(parent.value.0, parent.value.1, node);
    }

    /** Builds the copy and puts it in the target slot; a copy that cannot be placed is dropped. */
    method CopyInto(node: Node, from: string, dereference: bool, ghost at: Components, target: string, present: bool)
      returns (r: Result<(), ErrorKind>)
      requires Valid(Fs()) && ResolvePath(Fs(), from, dereference) == Ok((node, at))
      modifies this`dirs, this`files
      ensures var tree := Ops.CopySource(old(Fs()), from, dereference);
              Carried(old(Fs()),
                      if tree.Ok? then Ops.PlaceCopy(old(Fs()), tree.value, target, present) else Err(tree.error),
                      r, Fs())
    {
      ghost var source := Fs();
      ResolvedIsWalk(source, AbsoluteComponents(from).value, ROOT, [], dereference, 0);
      var dirCount, fileCount := |dirs|, |files|;
      var copied := CopyNode(source, node, from, dereference, at, {}, 0);
      if copied.Err? {
        return Err(copied.error);
      }
      ghost var tree := Ops.CopySource(source, from, dereference).value;
      r := PlaceCopy(copied.value, target, present, source, tree);
      if r.Err? {
        dirs := dirs[..dirCount];
        files := files[..fileCount];
      }
    }

    method Copy(from: string, to: string, options: Ops.CopyOptions) returns (r: Result<(), ErrorKind>)
      requires Valid(Fs())
      modifies this`dirs, this`files
      ensures Carried(old(Fs()), Ops.Copy(old(Fs()), from, to, options), r, Fs())
    {
      var components := AbsoluteComponents(from);
      if components.Err? {
        return Err(components.error);
      }
      var found := ResolveComponents(components.value, options.dereference);
      if found.Err? {
        return Err(found.error);
      }
      var node := found.value.0;
      var target := CopyTargetOf(from, to, node);
      if target.Err? {
        return Err(target.error);
      }
      var existing := ResolveAt(target.value, false);
      if existing.Ok? && options.errorOnExist {
        return Err(AlreadyExists);
      }
      if existing.Ok? && !options.force {
        return Ok(());
      }
      if node.Dir? && !options.recursive {
        return Err(IsDirectory);
      }
      r := CopyInto(node, from, options.dereference, found.value.1, target.value, existing.Ok?);
    }

    // ---- File bodies ----

    /** Overwrites in place, growing the body with zeros first when the write ends behind it. */
    method WriteBody(id: nat, offset: u64, input: Bytes, append: bool) returns (r: Result<(), ErrorKind>)
      requires id < |files|
      modifies this`files
      ensures match WriteMemory(old(files)[id], offset, input, append) {
                case Ok(bytes) => r == Ok(()) && files == old(files)[id := bytes]
                case Err(e) => r == Err(e) && files == old(files)
              }
    {
      var start := if append then |files[id]| else offset;
      var end := start + |input|;
      if end > MAX_FILE_SIZE {
        return Err(FileTooLarge);
      }
      if end > |files[id]| {
        files := files[id := Resized(files[id], end)];
      }
      OverwriteInPlace(old(files)[id], start, input);
      files := files[id := files[id][..start] + input + files[id][end..]];
      return Ok(());
    }

    method WriteNode(node: Node, offset: u64, input: Bytes, append: bool) returns (r: Result<(), ErrorKind>)
      requires NodeOk(Fs(), node)
      modifies this`files
      ensures Carried(old(Fs()), NodeWrite(old(Fs()), node, offset, input, append), r, Fs())
    {
      if node.File? && node.file.MemoryFile? {
        r := WriteBody(node.file.id, offset, input, append);
      } else {
        var refused := NodeWrite(Fs(), node, offset, input, append);
        return if refused.Ok? then Ok(()) else Err(refused.error);
      }
    }

    method ResizeNode(node: Node, size: u64) returns (r: Result<(), ErrorKind>)
      requires NodeOk(Fs(), node)
      modifies this`files
      ensures Carried(old(Fs()), NodeResize(old(Fs()), node, size), r, Fs())
    {
      if node.File? && node.file.MemoryFile? {
        if size > MAX_FILE_SIZE {
          return Err(FileTooLarge);
        }
        files := files[node.file.id := Resized(files[node.file.id], size)];
        return Ok(());
      }
      var refused := NodeResize(Fs(), node, size);
      return if refused.Ok? then Ok(()) else Err(refused.error);
    }

    // ---- Descriptors ----

    method OpenFound(node: Node, options: OpenOptions) returns (r: Result<nat, ErrorKind>)
      requires Runs.ValidState(View()) && NodeOk(Fs(), node)
      modifies this`files, this`descriptors, this`nextDescriptor
      ensures (View(), r) == OpenNode(old(View()), node, options)
    {
      if node.Dir? {
        return Err(IsDirectory);
      }
      if node.Symlink? {
        return Err(Unsupported);
      }
      if options.write && !FileWritable(node.file) {
        return Err(ReadOnly);
      }
      if options.truncate && options.write {
        var emptied := ResizeNode(node, 0);
        if emptied.Err? {
          return Err(emptied.error);
        }
      }
      var descriptor := nextDescriptor;
      if descriptor + 1 > U32_MAX {
        return Err(InvalidDescriptor);
      }
      nextDescriptor := descriptor + 1;
      descriptors := descriptors[descriptor := OpenFile(node, 0, options.read, options.write, options.append)];
      return Ok(descriptor);
    }

    /** An empty file at a free path; a body that cannot be inserted is dropped again. */
    method CreateFile(path: string) returns (r: Result<Node, ErrorKind>)
      requires Runs.ValidState(View())
      modifies this`dirs, this`files
      ensures match Create(old(Fs()), path) {
                case Ok((next, node)) => r == Ok(node) && Fs() == next && Runs.ValidState(View()) && NodeOk(next, node)
                case Err(e) => r == Err(e) && Fs() == old(Fs())
              }
    {
      Runs.CreateValid(View(), path);
      var parent := ParentOf(path);
      if parent.Err? {
        return Err(parent.error);
      }
      Names.ParentOk(Fs(), path);
      var taken := Lookup(Fs(), parent.value.0, parent.value.1);
      if taken.Err? {
        return Err(taken.error);
      }
      if taken.value.Some? {
        return Err(NotFound);
      }
      var node := File(MemoryFile(|files|));
      files := files + [[]];
      var inserted := InsertEntry(parent.value.0, parent.value.1, node);
      if inserted.Err? {
        files := files[..|files| - 1];
        return Err(inserted.error);
      }
      return Ok(node);
    }

    method Open(path: string, options: OpenOptions) returns (r: Result<nat, ErrorKind>)
      requires Runs.ValidState(View())
      modifies this
      ensures (View(), r) == VfsDescriptors.Open(old(View()), path, options)
      ensures Runs.ValidState(View())
    {
      Runs.OpenValid(View(), path, options);
      if !options.read && !options.write {
        return Err(InvalidInput);
      }
      var found := ResolveAt(path, options.followSymlinks);
      if found.Ok? {
        if options.exclusive {
          return Err(AlreadyExists);
        }
        Names.ResolvedOk(Fs(), path, options.followSymlinks);
        r := OpenFound(found.value, options);
        return;
      }
      if found.error != NotFound || !options.create {
        return Err(found.error);
      }
      var created := CreateFile(path);
      if created.Err? {
        return Err(created.error);
      }
      r := OpenFound(created.value, options);
    }

    method Close(descriptor: nat) returns (r: Result<(), ErrorKind>)
      modifies this`descriptors
      ensures (View(), r) == VfsDescriptors.Close(old(View()), descriptor)
    {
      if descriptor !in descriptors {
        return Err(InvalidDescriptor);
      }
      descriptors := descriptors - {descriptor};
      return Ok(());
    }

    method Read(descriptor: nat, request: ReadRequest, position: Option<u64>) returns (r: Result<Bytes, ErrorKind>)
      modifies this`descriptors
      ensures (View(), r) == VfsDescriptors.Read(old(View()), descriptor, request, position)
    {
      if descriptor !in descriptors {
        return Err(InvalidDescriptor);
      }
      var file := descriptors[descriptor];
      if !file.read {
        return Err(NotPermitted);
      }
      var offset := if position.Some? then position.value else file.position;
      r := NodeRead(Fs(), file.node, offset, request.length, request.random);
      if r.Ok? && position.None? {
        descriptors := descriptors[descriptor := file.(position := SaturatingAdd(offset, |r.value|))];
      }
    }

    method Write(descriptor: nat, data: Bytes, position: Option<u64>) returns (r: Result<nat, ErrorKind>)
      requires Runs.ValidState(View())
      modifies this`files, this`descriptors
      ensures (View(), r) == VfsDescriptors.Write(old(View()), descriptor, data, position)
      ensures Runs.ValidState(View())
    {
      Runs.WriteValid(View(), descriptor, data, position);
      if descriptor !in descriptors {
        return Err(InvalidDescriptor);
      }
      var file := descriptors[descriptor];
      if !file.write {
        return Err(NotPermitted);
      }
      var offset := if position.Some? then position.value else file.position;
      var written := WriteNode(file.node, offset, data, file.append);
      if written.Err? {
        return Err(written.error);
      }
      if position.None? {
        var cursor := if file.append then AsCursor(OpenSize(Fs(), file.node)) else SaturatingAdd(offset, |data|);
        descriptors := descriptors[descriptor := file.(position := cursor)];
      }
      return Ok(|data|);
    }

    method ReadV(descriptor: nat, requests: seq<ReadRequest>, position: Option<u64>)
      returns (r: Result<seq<Bytes>, ErrorKind>)
      modifies this`descriptors
      ensures (View(), r) == VfsDescriptors.ReadV(old(View()), descriptor, requests, position)
    {
      if descriptor !in descriptors {
        return Err(InvalidDescriptor);
      }
      var offset := position;
      var pieces: seq<Bytes> := [];
      var index := 0;
      assert requests[0..] == requests;
      NothingBefore(ReadEach(View(), descriptor, requests, offset));
      while index < |requests|
        invariant 0 <= index <= |requests|
        invariant VfsDescriptors.ReadV(old(View()), descriptor, requests, position)
                  == Behind(pieces, ReadEach(View(), descriptor, requests[index..], offset))
      {
        ReadEachFrom(View(), descriptor, requests, index, offset, pieces);
        var bytes := Read(descriptor, requests[index], offset);
        if bytes.Err? {
          return Err(bytes.error);
        }
        offset := Advance(offset, |bytes.value|);
        pieces := pieces + [bytes.value];
        index := index + 1;
      }
      assert requests[index..] == [] && pieces + [] == pieces;
      return Ok(pieces);
    }

    method WriteV(descriptor: nat, buffers: seq<Bytes>, position: Option<u64>) returns (r: Result<nat, ErrorKind>)
      requires Runs.ValidState(View())
      modifies this`files, this`descriptors
      ensures (View(), r) == VfsDescriptors.WriteV(old(View()), descriptor, buffers, position)
      ensures Runs.ValidState(View())
    {
      if descriptor !in descriptors {
        return Err(InvalidDescriptor);
      }
      var offset := position;
      var written: nat := 0;
      var index := 0;
      assert buffers[0..] == buffers;
      while index < |buffers|
        invariant 0 <= index <= |buffers| && Runs.ValidState(View())
        invariant VfsDescriptors.WriteV(old(View()), descriptor, buffers, position)
                  == Counted(written, WriteEach(View(), descriptor, buffers[index..], offset))
      {
        WriteEachFrom(View(), descriptor, buffers, index, offset, written);
        var count := Write(descriptor, buffers[index], offset);
        if count.Err? {
          return Err(count.error);
        }
        written := written + count.value;
        offset := Advance(offset, count.value);
        index := index + 1;
      }
      return Ok(written);
    }

    method WriteWhole(path: string, data: Bytes, append: bool) returns (r: Result<(), ErrorKind>)
      requires Runs.ValidState(View())
      modifies this
      ensures (View(), r) == WriteFile(old(View()), path, data, append)
      ensures Runs.ValidState(View())
    {
      var descriptor := Open(path, OpenOptions(false, true, append, true, false, !append, true));
      if descriptor.Err? {
        return Err(descriptor.error);
      }
      var written := Write(descriptor.value, data, None);
      var closed := Close(descriptor.value);
      return if written.Err? then Err(written.error) else closed;
    }

    method Truncate(path: string, size: u64) returns (r: Result<(), ErrorKind>)
      requires Valid(Fs())
      modifies this`files
      ensures (View(), r) == VfsDescriptors.Truncate(old(View()), path, size)
    {
      var node := ResolveAt(path, true);
      if node.Err? {
        return Err(node.error);
      }
      Names.ResolvedOk(Fs(), path, true);
      r := ResizeNode(node.value, size);
    }

    method FTruncate(descriptor: nat, size: u64) returns (r: Result<(), ErrorKind>)
      requires Runs.ValidState(View())
      modifies this`files
      ensures (View(), r) == VfsDescriptors.FTruncate(old(View()), descriptor, size)
    {
      if descriptor !in descriptors {
        return Err(InvalidDescriptor);
      }
      if !descriptors[descriptor].write {
        return Err(NotPermitted);
      }
      r := ResizeNode(descriptors[descriptor].node, size);
    }

    method CopyFile(from: string, to: string, exclusive: bool, random: Bytes) returns (r: Result<(), ErrorKind>)
      requires Runs.ValidState(View())
      modifies this
      ensures (View(), r) == VfsDescriptors.CopyFile(old(View()), from, to, exclusive, random)
      ensures Runs.ValidState(View())
    {
      var bytes := ReadAll(Fs(), from, random);
      if bytes.Err? {
        return Err(bytes.error);
      }
      if exclusive {
        var taken := ResolveAt(to, true);
        if taken.Ok? {
          return Err(AlreadyExists);
        }
      }
      r := WriteWhole(to, bytes.value, false);
    }
  }
}
