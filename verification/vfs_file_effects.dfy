/** What reading finds after writing, and what becomes of descriptors over a run. */
module VfsFileEffects {
  import opened Wrappers
  import opened VfsPath
  import opened VfsNodes
  import opened VfsResolve
  import opened VfsInvariant
  import opened VfsOperations
  import opened VfsNamespace
  import opened VfsDescriptors
  import opened VfsEffects
  import opened VfsVectors
  import opened VfsRuns
  import opened VfsRename

  // ---- Whole files ----

  /** Only file bodies differ, so every path means what it meant. */
  lemma {:induction false} SameDirsResolve(
    before: Fs, after: Fs, pending: Components, current: Node, resolved: Components, followFinal: bool, symlinks: nat)
    requires symlinks <= MAX_SYMLINKS && before.host == after.host && before.dirs == after.dirs
    ensures Resolve(after, pending, current, resolved, followFinal, symlinks)
         == Resolve(before, pending, current, resolved, followFinal, symlinks)
    decreases MAX_SYMLINKS - symlinks, |pending|
  {
    if pending != [] && current.Dir? {
      match Lookup(before, current.directory, pending[0])
      case Ok(Some(child)) =>
        if child.Symlink? && (followFinal || |pending| > 1) {
          if symlinks + 1 <= MAX_SYMLINKS {
            match TargetComponents(resolved, child.target)
            case Ok(next) => SameDirsResolve(before, after, next + pending[1..], ROOT, [], followFinal, symlinks + 1);
            case Err(_) =>
          }
        } else {
          SameDirsResolve(before, after, pending[1..], child, resolved + [pending[0]], followFinal, symlinks);
        }
      case _ =>
    }
  }

  lemma SameDirs(before: Fs, after: Fs, path: string)
    requires before.host == after.host && before.dirs == after.dirs
    ensures ResolveNode(after, path, true) == ResolveNode(before, path, true)
  {
    if AbsoluteComponents(path).Ok? {
      SameDirsResolve(before, after, AbsoluteComponents(path).value, ROOT, [], true, 0);
    }
  }

  const WHOLE := OpenOptions(false, true, false, true, false, true, true)

  /** A file opened for a whole write is the one its path denotes, is empty, and is written from its start. */
  lemma OpenedWhole(s: State, path: string)
    requires ValidState(s) && Open(s, path, WHOLE).1.Ok?
    ensures var (ready, handle) := Open(s, path, WHOLE);
            && handle.value == s.next && handle.value in ready.descriptors
            && var file := ready.descriptors[handle.value];
            && ResolveNode(ready.fs, path, true) == Ok(file.node) && file.write && !file.append && file.position == 0
            && (file.node.File? && file.node.file.MemoryFile? ==>
                  OpenMemory(ready, handle.value) && ready.fs.files[file.node.file.id] == [])
  {
    var (ready, handle) := Open(s, path, WHOLE);
    OpenValid(s, path, WHOLE);
    var found := ResolveNode(s.fs, path, true);
    if found.Ok? {
      SameDirs(s.fs, ready.fs, path);
    } else {
      var (fs, node) := Create(s.fs, path).value;
      CreateValid(s, path);
      CreatedResolves(s.fs, path);
      SameDirs(fs, ready.fs, path);
    }
  }

  lemma CreatedResolves(fs: Fs, path: string)
    requires Valid(fs) && Create(fs, path).Ok?
    ensures var (next, node) := Create(fs, path).value;
            ResolveNode(next, path, true) == Ok(node)
  {
    var (next, node) := Create(fs, path).value;
    ParentOk(fs, path);
    PlacedResolves(fs, next, path, node, true);
  }

  /** After a whole write the path leads to a file, and unless that is a device it reads back exactly the data. */
  lemma WriteFileReads(s: State, path: string, data: Bytes, random: Bytes)
    requires ValidState(s) && WriteFile(s, path, data, false).1.Ok?
    ensures var after := WriteFile(s, path, data, false).0.fs;
            && ResolveNode(after, path, true).Ok? && ResolveNode(after, path, true).value.File?
            && !ResolveNode(after, path, true).value.file.BundleFile?
            && (ResolveNode(after, path, true).value.file.MemoryFile? ==> ReadAll(after, path, random) == Ok(data))
  {
    var (ready, handle) := Open(s, path, WHOLE);
    OpenedWhole(s, path);
    var after := WriteFile(s, path, data, false).0.fs;
    var node := ready.descriptors[handle.value].node;
    OpenValid(s, path, WHOLE);
    WriteValid(ready, handle.value, data, None);
    SameDirs(ready.fs, after, path);
    if node.file.MemoryFile? {
      WriteOpen(ready, handle.value, data, None);
      assert Overwrite([], 0, data) == data;
      assert data[0..|data|] == data;
    }
  }

  /** A copied file reads back what the source read, unless it was copied onto a device. */
  lemma CopyFileReads(s: State, from: string, to: string, exclusive: bool, random: Bytes)
    requires ValidState(s) && CopyFile(s, from, to, exclusive, random).1.Ok?
    ensures ReadAll(s.fs, from, random).Ok?
    ensures var after := CopyFile(s, from, to, exclusive, random).0.fs;
            && ResolveNode(after, to, true).Ok? && ResolveNode(after, to, true).value.File?
            && (ResolveNode(after, to, true).value.file.MemoryFile? ==>
                  ReadAll(after, to, random) == ReadAll(s.fs, from, random))
  {
    WriteFileReads(s, to, ReadAll(s.fs, from, random).value, random);
  }

  /** A truncated memory file reads back its bytes cut, or with zeros behind them. */
  lemma TruncateReads(s: State, path: string, size: u64, random: Bytes)
    requires ValidState(s) && Truncate(s, path, size).1.Ok?
    ensures ResolveNode(s.fs, path, true).Ok? && ResolveNode(s.fs, path, true).value.File?
    ensures var after, file := Truncate(s, path, size).0.fs, ResolveNode(s.fs, path, true).value.file;
            file.MemoryFile? && file.id < |s.fs.files| ==>
              ReadAll(after, path, random) == Ok(Resized(s.fs.files[file.id], size))
  {
    var after := Truncate(s, path, size).0.fs;
    var node := ResolveNode(s.fs, path, true).value;
    SameDirs(s.fs, after, path);
    if node.file.MemoryFile? && node.file.id < |s.fs.files| {
      var bytes := after.files[node.file.id];
      assert bytes[0..|bytes|] == bytes;
    }
  }

  // ---- An empty vector behind the end ----

  lemma OpenedFresh(host: HostNode, a: string, b: string)
    requires HostNamesOk(host) && ShortNames(a, b)
    ensures ValidState(NewState(host))
    ensures var s := NewState(host);
            Open(s, PathFromComponents([TMP_NAME, a]), WHOLE).1 == Ok(s.next)
            && var ready := Open(s, PathFromComponents([TMP_NAME, a]), WHOLE).0;
               OpenMemory(ready, s.next) && ready.descriptors[s.next].write && ready.fs.files == [[]]
  {
    var s, path := NewState(host), PathFromComponents([TMP_NAME, a]);
    NewFsValid(host);
    TmpParent(s.fs, a, b);
    TmpMissing(s.fs, a, b);
    assert Create(s.fs, path).Ok?;
    OpenedWhole(s, path);
  }

  /**
   * On a new file an empty vector at position 1 does nothing, and an empty write there grows the
   * file by a zero byte.
   */
  lemma WriteVCanDiffer(host: HostNode, a: string, b: string)
    requires HostNamesOk(host) && ShortNames(a, b)
    ensures ValidState(NewState(host))
    ensures var s, d := Run(NewState(host), [OpenOp(PathFromComponents([TMP_NAME, a]), WHOLE)]), NewState(host).next;
            && d in s.descriptors && s.fs.files == [[]]
            && WriteV(s, d, [], Some(1)) == (s, Ok(0))
            && Write(s, d, [], Some(1)).0.fs.files == [[0]] && Write(s, d, [], Some(1)).1 == Ok(0)
  {
    var start, op := NewState(host), OpenOp(PathFromComponents([TMP_NAME, a]), WHOLE);
    OpenedFresh(host, a, b);
    TakeStep(start, op, []);
    var s := Apply(start, op);
    WriteOpen(s, start.next, [], Some(1));
    assert Overwrite([], 1, []) == [0];
    assert [op] + [] == [op];
  }

  // ---- Descriptors over a run ----

  /** Descriptors that an operation may add are new ones. */
  ghost predicate OnlyNewer(before: State, after: State) {
    before.next <= after.next
    && forall d :: d in after.descriptors ==> d in before.descriptors || d >= before.next
  }

  lemma {:induction false} ReadEachNewer(s: State, descriptor: nat, requests: seq<ReadRequest>, position: Option<u64>)
    ensures OnlyNewer(s, ReadEach(s, descriptor, requests, position).0)
    decreases |requests|
  {
    if requests != [] {
      var (after, bytes) := Read(s, descriptor, requests[0], position);
      if bytes.Ok? {
        ReadEachNewer(after, descriptor, requests[1..], Advance(position, |bytes.value|));
      }
    }
  }

  lemma {:induction false} WriteEachNewer(s: State, descriptor: nat, buffers: seq<Bytes>, position: Option<u64>)
    ensures OnlyNewer(s, WriteEach(s, descriptor, buffers, position).0)
    decreases |buffers|
  {
    if buffers != [] {
      var (after, count) := Write(s, descriptor, buffers[0], position);
      if count.Ok? {
        WriteEachNewer(after, descriptor, buffers[1..], Advance(position, count.value));
      }
    }
  }

  lemma OpenNewer(s: State, path: string, options: OpenOptions)
    ensures OnlyNewer(s, Open(s, path, options).0)
    ensures Open(s, path, options).1.Ok? ==> Open(s, path, options).1.value == s.next
  {
  }

  lemma WriteFileNewer(s: State, path: string, data: Bytes, append: bool)
    ensures OnlyNewer(s, WriteFile(s, path, data, append).0)
  {
    OpenNewer(s, path, OpenOptions(false, true, append, true, false, !append, true));
  }

  lemma ApplyNewer(s: State, op: Op)
    requires Valid(s.fs)
    ensures OnlyNewer(s, Apply(s, op))
  {
    match op
    case CopyFileOp(from, to, exclusive, random) =>
      if ReadAll(s.fs, from, random).Ok? {
        WriteFileNewer(s, to, ReadAll(s.fs, from, random).value, false);
      }
    case WriteFileOp(path, data, append) => WriteFileNewer(s, path, data, append);
    case OpenOp(path, options) => OpenNewer(s, path, options);
    case ReadVOp(descriptor, requests, position) => ReadEachNewer(s, descriptor, requests, position);
    case WriteVOp(descriptor, buffers, position) => WriteEachNewer(s, descriptor, buffers, position);
    case _ =>
  }

  lemma {:induction false} RunNewer(s: State, ops: seq<Op>)
    requires ValidState(s) && OpsOk(ops)
    ensures OnlyNewer(s, Run(s, ops))
    decreases |ops|
  {
    if ops != [] {
      VfsRuns.ApplyValid(s, ops[0]);
      ApplyNewer(s, ops[0]);
      RunNewer(Apply(s, ops[0]), ops[1..]);
    }
  }

  /**
   * A closed descriptor is dead for good: after any further run, whatever is opened in it, using its
   * number is refused. No other descriptor is touched by closing it.
   */
  lemma ClosedStaysClosed(s: State, descriptor: nat, ops: seq<Op>, data: Bytes, position: Option<u64>)
    requires ValidState(s) && descriptor in s.descriptors && OpsOk(ops)
    ensures ValidState(Close(s, descriptor).0)
    ensures var later := Run(Close(s, descriptor).0, ops);
            && descriptor !in later.descriptors
            && Write(later, descriptor, data, position) == (later, Err(InvalidDescriptor))
            && Close(later, descriptor) == (later, Err(InvalidDescriptor))
    ensures forall other :: other in s.descriptors && other != descriptor ==>
              other in Close(s, descriptor).0.descriptors
              && Close(s, descriptor).0.descriptors[other] == s.descriptors[other]
  {
    RunNewer(Close(s, descriptor).0, ops);
  }
}
