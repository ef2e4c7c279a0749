/** Every public mutation, and what holds after any sequence of them. */
module VfsRuns {
  import opened Wrappers
  import opened VfsPath
  import opened VfsNodes
  import opened VfsResolve
  import opened VfsInvariant
  import opened VfsCopy
  import opened VfsOperations
  import opened VfsNamespace
  import opened VfsCopyEffects
  import opened VfsDescriptors

  datatype Op =
    | MkdirOp(path: string, recursive: bool)
    | RemoveOp(path: string, recursive: bool, force: bool)
    | RemoveDirectoryOp(path: string, recursive: bool)
    | RemoveFileOp(path: string)
    | RenameOp(from: string, to: string)
    | CopyFileOp(from: string, to: string, exclusive: bool, random: Bytes)
    | CopyOp(from: string, to: string, copyOptions: CopyOptions)
    | LinkOp(existing: string, path: string)
    | MakeTempDirOp(prefix: string, attempts: seq<Bytes>)
    | SymlinkOp(target: string, path: string)
    | WriteFileOp(path: string, data: Bytes, append: bool)
    | OpenOp(path: string, openOptions: OpenOptions)
    | CloseOp(descriptor: nat)
    | ReadOp(descriptor: nat, request: ReadRequest, position: Option<u64>)
    | WriteOp(descriptor: nat, data: Bytes, position: Option<u64>)
    | ReadVOp(descriptor: nat, requests: seq<ReadRequest>, position: Option<u64>)
    | WriteVOp(descriptor: nat, buffers: seq<Bytes>, position: Option<u64>)
    | TruncateOp(path: string, size: u64)
    | FTruncateOp(descriptor: nat, size: u64)

  /** Draws from the entropy source are six bytes each. */
  predicate OpOk(op: Op) {
    op.MakeTempDirOp? ==> forall i :: 0 <= i < |op.attempts| ==> |op.attempts[i]| == 6
  }

  function Commit(s: State, outcome: Result<Fs, ErrorKind>): State {
    if outcome.Ok? then s.(fs := outcome.value) else s
  }

  /** Operations on names: they leave the descriptor table as it is. */
  predicate OnNames(op: Op) {
    || op.MkdirOp? || op.RemoveOp? || op.RemoveDirectoryOp? || op.RemoveFileOp? || op.RenameOp? || op.LinkOp?
    || op.SymlinkOp? || op.MakeTempDirOp? || op.CopyOp?
  }

  /** The outcome of an operation on names. */
  function NamesOutcome(fs: Fs, op: Op): Result<Fs, ErrorKind>
    requires Valid(fs) && OnNames(op)
  {
    match op
    case MkdirOp(path, recursive) => Mkdir(fs, path, recursive)
    case RemoveOp(path, recursive, force) => RemovePath(fs, path, recursive, force)
    case RemoveDirectoryOp(path, recursive) => RemoveDirectory(fs, path, recursive)
    case RemoveFileOp(path) => RemoveFile(fs, path)
    case RenameOp(from, to) => Rename(fs, from, to)
    case CopyOp(from, to, options) => Copy(fs, from, to, options)
    case LinkOp(existing, path) => Link(fs, existing, path)
    case SymlinkOp(target, path) => MakeSymlink(fs, target, path)
    case MakeTempDirOp(prefix, attempts) =>
      var made :- MakeTempDir(fs, prefix, attempts);
      Ok(made.0)
  }

  function Apply(s: State, op: Op): State
    requires Valid(s.fs)
  {
    if OnNames(op) then Commit(s, NamesOutcome(s.fs, op))
    else
      match op
      case CopyFileOp(from, to, exclusive, random) => CopyFile(s, from, to, exclusive, random).0
      case WriteFileOp(path, data, append) => WriteFile(s, path, data, append).0
      case OpenOp(path, options) => Open(s, path, options).0
      case CloseOp(descriptor) => Close(s, descriptor).0
      case ReadOp(descriptor, request, position) => Read(s, descriptor, request, position).0
      case WriteOp(descriptor, data, position) => Write(s, descriptor, data, position).0
      case ReadVOp(descriptor, requests, position) => ReadV(s, descriptor, requests, position).0
      case WriteVOp(descriptor, buffers, position) => WriteV(s, descriptor, buffers, position).0
      case TruncateOp(path, size) => Truncate(s, path, size).0
      case FTruncateOp(descriptor, size) => FTruncate(s, descriptor, size).0
  }

  // ---- The invariant with descriptors ----

  ghost predicate OpenOk(fs: Fs, node: Node) {
    node.File? && NodeOk(fs, node)
  }

  ghost predicate ValidState(s: State) {
    && Valid(s.fs)
    && FIRST_DESCRIPTOR <= s.next <= U32_MAX
    && forall d :: d in s.descriptors ==> d < s.next && OpenOk(s.fs, s.descriptors[d].node)
  }

  function NewState(host: HostNode): State {
    State(NewFs(host), map[], FIRST_DESCRIPTOR)
  }

  lemma ResizeValid(fs: Fs, node: Node, size: u64)
    requires Valid(fs) && NodeResize(fs, node, size).Ok?
    ensures var next := NodeResize(fs, node, size).value;
            Valid(next) && |next.files| == |fs.files| && next.host == fs.host
  {
    if node.file.MemoryFile? {
      WithFileValid(fs, node.file.id, Resized(FileBytes(fs, node.file.id), size));
    }
  }

  lemma NodeWriteValid(fs: Fs, node: Node, offset: u64, data: Bytes, append: bool)
    requires Valid(fs) && NodeWrite(fs, node, offset, data, append).Ok?
    ensures var next := NodeWrite(fs, node, offset, data, append).value;
            Valid(next) && |next.files| == |fs.files| && next.host == fs.host
  {
    if node.file.MemoryFile? {
      WithFileValid(fs, node.file.id, WriteMemory(FileBytes(fs, node.file.id), offset, data, append).value);
    }
  }

  lemma OpenNodeValid(s: State, node: Node, options: OpenOptions)
    requires ValidState(s) && NodeOk(s.fs, node)
    ensures ValidState(OpenNode(s, node, options).0) && OpenNode(s, node, options).0.fs.host == s.fs.host
  {
    if node.File? && ResizeFileNode(s.fs, node.file, 0).Ok? {
      ResizeValid(s.fs, node, 0);
    }
  }

  lemma CreateValid(s: State, path: string)
    requires ValidState(s)
    ensures match Create(s.fs, path) {
              case Ok((fs, node)) => ValidState(s.(fs := fs)) && NodeOk(fs, node) && fs.host == s.fs.host
              case Err(_) => true
            }
  {
    if Create(s.fs, path).Ok? {
      ParentOk(s.fs, path);
      NewFileValid(s.fs, []);
      var (parent, name) := Parent(s.fs, path).value;
      var (grown, node) := NewFile(s.fs, []);
      InsertValid(grown, parent, name, node);
    }
  }

  lemma OpenValid(s: State, path: string, options: OpenOptions)
    requires ValidState(s)
    ensures ValidState(Open(s, path, options).0) && Open(s, path, options).0.fs.host == s.fs.host
  {
    match ResolveNode(s.fs, path, options.followSymlinks)
    case Ok(node) =>
      ResolvedOk(s.fs, path, options.followSymlinks);
      OpenNodeValid(s, node, options);
    case Err(_) =>
      CreateValid(s, path);
      match Create(s.fs, path)
      case Ok((fs, node)) => OpenNodeValid(s.(fs := fs), node, options);
      case Err(_) =>
  }

  lemma WriteValid(s: State, descriptor: nat, data: Bytes, position: Option<u64>)
    requires ValidState(s)
    ensures ValidState(Write(s, descriptor, data, position).0)
    ensures Write(s, descriptor, data, position).0.fs.host == s.fs.host
  {
    if descriptor in s.descriptors {
      var file := s.descriptors[descriptor];
      var offset := if position.Some? then position.value else file.position;
      if NodeWrite(s.fs, file.node, offset, data, file.append).Ok? {
        NodeWriteValid(s.fs, file.node, offset, data, file.append);
      }
    }
  }

  lemma {:induction false} WriteEachValid(s: State, descriptor: nat, buffers: seq<Bytes>, position: Option<u64>)
    requires ValidState(s)
    ensures var next := WriteEach(s, descriptor, buffers, position).0;
            ValidState(next) && next.fs.host == s.fs.host
    decreases |buffers|
  {
    if buffers != [] {
      WriteValid(s, descriptor, buffers[0], position);
      var (after, result) := Write(s, descriptor, buffers[0], position);
      if result.Ok? {
        WriteEachValid(after, descriptor, buffers[1..], Advance(position, result.value));
      }
    }
  }

  lemma {:induction false} ReadEachValid(s: State, descriptor: nat, requests: seq<ReadRequest>, position: Option<u64>)
    requires ValidState(s)
    ensures ValidState(ReadEach(s, descriptor, requests, position).0)
    ensures ReadEach(s, descriptor, requests, position).0.fs == s.fs
    decreases |requests|
  {
    if requests != [] {
      var (after, result) := Read(s, descriptor, requests[0], position);
      if result.Ok? {
        ReadEachValid(after, descriptor, requests[1..], Advance(position, |result.value|));
      }
    }
  }

  lemma WriteFileValid(s: State, path: string, data: Bytes, append: bool)
    requires ValidState(s)
    ensures ValidState(WriteFile(s, path, data, append).0) && WriteFile(s, path, data, append).0.fs.host == s.fs.host
  {
    var options := OpenOptions(false, true, append, true, false, !append, true);
    OpenValid(s, path, options);
    var (after, result) := Open(s, path, options);
    if result.Ok? {
      WriteValid(after, result.value, data, None);
    }
  }

  // ---- One step ----

  lemma {:induction false} MkdirFromFrame(fs: Fs, directory: Directory, components: Components)
    requires MkdirFrom(fs, directory, components).Ok?
    ensures var next := MkdirFrom(fs, directory, components).value;
            next.files == fs.files && next.host == fs.host
    decreases |components|
  {
    if components != [] {
      match Lookup(fs, directory, components[0]).value
      case Some(node) => MkdirFromFrame(fs, node.directory, components[1..]);
      case None =>
        var (grown, child) := NewDirectory(fs);
        MkdirFromFrame(Insert(grown, directory, components[0], child).value, child.directory, components[1..]);
    }
  }

  lemma {:induction false} MakeTempFrame(fs: Fs, prefix: string, parent: Directory, name: string, attempts: seq<Bytes>)
    requires MakeTempFrom(fs, prefix, parent, name, attempts).Ok?
    ensures var next := MakeTempFrom(fs, prefix, parent, name, attempts).value.0;
            next.files == fs.files && next.host == fs.host
    decreases |attempts|
  {
    if Lookup(fs, parent, name + RandomSuffix(attempts[0])).value.Some? {
      MakeTempFrame(fs, prefix, parent, name, attempts[1..]);
    }
  }

  /** What an outcome on names must satisfy for the state to stay valid. */
  ghost predicate GoodOutcome(fs: Fs, outcome: Result<Fs, ErrorKind>) {
    outcome.Ok? ==> Valid(outcome.value) && |fs.files| <= |outcome.value.files| && outcome.value.host == fs.host
  }

  lemma MkdirStep(fs: Fs, path: string, recursive: bool)
    requires Valid(fs)
    ensures GoodOutcome(fs, Mkdir(fs, path, recursive))
  {
    if Mkdir(fs, path, recursive).Ok? {
      MkdirValid(fs, path, recursive);
      var components := AbsoluteComponents(path).value;
      if recursive && MkdirFrom(fs, ROOT.directory, components).Ok? {
        MkdirFromFrame(fs, ROOT.directory, components);
      }
    }
  }

  lemma RemoveStep(fs: Fs, path: string, recursive: bool, force: bool)
    requires Valid(fs)
    ensures GoodOutcome(fs, RemovePath(fs, path, recursive, force))
  {
    if RemovePath(fs, path, recursive, force).Ok? {
      RemovePathValid(fs, path, recursive, force);
    }
  }

  lemma RenameStep(fs: Fs, from: string, to: string)
    requires Valid(fs)
    ensures GoodOutcome(fs, Rename(fs, from, to))
  {
    if Rename(fs, from, to).Ok? {
      RenameValid(fs, from, to);
      if !SamePath(from, to) {
        RenameEffect(fs, from, to);
      }
    }
  }

  lemma LinkStep(fs: Fs, existing: string, target: string, path: string)
    requires Valid(fs)
    ensures GoodOutcome(fs, Link(fs, existing, path))
    ensures GoodOutcome(fs, MakeSymlink(fs, target, path))
  {
    if Link(fs, existing, path).Ok? {
      LinkValid(fs, existing, path);
    }
    if MakeSymlink(fs, target, path).Ok? {
      InsertNewValid(fs, path, Symlink(target));
    }
  }

  lemma MakeTempStep(fs: Fs, prefix: string, attempts: seq<Bytes>)
    requires Valid(fs) && MakeTempDir(fs, prefix, attempts).Ok? && OpOk(MakeTempDirOp(prefix, attempts))
    ensures GoodOutcome(fs, Ok(MakeTempDir(fs, prefix, attempts).value.0))
  {
    ParentOk(fs, prefix);
    var (parent, name) := Parent(fs, prefix).value;
    MakeTempValid(fs, prefix, parent, name, attempts);
    MakeTempFrame(fs, prefix, parent, name, attempts);
  }

  lemma CopyStep(fs: Fs, from: string, to: string, options: CopyOptions)
    requires Valid(fs)
    ensures GoodOutcome(fs, Copy(fs, from, to, options))
  {
    if Copy(fs, from, to, options).Ok? {
      CopyValid(fs, from, to, options);
      if CopyMade(fs, from, to, options) {
        CopyEffect(fs, from, to, options, []);
      }
    }
  }

  lemma CommitValid(s: State, outcome: Result<Fs, ErrorKind>)
    requires ValidState(s) && GoodOutcome(s.fs, outcome)
    ensures ValidState(Commit(s, outcome)) && Commit(s, outcome).fs.host == s.fs.host
  {
  }

  lemma NamesValid(fs: Fs, op: Op)
    requires Valid(fs) && OnNames(op) && OpOk(op)
    ensures GoodOutcome(fs, NamesOutcome(fs, op))
  {
    match op
    case MkdirOp(path, recursive) => MkdirStep(fs, path, recursive);
    case RemoveOp(path, recursive, force) => RemoveStep(fs, path, recursive, force);
    case RemoveDirectoryOp(path, recursive) => RemoveStep(fs, path, recursive, false);
    case RemoveFileOp(path) => RemoveStep(fs, path, false, false);
    case RenameOp(from, to) => RenameStep(fs, from, to);
    case LinkOp(existing, path) => LinkStep(fs, existing, "", path);
    case SymlinkOp(target, path) => LinkStep(fs, "", target, path);
    case MakeTempDirOp(prefix, attempts) =>
      if MakeTempDir(fs, prefix, attempts).Ok? {
        MakeTempStep(fs, prefix, attempts);
      }
    case CopyOp(from, to, options) => CopyStep(fs, from, to, options);
  }

  lemma FilesValid(s: State, op: Op)
    requires ValidState(s) && OpOk(op) && !OnNames(op)
    ensures ValidState(Apply(s, op)) && Apply(s, op).fs.host == s.fs.host
  {
    match op
    case CopyFileOp(from, to, exclusive, random) =>
      match ReadAll(s.fs, from, random) {
        case Ok(bytes) => WriteFileValid(s, to, bytes, false);
        case Err(_) =>
      }
    case WriteFileOp(path, data, append) => WriteFileValid(s, path, data, append);
    case OpenOp(path, options) => OpenValid(s, path, options);
    case CloseOp(descriptor) =>
    case ReadOp(descriptor, request, position) =>
    case WriteOp(descriptor, data, position) => WriteValid(s, descriptor, data, position);
    case ReadVOp(descriptor, requests, position) => ReadEachValid(s, descriptor, requests, position);
    case WriteVOp(descriptor, buffers, position) => WriteEachValid(s, descriptor, buffers, position);
    case TruncateOp(path, size) =>
      if ResolveNode(s.fs, path, true).Ok? && NodeResize(s.fs, ResolveNode(s.fs, path, true).value, size).Ok? {
        ResizeValid(s.fs, ResolveNode(s.fs, path, true).value, size);
      }
    case FTruncateOp(descriptor, size) =>
      if descriptor in s.descriptors && NodeResize(s.fs, s.descriptors[descriptor].node, size).Ok? {
        ResizeValid(s.fs, s.descriptors[descriptor].node, size);
      }
  }

  lemma ApplyValid(s: State, op: Op)
    requires ValidState(s) && OpOk(op)
    ensures ValidState(Apply(s, op)) && Apply(s, op).fs.host == s.fs.host
  {
    if OnNames(op) {
      NamesValid(s.fs, op);
      CommitValid(s, NamesOutcome(s.fs, op));
    } else {
      FilesValid(s, op);
    }
  }

  // ---- Runs ----

  ghost predicate OpsOk(ops: seq<Op>) {
    forall i :: 0 <= i < |ops| ==> OpOk(ops[i])
  }

  ghost function Run(s: State, ops: seq<Op>): (r: State)
    requires ValidState(s) && OpsOk(ops)
    ensures ValidState(r) && r.fs.host == s.fs.host
    decreases |ops|
  {
    if ops == [] then s
    else
      ApplyValid(s, ops[0]);
      Run(Apply(s, ops[0]), ops[1..])
  }

  /** The part of the namespace under the bundle, as the host tree gives it. */
  function HostShown(host: HostNode, names: Components): Option<Shown> {
    match HostAt(host, names)
    case Some(HostFile(bytes)) => Some(ShownFile(bytes))
    case Some(HostDir(_)) => Some(ShownDir)
    case _ => None
  }

  lemma FileWalk(fs: Fs, node: Node, names: Components)
    requires !node.Dir?
    ensures Walk(fs, node, names) == if names == [] then Some(node) else None
  {
  }

  lemma {:induction false} BundleWalk(fs: Fs, relative: Components, names: Components)
    requires HostAt(fs.host, relative).Some? && HostAt(fs.host, relative).value.HostDir?
    ensures ShownAt(fs, Dir(BundleDir(relative)), names) == HostShown(HostAt(fs.host, relative).value, names)
    decreases |names|
  {
    if names != [] {
      HostAtSnoc(fs.host, relative, names[0]);
      match HostAt(fs.host, relative + [names[0]])
      case Some(HostDir(_)) => BundleWalk(fs, relative + [names[0]], names[1..]);
      case Some(HostFile(bytes)) =>
        var file := File(BundleFile(relative + [names[0]]));
        FileWalk(fs, file, names[1..]);
        assert Step(fs, Dir(BundleDir(relative)), names[0]) == Some(file);
        assert Content(fs, file) == ShownFile(bytes);
        assert HostAt(HostAt(fs.host, relative).value, names) == HostAt(HostFile(bytes), names[1..]);
      case Some(HostOther) =>
        assert HostAt(HostAt(fs.host, relative).value, names) == HostAt(HostOther, names[1..]);
        assert Step(fs, Dir(BundleDir(relative)), names[0]) == None;
      case None =>
        assert Step(fs, Dir(BundleDir(relative)), names[0]) == None;
    }
  }

  predicate ReachesMemory(fs: Fs, names: Components) {
    match Walk(fs, ROOT, names)
    case Some(Dir(MemoryDir(_, _))) => true
    case _ => false
  }

  /**
   * After any run from a fresh filesystem: the root holds exactly the bundle, the devices and
   * `/tmp`; every plain path under `/bundle` shows what the host tree holds; `/dev` is the device
   * table; no memory file exceeds the limit; and what the root reaches is a tree.
   */
  lemma RunKeepsNamespace(host: HostNode, ops: seq<Op>, names: Components, p: Components, q: Components)
    requires HostNamesOk(host) && host.HostDir? && OpsOk(ops)
    ensures ValidState(NewState(host))
    ensures var s := Run(NewState(host), ops);
            && s.fs.dirs[0] == map["bundle" := Dir(BundleDir([])), "dev" := Dir(StaticDir), "tmp" := TMP]
            && ShownAt(s.fs, ROOT, ["bundle"] + names) == HostShown(host, names)
            && ShownAt(s.fs, ROOT, ["dev"] + names) == ShownAt(NewFs(host), Dir(StaticDir), names)
            && (forall i :: 0 <= i < |s.fs.files| ==> |s.fs.files[i]| <= MAX_FILE_SIZE)
            && (ReachesMemory(s.fs, p) && Walk(s.fs, ROOT, p) == Walk(s.fs, ROOT, q) ==> p == q)
  {
    NewFsValid(host);
    var s := Run(NewState(host), ops);
    assert (["bundle"] + names)[1..] == names && (["dev"] + names)[1..] == names;
    assert Step(s.fs, ROOT, "bundle") == Some(Dir(BundleDir([])));
    assert Step(s.fs, ROOT, "dev") == Some(Dir(StaticDir));
    assert ShownAt(s.fs, ROOT, ["bundle"] + names) == ShownAt(s.fs, Dir(BundleDir([])), names);
    BundleWalk(s.fs, [], names);
    DeviceWalk(s.fs, NewFs(host), names);
    if ReachesMemory(s.fs, p) && Walk(s.fs, ROOT, p) == Walk(s.fs, ROOT, q) {
      TreeFromRoot(s.fs, p, q, Walk(s.fs, ROOT, p).value.directory);
    }
  }

  lemma DeviceWalk(a: Fs, b: Fs, names: Components)
    ensures ShownAt(a, Dir(StaticDir), names) == ShownAt(b, Dir(StaticDir), names)
  {
    if names != [] && names[0] in DEVICES {
      var device := DEVICES[names[0]];
      assert device.File? && device.file.DeviceFile?;
      FileWalk(a, device, names[1..]);
      FileWalk(b, device, names[1..]);
    }
  }

  /** A bundle file that a walk reaches is a file of the host tree, whichever slot it was linked to. */
  lemma BundleFileHeld(fs: Fs, names: Components, relative: Components)
    requires Valid(fs) && Walk(fs, ROOT, names) == Some(File(BundleFile(relative)))
    ensures HostBytes(fs.host, relative).Ok?
  {
    var k := |names| - 1;
    LastStep(fs, names);
    WalkOk(fs, ROOT, names[..k]);
    var node := Walk(fs, ROOT, names[..k]).value;
    if node.directory.MemoryDir? {
      assert HasSlot(fs, node.directory.id, names[k], File(BundleFile(relative)));
    }
  }

  /** A bundle file reads the same through every hard link to it, and cannot be written or resized. */
  lemma BundleFileFixed(s: State, ops: seq<Op>, path: string, relative: Components, random: Bytes)
    requires ValidState(s) && OpsOk(ops)
    requires ResolveNode(Run(s, ops).fs, path, true) == Ok(File(BundleFile(relative)))
    requires HostBytes(s.fs.host, relative).Ok? ==> |HostBytes(s.fs.host, relative).value| <= U64_MAX
    ensures HostBytes(s.fs.host, relative).Ok?
    ensures var later := Run(s, ops);
            && ReadAll(later.fs, path, random) == HostBytes(s.fs.host, relative)
            && (forall data, append :: WriteFile(later, path, data, append) == (later, Err(ReadOnly)))
            && (forall size :: Truncate(later, path, size) == (later, Err(ReadOnly)))
  {
    var components := AbsoluteComponents(path).value;
    ResolvedIsWalk(Run(s, ops).fs, components, ROOT, [], true, 0);
    BundleFileHeld(Run(s, ops).fs, ResolveFrom(Run(s, ops).fs, components, true).value.1, relative);
    var bytes := HostBytes(s.fs.host, relative).value;
    assert bytes[0..|bytes|] == bytes;
  }
}
