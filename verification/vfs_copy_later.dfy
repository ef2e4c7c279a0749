/** Writing files after a copy: what is written on one side never shows on the other. */
module VfsCopyLater {
  import opened Wrappers
  import opened VfsPath
  import opened VfsNodes
  import opened VfsResolve
  import opened VfsInvariant
  import opened VfsCopy
  import opened VfsOperations
  import opened VfsNamespace
  import opened VfsCopyEffects
  import opened VfsDescriptors
  import opened VfsRuns

  /** Only bodies from `low` on and below `high` may differ. */
  predicate BodiesKept(before: Fs, after: Fs, low: nat, high: nat) {
    && before.host == after.host && before.dirs == after.dirs && |before.files| == |after.files|
    && forall i :: 0 <= i < |before.files| && !(low <= i < high) ==> after.files[i] == before.files[i]
  }

  predicate BodyIn(node: Node, low: nat, high: nat) {
    node.File? && node.file.MemoryFile? && low <= node.file.id < high
  }

  /** An operation on bytes whose file, named by path or descriptor, lies in the range; or one that only reads. */
  predicate WritesIn(s: State, op: Op, low: nat, high: nat) {
    match op
    case ReadOp(_, _, _) => true
    case ReadVOp(_, _, _) => true
    case CloseOp(_) => true
    case WriteFileOp(path, _, _) =>
      var node := ResolveNode(s.fs, path, true); node.Ok? && BodyIn(node.value, low, high)
    case TruncateOp(path, _) =>
      var node := ResolveNode(s.fs, path, true); node.Ok? && BodyIn(node.value, low, high)
    case WriteOp(d, _, _) => d in s.descriptors && BodyIn(s.descriptors[d].node, low, high)
    case WriteVOp(d, _, _) => d in s.descriptors && BodyIn(s.descriptors[d].node, low, high)
    case FTruncateOp(d, _) => d in s.descriptors && BodyIn(s.descriptors[d].node, low, high)
    case _ => false
  }

  lemma WriteKept(s: State, descriptor: nat, data: Bytes, position: Option<u64>, low: nat, high: nat)
    requires descriptor in s.descriptors && BodyIn(s.descriptors[descriptor].node, low, high)
    ensures var after := Write(s, descriptor, data, position).0;
            && BodiesKept(s.fs, after.fs, low, high)
            && descriptor in after.descriptors && after.descriptors[descriptor].node == s.descriptors[descriptor].node
  {
  }

  lemma {:induction false} WriteEachKept(
    s: State, descriptor: nat, buffers: seq<Bytes>, position: Option<u64>, low: nat, high: nat)
    requires descriptor in s.descriptors && BodyIn(s.descriptors[descriptor].node, low, high)
    ensures BodiesKept(s.fs, WriteEach(s, descriptor, buffers, position).0.fs, low, high)
    decreases |buffers|
  {
    if buffers != [] {
      var (after, result) := Write(s, descriptor, buffers[0], position);
      WriteKept(s, descriptor, buffers[0], position, low, high);
      if result.Ok? {
        WriteEachKept(after, descriptor, buffers[1..], Advance(position, result.value), low, high);
      }
    }
  }

  lemma {:induction false} ReadEachKept(s: State, descriptor: nat, requests: seq<ReadRequest>, position: Option<u64>)
    ensures ReadEach(s, descriptor, requests, position).0.fs == s.fs
    decreases |requests|
  {
    if requests != [] {
      var (after, result) := Read(s, descriptor, requests[0], position);
      if result.Ok? {
        ReadEachKept(after, descriptor, requests[1..], Advance(position, |result.value|));
      }
    }
  }

  lemma WriteFileKept(s: State, path: string, data: Bytes, append: bool, low: nat, high: nat)
    requires WritesIn(s, WriteFileOp(path, data, append), low, high)
    ensures BodiesKept(s.fs, WriteFile(s, path, data, append).0.fs, low, high)
  {
    var options := OpenOptions(false, true, append, true, false, !append, true);
    var (ready, handle) := Open(s, path, options);
    if handle.Ok? {
      WriteKept(ready, handle.value, data, None, low, high);
    }
  }

  lemma ApplyKept(s: State, op: Op, low: nat, high: nat)
    requires ValidState(s) && WritesIn(s, op, low, high)
    ensures BodiesKept(s.fs, Apply(s, op).fs, low, high)
  {
    match op
    case WriteFileOp(path, data, append) => WriteFileKept(s, path, data, append, low, high);
    case WriteOp(d, data, position) => WriteKept(s, d, data, position, low, high);
    case WriteVOp(d, buffers, position) => WriteEachKept(s, d, buffers, position, low, high);
    case ReadVOp(d, requests, position) => ReadEachKept(s, d, requests, position);
    case _ =>
  }

  /** Every operation of the run writes, when its turn comes, only to files in the range. */
  ghost predicate RunWritesIn(s: State, ops: seq<Op>, low: nat, high: nat)
    requires ValidState(s) && OpsOk(ops)
    decreases |ops|
  {
    ops == []
    || (WritesIn(s, ops[0], low, high)
        && (VfsRuns.ApplyValid(s, ops[0]); RunWritesIn(Apply(s, ops[0]), ops[1..], low, high)))
  }

  lemma {:induction false} RunKept(s: State, ops: seq<Op>, low: nat, high: nat)
    requires ValidState(s) && OpsOk(ops) && RunWritesIn(s, ops, low, high)
    ensures BodiesKept(s.fs, Run(s, ops).fs, low, high)
    decreases |ops|
  {
    if ops != [] {
      VfsRuns.ApplyValid(s, ops[0]);
      ApplyKept(s, ops[0], low, high);
      RunKept(Apply(s, ops[0]), ops[1..], low, high);
    }
  }

  lemma NewerBodies(before: Fs, after: Fs, dirs: nat, files: nat)
    requires BodiesKept(before, after, 0, files) && dirs <= |before.dirs| && files <= |before.files|
    ensures after.dirs[dirs..|before.dirs|] == before.dirs[dirs..]
    ensures after.files[files..|before.files|] == before.files[files..]
  {
  }

  lemma CopyGrows(fs: Fs, from: string, to: string, options: CopyOptions)
    requires Valid(fs) && Copy(fs, from, to, options).Ok? && CopyMade(fs, from, to, options)
    ensures |fs.dirs| <= |Copy(fs, from, to, options).value.dirs|
    ensures |fs.files| <= |Copy(fs, from, to, options).value.files|
  {
    CopyEffect(fs, from, to, options, []);
  }

  /** Writing, truncating or appending to files older than the copy never shows in the copy. */
  lemma CopyOutlivesWrites(
    fs: Fs, from: string, to: string, options: CopyOptions, s: State, ops: seq<Op>, names: Components)
    requires Valid(fs) && Copy(fs, from, to, options).Ok? && CopyMade(fs, from, to, options)
    requires ValidState(s) && s.fs == Copy(fs, from, to, options).value
    requires OpsOk(ops) && RunWritesIn(s, ops, 0, |fs.files|)
    ensures var (parent, name) := CopySlot(fs, from, to, options.dereference).value;
            parent.MemoryDir? && Slot(s.fs, parent.id, name).Some?
            && ShownAt(Run(s, ops).fs, Slot(s.fs, parent.id, name).value, names)
               == ShownThrough(fs, ResolveNode(fs, from, options.dereference).value, from, options.dereference, names)
  {
    RunKept(s, ops, 0, |fs.files|);
    CopyGrows(fs, from, to, options);
    NewerBodies(s.fs, Run(s, ops).fs, |fs.dirs|, |fs.files|);
    CopyUnaffected(fs, from, to, options, Run(s, ops).fs, names);
  }

  /** Writing to the copy's files never shows in the source, nor on any older walk that is not through the copy. */
  lemma SourceOutlivesWrites(
    fs: Fs, from: string, to: string, options: CopyOptions, s: State, ops: seq<Op>, node: Node, names: Components)
    requires Valid(fs) && Copy(fs, from, to, options).Ok? && CopyMade(fs, from, to, options)
    requires ValidState(s) && s.fs == Copy(fs, from, to, options).value && NodeOk(fs, node)
    requires OpsOk(ops) && RunWritesIn(s, ops, |fs.files|, |s.fs.files|)
    requires CopySlot(fs, from, to, options.dereference).Ok?
    requires CopySlot(fs, from, to, options.dereference).value.0.MemoryDir?
    requires var (parent, name) := CopySlot(fs, from, to, options.dereference).value;
             forall k: nat :: k < |names| ==> StepAvoids(fs, node, names, k, (parent.id, name))
    ensures ShownAt(Run(s, ops).fs, node, names) == ShownAt(fs, node, names)
  {
    RunKept(s, ops, |fs.files|, |s.fs.files|);
    CopyEffect(fs, from, to, options, []);
    SourceUnaffected(fs, from, to, options, Run(s, ops).fs, node, names);
  }
}
