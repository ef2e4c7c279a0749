/** What can be done with the descriptor that opening a file returns, and what the file then holds. */
module VfsHandles {
  import opened Wrappers
  import opened VfsPath
  import opened VfsNodes
  import opened VfsResolve
  import opened VfsInvariant
  import opened VfsOperations
  import opened VfsNamespace
  import opened VfsEffects
  import opened VfsOutcomes
  import opened VfsDescriptors
  import opened VfsVectors
  import opened VfsRuns
  import opened VfsFileEffects

  // ---- Bytes ----

  function Least(a: nat, b: nat): nat {
    if a < b then a else b
  }

  /** At most `length` bytes from `offset` on. */
  function Slice(data: Bytes, offset: nat, length: nat): Bytes {
    data[Least(offset, |data|)..Least(offset + length, |data|)]
  }

  lemma ReadIsSlice(data: Bytes, offset: u64, length: u64)
    requires |data| <= U64_MAX
    ensures ReadBytes(data, offset, length) == Slice(data, offset, length)
  {
  }

  /** Byte by byte: the input where it was put, the old bytes elsewhere, zeros in a gap between them. */
  lemma OverwriteIs(data: Bytes, start: nat, input: Bytes, i: nat)
    ensures |Overwrite(data, start, input)| == if start + |input| < |data| then |data| else start + |input|
    ensures i < |Overwrite(data, start, input)| ==>
              Overwrite(data, start, input)[i]
              == if i >= start && i - start < |input| then input[i - start] else if i < |data| then data[i] else 0
  {
  }

  lemma ResizedIs(data: Bytes, size: nat, i: nat)
    ensures |Resized(data, size)| == size
    ensures i < size ==> Resized(data, size)[i] == if i < |data| then data[i] else 0
  {
  }

  /** The bytes of a memory or bundle file. */
  function Stored(fs: Fs, node: Node): Option<Bytes> {
    match node
    case File(MemoryFile(id)) => if id < |fs.files| then Some(fs.files[id]) else None
    case File(BundleFile(relative)) =>
      var host := HostAt(fs.host, relative);
      if host.Some? && host.value.HostFile? then Some(host.value.bytes) else None
    case _ => None
  }

  // ---- Opening ----

  predicate SomeAccess(options: OpenOptions) {
    options.read || options.write
  }

  /** What there is to open: a file that need not be refused for writing. */
  predicate Openable(fs: Fs, path: string, options: OpenOptions) {
    var node := ResolveNode(fs, path, options.followSymlinks);
    && node.Ok? && node.value.File? && !options.exclusive && SomeAccess(options)
    && (options.write ==> !node.value.file.BundleFile?)
    && (options.write && options.truncate ==> node.value.file !in {DeviceFile(Full), DeviceFile(Random)})
  }

  /**
   * Opening what exists: a new number for that very file, with the access asked for and the cursor at
   * the start. The file is emptied if it is opened for writing and truncated, and untouched otherwise.
   */
  lemma OpenExisting(s: State, path: string, options: OpenOptions)
    requires ValidState(s) && s.next < 0xFFFF_FFFF && Openable(s.fs, path, options)
    ensures var (ready, d) := Open(s, path, options);
            var node := ResolveNode(s.fs, path, options.followSymlinks).value;
            && d == Ok(s.next) && s.next in ready.descriptors && ready.next == s.next + 1
            && ready.descriptors == s.descriptors[s.next := ready.descriptors[s.next]]
            && (var file := ready.descriptors[s.next];
                && file.node == node && file.position == 0
                && (file.read <==> options.read) && (file.write <==> options.write)
                && (file.append <==> options.append))
            && ready.fs.dirs == s.fs.dirs && ready.fs.host == s.fs.host
            && (if node.file.MemoryFile? && options.write && options.truncate
                then node.file.id < |s.fs.files| && ready.fs.files == s.fs.files[node.file.id := []]
                else ready.fs == s.fs)
  {
    ResolvedOk(s.fs, path, options.followSymlinks);
    var node := ResolveNode(s.fs, path, options.followSymlinks).value;
    if node.file.MemoryFile? {
      assert Resized(s.fs.files[node.file.id], 0) == [];
    }
  }

  /** Why opening is refused; nothing changes then. */
  lemma OpenRefused(s: State, path: string, options: OpenOptions)
    requires ValidState(s) && s.next < 0xFFFF_FFFF
    ensures var node := ResolveNode(s.fs, path, options.followSymlinks);
            && (!SomeAccess(options) ==> Open(s, path, options) == (s, Err(InvalidInput)))
            && (SomeAccess(options) && node.Ok? && options.exclusive ==>
                  Open(s, path, options) == (s, Err(AlreadyExists)))
            && (SomeAccess(options) && node.Ok? && !options.exclusive && node.value.Dir? ==>
                  Open(s, path, options) == (s, Err(IsDirectory)))
            && (SomeAccess(options) && node.Ok? && !options.exclusive && node.value.Symlink? ==>
                  Open(s, path, options) == (s, Err(Unsupported)))
            && (node.Ok? && !options.exclusive && options.write && node.value.File? && node.value.file.BundleFile? ==>
                  Open(s, path, options) == (s, Err(ReadOnly)))
            && (SomeAccess(options) && node.Err? && (node.error != NotFound || !options.create) ==>
                  Open(s, path, options) == (s, Err(node.error)))
  {
  }

  /** Numbers start behind the three standard ones. */
  lemma FirstNumber(host: HostNode, path: string, options: OpenOptions)
    ensures NewState(host).descriptors == map[]
    ensures Open(NewState(host), path, options).1.Ok? ==> Open(NewState(host), path, options).1 == Ok(3)
  {
  }

  /** With no descriptor number left nothing is opened, and no descriptor changes. */
  lemma DescriptorsRunOut(s: State, path: string, options: OpenOptions)
    requires s.next == 0xFFFF_FFFF
    ensures Open(s, path, options).1.Err? && Open(s, path, options).0.descriptors == s.descriptors
    ensures Openable(s.fs, path, options) ==> Open(s, path, options).1 == Err(InvalidDescriptor)
  {
  }

  /** Opening what is missing makes a new empty file in the path's free slot, and opens that. */
  lemma OpenMissing(s: State, path: string, options: OpenOptions)
    requires ValidState(s) && s.next < 0xFFFF_FFFF && SomeAccess(options) && options.create
    requires ResolveNode(s.fs, path, options.followSymlinks) == Err(NotFound)
    ensures Open(s, path, options).1.Ok? <==> WritableSlot(s.fs, path) && Held(s.fs, path).None?
    ensures Open(s, path, options).1.Err? ==> Open(s, path, options).0 == s
    ensures WritableSlot(s.fs, path) && Held(s.fs, path).Some? ==> Open(s, path, options) == (s, Err(NotFound))
    ensures Parent(s.fs, path).Err? ==> Open(s, path, options) == (s, Err(Parent(s.fs, path).error))
    ensures Parent(s.fs, path).Ok? && !WritableSlot(s.fs, path)
            && Lookup(s.fs, Parent(s.fs, path).value.0, Parent(s.fs, path).value.1) == Ok(None)
            ==> Open(s, path, options) == (s, Err(ReadOnly))
    ensures Open(s, path, options).1.Ok? ==>
              var (ready, d) := Open(s, path, options);
              var (parent, name) := Parent(s.fs, path).value;
              && parent.MemoryDir? && parent.id < |s.fs.dirs|
              && d == Ok(s.next) && s.next in ready.descriptors
              && ready.descriptors == s.descriptors[s.next := ready.descriptors[s.next]]
              && ready.descriptors[s.next]
                 == OpenFile(File(MemoryFile(|s.fs.files|)), 0, options.read, options.write, options.append)
              && ready.fs.files == s.fs.files + [[]]
              && ready.fs.dirs == s.fs.dirs[parent.id :=
                   s.fs.dirs[parent.id][name := File(MemoryFile(|s.fs.files|))]]
              && ResolveNode(ready.fs, path, options.followSymlinks) == Ok(File(MemoryFile(|s.fs.files|)))
  {
    if Parent(s.fs, path).Ok? {
      ParentOk(s.fs, path);
    }
    if Create(s.fs, path).Ok? {
      MissingMade(s, path, options);
    }
  }

  lemma MissingMade(s: State, path: string, options: OpenOptions)
    requires ValidState(s) && s.next < 0xFFFF_FFFF && SomeAccess(options) && options.create
    requires ResolveNode(s.fs, path, options.followSymlinks) == Err(NotFound) && Create(s.fs, path).Ok?
    requires WritableSlot(s.fs, path) && Held(s.fs, path).None? && Parent(s.fs, path).value.0.id < |s.fs.dirs|
    ensures var (parent, name) := Parent(s.fs, path).value;
            var node := File(MemoryFile(|s.fs.files|));
            var made := Fs(s.fs.host, s.fs.dirs[parent.id := s.fs.dirs[parent.id][name := node]], s.fs.files + [[]]);
            && Open(s, path, options)
               == (State(made, s.descriptors[s.next := OpenFile(node, 0, options.read, options.write, options.append)],
                         s.next + 1), Ok(s.next))
            && ResolveNode(made, path, options.followSymlinks) == Ok(node)
  {
    var (parent, name) := Parent(s.fs, path).value;
    var node := File(MemoryFile(|s.fs.files|));
    var (made, _) := Create(s.fs, path).value;
    assert made.files == s.fs.files + [[]];
    PlacedResolves(s.fs, made, path, node, options.followSymlinks);
    assert Resized([], 0) == [];
    assert made.files[|s.fs.files| := []] == made.files;
  }

  // ---- What the descriptor allows ----

  /** Reading through a descriptor of a file with bytes. */
  lemma HandleReads(s: State, d: nat, length: u64, random: Bytes, position: u64)
    requires d in s.descriptors && Stored(s.fs, s.descriptors[d].node).Some?
    requires |Stored(s.fs, s.descriptors[d].node).value| <= U64_MAX
    ensures var file, data := s.descriptors[d], Stored(s.fs, s.descriptors[d].node).value;
            var request := ReadRequest(length, random);
            if file.read then
              && Read(s, d, request, Some(position)) == (s, Ok(Slice(data, position, length)))
              && (var (after, bytes) := Read(s, d, request, None);
                  && bytes == Ok(Slice(data, file.position, length)) && after.fs == s.fs
                  && after.descriptors
                     == s.descriptors[d := file.(position := SaturatingAdd(file.position, |bytes.value|))])
            else
              && Read(s, d, request, Some(position)) == (s, Err(NotPermitted))
              && Read(s, d, request, None) == (s, Err(NotPermitted))
  {
    var file, data := s.descriptors[d], Stored(s.fs, s.descriptors[d].node).value;
    ReadIsSlice(data, position, length);
    ReadIsSlice(data, file.position, length);
  }

  /** A file opened for reading gives its bytes; one that was not is not read. */
  lemma OpenedReads(s: State, path: string, options: OpenOptions, length: u64, random: Bytes, position: u64)
    requires ValidState(s) && s.next < 0xFFFF_FFFF && Openable(s.fs, path, options)
    requires !(options.write && options.truncate)
    requires Stored(s.fs, ResolveNode(s.fs, path, options.followSymlinks).value).Some?
    requires |Stored(s.fs, ResolveNode(s.fs, path, options.followSymlinks).value).value| <= U64_MAX
    ensures var data := Stored(s.fs, ResolveNode(s.fs, path, options.followSymlinks).value).value;
            var (ready, request) := (Open(s, path, options).0, ReadRequest(length, random));
            && Open(s, path, options).1 == Ok(s.next)
            && Read(ready, s.next, request, Some(position))
               == (ready, if options.read then Ok(Slice(data, position, length)) else Err(NotPermitted))
            && Read(ready, s.next, request, None).1
               == (if options.read then Ok(Slice(data, 0, length)) else Err(NotPermitted))
  {
    OpenExisting(s, path, options);
    HandleReads(Open(s, path, options).0, s.next, length, random, position);
  }

  /** A descriptor without write access writes and resizes nothing. */
  lemma OpenedRefusesWrites(s: State, path: string, options: OpenOptions, data: Bytes, position: Option<u64>, size: u64)
    requires ValidState(s) && s.next < 0xFFFF_FFFF && Openable(s.fs, path, options) && !options.write
    ensures var ready := Open(s, path, options).0;
            && Write(ready, s.next, data, position) == (ready, Err(NotPermitted))
            && FTruncate(ready, s.next, size) == (ready, Err(NotPermitted))
  {
    OpenExisting(s, path, options);
  }

  /** The state in which the file alone has other bytes. */
  predicate OnlyBody(before: Fs, after: Fs, id: nat, bytes: Bytes) {
    id < |before.files| && after == before.(files := before.files[id := bytes])
  }

  /**
   * A memory file opened for writing: in append mode every write lands behind the bytes there are,
   * otherwise where it is told to, or at the cursor. Resizing cuts the file or adds zeros.
   */
  lemma OpenedWrites(s: State, path: string, options: OpenOptions, data: Bytes, position: Option<u64>, size: u64)
    requires ValidState(s) && s.next < 0xFFFF_FFFF && Openable(s.fs, path, options) && options.write
    requires ResolveNode(s.fs, path, options.followSymlinks).value.file.MemoryFile?
    ensures var id := ResolveNode(s.fs, path, options.followSymlinks).value.file.id;
            var ready := Open(s, path, options).0;
            && id < |ready.fs.files|
            && (var bytes := ready.fs.files[id];
                var start := if options.append then |bytes| else if position.Some? then position.value else 0;
                && (if start + |data| <= 128 * 1024 * 1024 then
                      && Write(ready, s.next, data, position).1 == Ok(|data|)
                      && OnlyBody(ready.fs, Write(ready, s.next, data, position).0.fs, id,
                                  Overwrite(bytes, start, data))
                    else Write(ready, s.next, data, position) == (ready, Err(FileTooLarge)))
                && (if size <= 128 * 1024 * 1024 then
                      && FTruncate(ready, s.next, size).1 == Ok(())
                      && OnlyBody(ready.fs, FTruncate(ready, s.next, size).0.fs, id, Resized(bytes, size))
                    else FTruncate(ready, s.next, size) == (ready, Err(FileTooLarge))))
  {
    OpenExisting(s, path, options);
    ResolvedOk(s.fs, path, options.followSymlinks);
    var ready := Open(s, path, options).0;
    WriteOpen(ready, s.next, data, position);
  }

  /** Appended bytes are those behind the old ones. */
  lemma AppendIs(bytes: Bytes, data: Bytes)
    ensures Overwrite(bytes, |bytes|, data) == bytes + data
  {
  }

  // ---- Whole files ----

  /** Reading a file by its path. */
  lemma ReadAllOutcome(fs: Fs, path: string, random: Bytes)
    requires ResolveNode(fs, path, true).Ok?
    ensures var node := ResolveNode(fs, path, true).value;
            && (Stored(fs, node).Some? && |Stored(fs, node).value| <= U64_MAX ==>
                  ReadAll(fs, path, random) == Ok(Stored(fs, node).value))
            && (node.Dir? ==> ReadAll(fs, path, random) == Err(IsDirectory))
  {
    var node := ResolveNode(fs, path, true).value;
    if Stored(fs, node).Some? {
      var data := Stored(fs, node).value;
      assert data[0..|data|] == data;
    }
  }

  /** Writing a whole file over another one, or behind it. */
  lemma WriteFileOutcome(s: State, path: string, data: Bytes, append: bool)
    requires ValidState(s) && s.next < 0xFFFF_FFFF && ResolveNode(s.fs, path, true).Ok?
    requires ResolveNode(s.fs, path, true).value.File? && ResolveNode(s.fs, path, true).value.file.MemoryFile?
    ensures var id := ResolveNode(s.fs, path, true).value.file.id;
            && id < |s.fs.files|
            && (var bytes := if append then s.fs.files[id] + data else data;
                && (WriteFile(s, path, data, append).1.Ok? <==> |bytes| <= 128 * 1024 * 1024)
                && (|bytes| <= 128 * 1024 * 1024 ==>
                      OnlyBody(s.fs, WriteFile(s, path, data, append).0.fs, id, bytes)))
  {
    var options := OpenOptions(false, true, append, true, false, !append, true);
    var id := ResolveNode(s.fs, path, true).value.file.id;
    OpenExisting(s, path, options);
    OpenedWrites(s, path, options, data, None, 0);
    ResolvedOk(s.fs, path, true);
    AppendIs(s.fs.files[id], data);
    AppendIs([], data);
    assert [] + data == data;
    if !append {
      assert s.fs.files[id := []][id := data] == s.fs.files[id := data];
    }
  }

  /** What whole writes refuse. */
  lemma WriteFileRefused(s: State, path: string, data: Bytes, append: bool)
    requires ValidState(s) && s.next < 0xFFFF_FFFF && ResolveNode(s.fs, path, true).Ok?
    ensures var node := ResolveNode(s.fs, path, true).value;
            && (node.Dir? ==> WriteFile(s, path, data, append) == (s, Err(IsDirectory)))
            && (node.File? && node.file.BundleFile? ==> WriteFile(s, path, data, append) == (s, Err(ReadOnly)))
  {
    OpenRefused(s, path, OpenOptions(false, true, append, true, false, !append, true));
    ResolvedIsWalk(s.fs, AbsoluteComponents(path).value, ROOT, [], true, 0);
  }

  /** A file copied exclusively never replaces another one. */
  lemma CopyFileRefused(s: State, from: string, to: string, random: Bytes)
    requires ReadAll(s.fs, from, random).Ok? && ResolveNode(s.fs, to, true).Ok?
    ensures CopyFile(s, from, to, true, random) == (s, Err(AlreadyExists))
  {
  }

  /** Resizing by path. */
  lemma TruncateOutcome(s: State, path: string, size: u64)
    requires ValidState(s) && ResolveNode(s.fs, path, true).Ok?
    ensures var node := ResolveNode(s.fs, path, true).value;
            && (node.Dir? ==> Truncate(s, path, size) == (s, Err(IsDirectory)))
            && (node.File? && node.file.BundleFile? ==> Truncate(s, path, size) == (s, Err(ReadOnly)))
            && (node.File? && node.file.MemoryFile? ==>
                  && node.file.id < |s.fs.files|
                  && if size > 128 * 1024 * 1024 then Truncate(s, path, size) == (s, Err(FileTooLarge))
                     else Truncate(s, path, size).1 == Ok(())
                          && OnlyBody(s.fs, Truncate(s, path, size).0.fs, node.file.id,
                                      Resized(s.fs.files[node.file.id], size)))
  {
    ResolvedOk(s.fs, path, true);
  }

  // ---- Devices ----

  /** The four devices by their paths. */
  lemma DevicesNamed(fs: Fs)
    requires Valid(fs)
    ensures Walk(fs, ROOT, ["dev", "null"]) == Some(File(DeviceFile(Null)))
    ensures Walk(fs, ROOT, ["dev", "zero"]) == Some(File(DeviceFile(Zero)))
    ensures Walk(fs, ROOT, ["dev", "full"]) == Some(File(DeviceFile(Full)))
    ensures Walk(fs, ROOT, ["dev", "random"]) == Some(File(DeviceFile(Random)))
    ensures forall name :: Walk(fs, ROOT, ["dev", name]).Some? ==> name in {"null", "zero", "full", "random"}
  {
    forall name
      ensures Walk(fs, ROOT, ["dev", name]) == Step(fs, Dir(StaticDir), name)
    {
      DeviceWalk(fs, name);
    }
  }

  lemma DeviceWalk(fs: Fs, name: string)
    requires Valid(fs)
    ensures Walk(fs, ROOT, ["dev", name]) == Step(fs, Dir(StaticDir), name)
  {
    assert Step(fs, ROOT, "dev") == Some(Dir(StaticDir));
    assert ["dev"][1..] == [] && ["dev"] + [name] == ["dev", name];
    WalkSnoc(fs, ROOT, ["dev"], name);
  }

  /** What devices give and take, whatever the cursor. */
  lemma DeviceBehaves(s: State, d: nat, device: Device, length: u64, random: Bytes, data: Bytes, position: Option<u64>)
    requires d in s.descriptors && s.descriptors[d].node == File(DeviceFile(device))
    requires s.descriptors[d].read && s.descriptors[d].write
    ensures var bytes := Read(s, d, ReadRequest(length, random), position).1;
            bytes == Ok(match device
                        case Null => []
                        case Random => random
                        case _ => seq(length, _ => 0))
    ensures Read(s, d, ReadRequest(length, random), position).0.fs == s.fs
    ensures Write(s, d, data, position).0.fs == s.fs
    ensures Write(s, d, data, position).1
         == match device
            case Full => Err(NoSpace)
            case Random => Err(NotPermitted)
            case _ => Ok(|data|)
  {
  }

  /** A number that is not open is refused by everything, and nothing changes. */
  lemma UnknownRefused(s: State, d: nat, request: ReadRequest, data: Bytes, position: Option<u64>, size: u64)
    requires d !in s.descriptors
    ensures Read(s, d, request, position) == (s, Err(InvalidDescriptor))
    ensures Write(s, d, data, position) == (s, Err(InvalidDescriptor))
    ensures ReadV(s, d, [request], position) == (s, Err(InvalidDescriptor))
    ensures WriteV(s, d, [data], position) == (s, Err(InvalidDescriptor))
    ensures FTruncate(s, d, size) == (s, Err(InvalidDescriptor))
    ensures Close(s, d) == (s, Err(InvalidDescriptor))
  {
  }
}
