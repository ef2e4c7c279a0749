/**
 * Nodes, directories and files of the virtual filesystem. Shared directories and file bodies
 * live in two arenas; a handle is an index, so two handles alias exactly when the indices agree.
 */
module VfsNodes {
  import opened Wrappers
  import opened VfsPath
  import opened Sorting

  const MAX_FILE_SIZE := 128 * 1024 * 1024
  const U64_MAX := 0xFFFF_FFFF_FFFF_FFFF

  type Bytes = seq<bv8>
  type u64 = x: nat | x <= U64_MAX

  /** The packaged bundle: an immutable tree. `HostOther` is a host symlink or special file. */
  datatype HostNode = HostFile(bytes: Bytes) | HostDir(entries: map<string, HostNode>) | HostOther

  datatype Device = Null | Zero | Full | Random
  datatype FileNode = MemoryFile(id: nat) | BundleFile(relative: Components) | DeviceFile(device: Device)
  datatype Directory = MemoryDir(id: nat, writable: bool) | BundleDir(relative: Components) | StaticDir
  datatype Node = File(file: FileNode) | Dir(directory: Directory) | Symlink(target: string)

  type Entries = map<string, Node>

  /** Everything that names and contents depend on. */
  datatype Fs = Fs(host: HostNode, dirs: seq<Entries>, files: seq<Bytes>)

  const ROOT := Dir(MemoryDir(0, false))
  const TMP := Dir(MemoryDir(1, true))

  const DEVICES: Entries := map[
    "full" := File(DeviceFile(Full)), "null" := File(DeviceFile(Null)),
    "random" := File(DeviceFile(Random)), "zero" := File(DeviceFile(Zero))]

  const ROOT_ENTRIES: Entries := map["bundle" := Dir(BundleDir([])), "dev" := Dir(StaticDir), "tmp" := TMP]

  // ---- Reading ----

  function HostAt(host: HostNode, relative: Components): Option<HostNode> {
    if relative == [] then Some(host)
    else if host.HostDir? && relative[0] in host.entries then HostAt(host.entries[relative[0]], relative[1..])
    else None
  }

  function HostLookup(host: HostNode, relative: Components): Result<Option<Node>, ErrorKind> {
    match HostAt(host, relative)
    case None => Ok(None)
    case Some(HostFile(_)) => Ok(Some(File(BundleFile(relative))))
    case Some(HostDir(_)) => Ok(Some(Dir(BundleDir(relative))))
    case Some(HostOther) => Err(Unsupported)
  }

  function EntriesOf(fs: Fs, id: nat): Entries {
    if id < |fs.dirs| then fs.dirs[id] else map[]
  }

  function Lookup(fs: Fs, directory: Directory, name: string): Result<Option<Node>, ErrorKind> {
    match directory
    case MemoryDir(id, _) => Ok(if name in EntriesOf(fs, id) then Some(EntriesOf(fs, id)[name]) else None)
    case StaticDir => Ok(if name in DEVICES then Some(DEVICES[name]) else None)
    case BundleDir(relative) => HostLookup(fs.host, relative + [name])
  }

  /** Entry names in lexical order; listing a bundle directory fails on an unsupported entry. */
  function EntryNames(fs: Fs, directory: Directory): Result<seq<string>, ErrorKind> {
    match directory
    case MemoryDir(id, _) => Ok(Sorted(EntriesOf(fs, id).Keys))
    case StaticDir => Ok(Sorted(DEVICES.Keys))
    case BundleDir(relative) =>
      match HostAt(fs.host, relative) {
        case Some(HostDir(entries)) =>
          if exists name | name in entries.Keys :: entries[name].HostOther? then Err(Unsupported)
          else Ok(Sorted(entries.Keys))
        case Some(_) => Err(NotDirectory)
        case None => Err(NotFound)
      }
  }

  function IsEmptyDir(fs: Fs, directory: Directory): Result<bool, ErrorKind> {
    var names :- EntryNames(fs, directory);
    Ok(names == [])
  }

  predicate DirWritable(directory: Directory) {
    directory.MemoryDir? && directory.writable
  }

  function FileBytes(fs: Fs, id: nat): Bytes {
    if id < |fs.files| then fs.files[id] else []
  }

  function HostBytes(host: HostNode, relative: Components): Result<Bytes, ErrorKind> {
    match HostAt(host, relative)
    case Some(HostFile(bytes)) => Ok(bytes)
    case Some(_) => Err(IsDirectory)
    case None => Err(NotFound)
  }

  function FileSize(fs: Fs, file: FileNode): Result<nat, ErrorKind> {
    match file
    case MemoryFile(id) => Ok(|FileBytes(fs, id)|)
    case BundleFile(relative) =>
      var bytes :- HostBytes(fs.host, relative);
      Ok(|bytes|)
    case DeviceFile(_) => Ok(0)
  }

  function CheckedSize(size: nat): Result<nat, ErrorKind> {
    if size > MAX_FILE_SIZE then Err(FileTooLarge) else Ok(size)
  }

  function SaturatingAdd(a: u64, b: nat): u64 {
    if a + b > U64_MAX then U64_MAX else a + b
  }

  function Zeros(count: nat): Bytes {
    seq(count, _ => 0)
  }

  function ReadBytes(data: Bytes, offset: u64, length: u64): Bytes {
    if offset >= |data| then []
    else
      var end := SaturatingAdd(offset, length);
      data[offset..if end < |data| then end else |data|]
  }

  /** `random` stands for what the entropy source delivers to this call. */
  function ReadFileNode(fs: Fs, file: FileNode, offset: u64, length: u64, random: Bytes): Result<Bytes, ErrorKind> {
    match file
    case MemoryFile(id) => Ok(ReadBytes(FileBytes(fs, id), offset, length))
    case BundleFile(relative) =>
      var bytes :- HostBytes(fs.host, relative);
      Ok(ReadBytes(bytes, offset, length))
    case DeviceFile(Null) => Ok([])
    case DeviceFile(Random) => Ok(random)
    case DeviceFile(_) => Ok(Zeros(length))
  }

  predicate FileWritable(file: FileNode) {
    !file.BundleFile?
  }

  // ---- Changing ----

  function WithEntries(fs: Fs, id: nat, entries: Entries): Fs
    requires id < |fs.dirs|
  {
    fs.(dirs := fs.dirs[id := entries])
  }

  function Insert(fs: Fs, directory: Directory, name: string, node: Node): Result<Fs, ErrorKind> {
    if !DirWritable(directory) then Err(ReadOnly)
    else if name in EntriesOf(fs, directory.id) then Err(AlreadyExists)
    else if directory.id < |fs.dirs| then
      Ok(WithEntries(fs, directory.id, fs.dirs[directory.id][name := node]))
    else Ok(fs)
  }

  /** Removing a name that is absent changes nothing and is not an error. */
  function Remove(fs: Fs, directory: Directory, name: string): Result<Fs, ErrorKind> {
    if !DirWritable(directory) then Err(ReadOnly)
    else if directory.id < |fs.dirs| then Ok(WithEntries(fs, directory.id, fs.dirs[directory.id] - {name}))
    else Ok(fs)
  }

  function Resized(data: Bytes, size: nat): Bytes {
    if size <= |data| then data[..size] else data + Zeros(size - |data|)
  }

  /** `data` with `input` at `start`, zeros filling any gap. */
  function Overwrite(data: Bytes, start: nat, input: Bytes): (r: Bytes)
    ensures |r| == if start + |input| > |data| then start + |input| else |data|
  {
    seq(if start + |input| > |data| then start + |input| else |data|, i requires 0 <= i =>
      if start <= i < start + |input| then input[i - start] else if i < |data| then data[i] else 0)
  }

  function WriteMemory(data: Bytes, offset: u64, input: Bytes, append: bool): Result<Bytes, ErrorKind> {
    var start := if append then |data| else offset;
    if start + |input| > MAX_FILE_SIZE then Err(FileTooLarge) else Ok(Overwrite(data, start, input))
  }

  function WithFile(fs: Fs, id: nat, bytes: Bytes): Fs {
    if id < |fs.files| then fs.(files := fs.files[id := bytes]) else fs
  }

  function WriteFileNode(fs: Fs, file: FileNode, offset: u64, input: Bytes, append: bool): Result<Fs, ErrorKind> {
    match file
    case MemoryFile(id) =>
      var bytes :- WriteMemory(FileBytes(fs, id), offset, input, append);
      Ok(WithFile(fs, id, bytes))
    case BundleFile(_) => Err(ReadOnly)
    case DeviceFile(Null) => Ok(fs)
    case DeviceFile(Zero) => Ok(fs)
    case DeviceFile(Full) => Err(NoSpace)
    case DeviceFile(Random) => Err(NotPermitted)
  }

  function ResizeFileNode(fs: Fs, file: FileNode, size: u64): Result<Fs, ErrorKind> {
    match file
    case MemoryFile(id) =>
      var checked :- CheckedSize(size);
      Ok(WithFile(fs, id, Resized(FileBytes(fs, id), checked)))
    case BundleFile(_) => Err(ReadOnly)
    case DeviceFile(Null) => Ok(fs)
    case DeviceFile(Zero) => Ok(fs)
    case DeviceFile(_) => Err(NotPermitted)
  }

  function NewDirectory(fs: Fs): (Fs, Node) {
    (fs.(dirs := fs.dirs + [map[]]), Dir(MemoryDir(|fs.dirs|, true)))
  }

  function NewFile(fs: Fs, bytes: Bytes): (Fs, Node) {
    (fs.(files := fs.files + [bytes]), File(MemoryFile(|fs.files|)))
  }

  function NewFs(host: HostNode): Fs {
    Fs(host, [ROOT_ENTRIES, map[]], [])
  }
}
