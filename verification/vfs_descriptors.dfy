/** Open files: cursors, append mode, and reading and writing several buffers. */
module VfsDescriptors {
  import opened Wrappers
  import opened VfsPath
  import opened VfsNodes
  import opened VfsResolve
  import opened VfsInvariant

  const U32_MAX := 0xFFFF_FFFF
  const FIRST_DESCRIPTOR := 3

  datatype OpenFile = OpenFile(node: Node, position: u64, read: bool, write: bool, append: bool)

  datatype State = State(fs: Fs, descriptors: map<nat, OpenFile>, next: nat)

  datatype OpenOptions = OpenOptions(
    read: bool, write: bool, append: bool, create: bool, exclusive: bool, truncate: bool, followSymlinks: bool)

  /** A length to read and what the entropy source would deliver to that read. */
  datatype ReadRequest = ReadRequest(length: u64, random: Bytes)

  // ---- Files behind nodes ----

  function NodeRead(fs: Fs, node: Node, offset: u64, length: u64, random: Bytes): Result<Bytes, ErrorKind> {
    match node
    case File(file) => ReadFileNode(fs, file, offset, length, random)
    case Dir(_) => Err(IsDirectory)
    case Symlink(_) => Err(Unsupported)
  }

  function NodeWrite(fs: Fs, node: Node, offset: u64, data: Bytes, append: bool): Result<Fs, ErrorKind> {
    match node
    case File(file) => WriteFileNode(fs, file, offset, data, append)
    case Dir(_) => Err(IsDirectory)
    case Symlink(_) => Err(Unsupported)
  }

  function NodeResize(fs: Fs, node: Node, size: u64): Result<Fs, ErrorKind> {
    match node
    case File(file) => ResizeFileNode(fs, file, size)
    case Dir(_) => Err(IsDirectory)
    case Symlink(_) => Err(Unsupported)
  }

  /** The size an append cursor moves to; only files are ever open. */
  function OpenSize(fs: Fs, node: Node): nat {
    if node.File? then var size := FileSize(fs, node.file); if size.Ok? then size.value else 0 else 0
  }

  /** Cursors are 64-bit, so a length read back as a cursor saturates. */
  function AsCursor(size: nat): u64 {
    SaturatingAdd(0, size)
  }

  function ReadAll(fs: Fs, path: string, random: Bytes): Result<Bytes, ErrorKind> {
    var node :- ResolveNode(fs, path, true);
    match node
    case File(file) =>
      var size :- FileSize(fs, file);
      if size > U64_MAX then Err(FileTooLarge) else ReadFileNode(fs, file, 0, size, random)
    case Dir(_) => Err(IsDirectory)
    case Symlink(_) => Err(Unsupported)
  }

  // ---- Opening and closing ----

  function OpenNode(s: State, node: Node, options: OpenOptions): (State, Result<nat, ErrorKind>) {
    if node.Dir? then (s, Err(IsDirectory))
    else if node.Symlink? then (s, Err(Unsupported))
    else if options.write && !FileWritable(node.file) then (s, Err(ReadOnly))
    else
      var emptied := if options.truncate && options.write then ResizeFileNode(s.fs, node.file, 0) else Ok(s.fs);
      match emptied
      case Err(e) => (s, Err(e))
      case Ok(fs) =>
        if s.next + 1 > U32_MAX then (s.(fs := fs), Err(InvalidDescriptor))
        else
          var file := OpenFile(node, 0, options.read, options.write, options.append);
          (State(fs, s.descriptors[s.next := file], s.next + 1), Ok(s.next))
  }

  function Open(s: State, path: string, options: OpenOptions): (State, Result<nat, ErrorKind>) {
    if !options.read && !options.write then (s, Err(InvalidInput))
    else
      match ResolveNode(s.fs, path, options.followSymlinks)
      case Ok(node) => if options.exclusive then (s, Err(AlreadyExists)) else OpenNode(s, node, options)
      case Err(error) =>
        if error != NotFound || !options.create then (s, Err(error))
        else
          match Create(s.fs, path)
          case Err(e) => (s, Err(e))
          case Ok((fs, node)) => OpenNode(s.(fs := fs), node, options)
  }

  function Create(fs: Fs, path: string): Result<(Fs, Node), ErrorKind> {
    var (parent, name) :- Parent(fs, path);
    var taken :- Lookup(fs, parent, name);
    if taken.Some? then Err(NotFound)
    else
      var (grown, node) := NewFile(fs, []);
      var next :- Insert(grown, parent, name, node);
      Ok((next, node))
  }

  function Close(s: State, descriptor: nat): (State, Result<(), ErrorKind>) {
    if descriptor in s.descriptors then (s.(descriptors := s.descriptors - {descriptor}), Ok(()))
    else (s, Err(InvalidDescriptor))
  }

  // ---- Reading and writing ----

  function Read(s: State, descriptor: nat, request: ReadRequest, position: Option<u64>)
    : (State, Result<Bytes, ErrorKind>)
  {
    if descriptor !in s.descriptors then (s, Err(InvalidDescriptor))
    else
      var file := s.descriptors[descriptor];
      if !file.read then (s, Err(NotPermitted))
      else
        var offset := if position.Some? then position.value else file.position;
        match NodeRead(s.fs, file.node, offset, request.length, request.random)
        case Err(e) => (s, Err(e))
        case Ok(bytes) =>
          if position.Some? then (s, Ok(bytes))
          else
            var moved := file.(position := SaturatingAdd(offset, |bytes|));
            (s.(descriptors := s.descriptors[descriptor := moved]), Ok(bytes))
  }

  function Write(s: State, descriptor: nat, data: Bytes, position: Option<u64>): (State, Result<nat, ErrorKind>) {
    if descriptor !in s.descriptors then (s, Err(InvalidDescriptor))
    else
      var file := s.descriptors[descriptor];
      if !file.write then (s, Err(NotPermitted))
      else
        var offset := if position.Some? then position.value else file.position;
        match NodeWrite(s.fs, file.node, offset, data, file.append)
        case Err(e) => (s, Err(e))
        case Ok(fs) =>
          if position.Some? then (s.(fs := fs), Ok(|data|))
          else
            var cursor := if file.append then AsCursor(OpenSize(fs, file.node)) else SaturatingAdd(offset, |data|);
            (State(fs, s.descriptors[descriptor := file.(position := cursor)], s.next), Ok(|data|))
  }

  function Advance(position: Option<u64>, count: nat): Option<u64> {
    match position
    case Some(value) => Some(SaturatingAdd(value, count))
    case None => None
  }

  function ReadEach(s: State, descriptor: nat, requests: seq<ReadRequest>, position: Option<u64>)
    : (State, Result<seq<Bytes>, ErrorKind>)
    decreases |requests|
  {
    if requests == [] then (s, Ok([]))
    else
      match Read(s, descriptor, requests[0], position)
      case (after, Err(e)) => (after, Err(e))
      case (after, Ok(bytes)) =>
        match ReadEach(after, descriptor, requests[1..], Advance(position, |bytes|))
        case (final, Err(e)) => (final, Err(e))
        case (final, Ok(rest)) => (final, Ok([bytes] + rest))
  }

  function ReadV(s: State, descriptor: nat, requests: seq<ReadRequest>, position: Option<u64>)
    : (State, Result<seq<Bytes>, ErrorKind>)
  {
    if descriptor !in s.descriptors then (s, Err(InvalidDescriptor)) else ReadEach(s, descriptor, requests, position)
  }

  function WriteEach(s: State, descriptor: nat, buffers: seq<Bytes>, position: Option<u64>)
    : (State, Result<nat, ErrorKind>)
    decreases |buffers|
  {
    if buffers == [] then (s, Ok(0))
    else
      match Write(s, descriptor, buffers[0], position)
      case (after, Err(e)) => (after, Err(e))
      case (after, Ok(count)) =>
        match WriteEach(after, descriptor, buffers[1..], Advance(position, count))
        case (final, Err(e)) => (final, Err(e))
        case (final, Ok(rest)) => (final, Ok(count + rest))
  }

  function WriteV(s: State, descriptor: nat, buffers: seq<Bytes>, position: Option<u64>)
    : (State, Result<nat, ErrorKind>)
  {
    if descriptor !in s.descriptors then (s, Err(InvalidDescriptor)) else WriteEach(s, descriptor, buffers, position)
  }

  function WriteFile(s: State, path: string, data: Bytes, append: bool): (State, Result<(), ErrorKind>) {
    var options := OpenOptions(false, true, append, true, false, !append, true);
    match Open(s, path, options)
    case (after, Err(e)) => (after, Err(e))
    case (ready, Ok(descriptor)) =>
      var (written, result) := Write(ready, descriptor, data, None);
      var (closed, closing) := Close(written, descriptor);
      (closed, if result.Err? then Err(result.error) else closing)
  }

  function Truncate(s: State, path: string, size: u64): (State, Result<(), ErrorKind>) {
    match ResolveNode(s.fs, path, true)
    case Err(e) => (s, Err(e))
    case Ok(node) =>
      match NodeResize(s.fs, node, size)
      case Err(e) => (s, Err(e))
      case Ok(fs) => (s.(fs := fs), Ok(()))
  }

  function FTruncate(s: State, descriptor: nat, size: u64): (State, Result<(), ErrorKind>) {
    if descriptor !in s.descriptors then (s, Err(InvalidDescriptor))
    else if !s.descriptors[descriptor].write then (s, Err(NotPermitted))
    else
      match NodeResize(s.fs, s.descriptors[descriptor].node, size)
      case Err(e) => (s, Err(e))
      case Ok(fs) => (s.(fs := fs), Ok(()))
  }

  function CopyFile(s: State, from: string, to: string, exclusive: bool, random: Bytes)
    : (State, Result<(), ErrorKind>)
  {
    match ReadAll(s.fs, from, random)
    case Err(e) => (s, Err(e))
    case Ok(bytes) =>
      if exclusive && ResolveNode(s.fs, to, true).Ok? then (s, Err(AlreadyExists))
      else WriteFile(s, to, bytes, false)
  }
}
