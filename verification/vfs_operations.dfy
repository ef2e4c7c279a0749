/**
 * The operations on names, as transactions on the namespace: `Ok(next)` is the new state and
 * `Err` leaves the old one. The class that updates in place is proved to implement them.
 */
module VfsOperations {
  import opened Wrappers
  import opened VfsPath
  import opened VfsNodes
  import opened VfsResolve
  import opened VfsInvariant
  import opened VfsCopy

  function MkdirFrom(fs: Fs, directory: Directory, components: Components): Result<Fs, ErrorKind>
    decreases |components|
  {
    if components == [] then Ok(fs)
    else
      var found :- Lookup(fs, directory, components[0]);
      match found
      case Some(Dir(child)) => MkdirFrom(fs, child, components[1..])
      case Some(_) => Err(NotDirectory)
      case None =>
        var (grown, child) := NewDirectory(fs);
        var next :- Insert(grown, directory, components[0], child);
        MkdirFrom(next, child.directory, components[1..])
  }

  function Mkdir(fs: Fs, path: string, recursive: bool): Result<Fs, ErrorKind> {
    var components :- AbsoluteComponents(path);
    if components == [] then if recursive then Ok(fs) else Err(AlreadyExists)
    else
      match ResolveNode(fs, path, true)
      case Ok(node) => if node.Dir? && recursive then Ok(fs) else Err(AlreadyExists)
      case Err(error) =>
        if error != NotFound then Err(error)
        else if recursive then MkdirFrom(fs, ROOT.directory, components)
        else
          var (parent, name) :- Parent(fs, path);
          var (grown, child) := NewDirectory(fs);
          Insert(grown, parent, name, child)
  }

  function RemovePath(fs: Fs, path: string, recursive: bool, force: bool): Result<Fs, ErrorKind> {
    match Parent(fs, path)
    case Err(error) => if force && error == NotFound then Ok(fs) else Err(error)
    case Ok((parent, name)) =>
      var found :- Lookup(fs, parent, name);
      match found
      case None => if force then Ok(fs) else Err(NotFound)
      case Some(node) =>
        var empty :- if node.Dir? && !recursive then IsEmptyDir(fs, node.directory) else Ok(true);
        if !empty then Err(NotEmpty) else Remove(fs, parent, name)
  }

  function RemoveDirectory(fs: Fs, path: string, recursive: bool): Result<Fs, ErrorKind> {
    var node :- ResolveNode(fs, path, true);
    if !node.Dir? then Err(NotDirectory) else RemovePath(fs, path, recursive, false)
  }

  function RemoveFile(fs: Fs, path: string): Result<Fs, ErrorKind> {
    var node :- ResolveNode(fs, path, false);
    if node.Dir? then Err(IsDirectory) else RemovePath(fs, path, false, false)
  }

  /** Makes room at the destination: an empty directory or any other node there is dropped. */
  function Vacate(fs: Fs, directory: Directory, name: string): Result<Fs, ErrorKind> {
    var existing :- Lookup(fs, directory, name);
    match existing
    case None => Ok(fs)
    case Some(node) =>
      var empty :- if node.Dir? then IsEmptyDir(fs, node.directory) else Ok(true);
      if !empty then Err(NotEmpty) else Remove(fs, directory, name)
  }

  function Rename(fs: Fs, from: string, to: string): Result<Fs, ErrorKind> {
    var fromComponents :- AbsoluteComponents(from);
    var toComponents :- AbsoluteComponents(to);
    if fromComponents == toComponents then Ok(fs)
    else if fromComponents <= toComponents then Err(InvalidInput)
    else
      var (sourceParent, sourceName) :- Parent(fs, from);
      var found :- Lookup(fs, sourceParent, sourceName);
      if found.None? then Err(NotFound)
      else
        var (targetParent, targetName) :- Parent(fs, to);
        if !DirWritable(sourceParent) || !DirWritable(targetParent) then Err(ReadOnly)
        else
          var vacant :- Vacate(fs, targetParent, targetName);
          var placed :- Insert(vacant, targetParent, targetName, found.value);
          Remove(placed, sourceParent, sourceName)
  }

  function Link(fs: Fs, existing: string, path: string): Result<Fs, ErrorKind> {
    var source :- ResolveNode(fs, existing, true);
    if !source.File? || source.file.DeviceFile? then Err(Unsupported)
    else InsertNew(fs, path, source)
  }

  function MakeSymlink(fs: Fs, target: string, path: string): Result<Fs, ErrorKind> {
    if '\0' in target then Err(InvalidInput) else InsertNew(fs, path, Symlink(target))
  }

  /** Places a node at a path that must be free. */
  function InsertNew(fs: Fs, path: string, node: Node): Result<Fs, ErrorKind> {
    var (parent, name) :- Parent(fs, path);
    var taken :- Lookup(fs, parent, name);
    if taken.Some? then Err(AlreadyExists) else Insert(fs, parent, name, node)
  }

  function ReadLink(fs: Fs, path: string): Result<string, ErrorKind> {
    var node :- ResolveNode(fs, path, false);
    if node.Symlink? then Ok(node.target) else Err(InvalidInput)
  }

  /** The i-th character of the 36-character suffix alphabet. */
  function SuffixChar(i: nat): (c: char)
    requires i < 36
    ensures '0' <= c <= '9' || 'a' <= c <= 'z'
  {
    if i < 10 then '0' + i as char else 'a' + (i - 10) as char
  }

  function RandomSuffix(bytes: Bytes): (suffix: string)
    ensures |suffix| == |bytes|
    ensures forall i :: 0 <= i < |suffix| ==> '0' <= suffix[i] <= '9' || 'a' <= suffix[i] <= 'z'
  {
    seq(|bytes|, i requires 0 <= i < |bytes| => SuffixChar((bytes[i] as nat) % 36))
  }

  /** `attempts` is what the entropy source delivers, at most 100 draws. */
  function MakeTempDir(fs: Fs, prefix: string, attempts: seq<Bytes>): Result<(Fs, string), ErrorKind> {
    var (parent, name) :- Parent(fs, prefix);
    MakeTempFrom(fs, prefix, parent, name, attempts)
  }

  function MakeTempFrom(fs: Fs, prefix: string, parent: Directory, name: string, attempts: seq<Bytes>)
    : Result<(Fs, string), ErrorKind>
    decreases |attempts|
  {
    if attempts == [] then Err(AlreadyExists)
    else
      var candidate := name + RandomSuffix(attempts[0]);
      var taken :- Lookup(fs, parent, candidate);
      if taken.Some? then MakeTempFrom(fs, prefix, parent, name, attempts[1..])
      else
        var (grown, child) := NewDirectory(fs);
        var next :- Insert(grown, parent, candidate, child);
        var components :- AbsoluteComponents(prefix);
        if components == [] then Err(InvalidInput)
        else Ok((next, PathFromComponents(components[..|components| - 1] + [candidate])))
  }

  datatype CopyOptions = CopyOptions(recursive: bool, force: bool, errorOnExist: bool, dereference: bool)

  function CopyTarget(fs: Fs, from: string, to: string, source: Node): Result<string, ErrorKind> {
    var destination := ResolveNode(fs, to, true);
    if destination.Ok? && destination.value.Dir? then
      var components :- AbsoluteComponents(from);
      if components == [] then Err(InvalidInput) else Ok(ChildPath(to, components[|components| - 1]))
    else if source.Dir? && destination.Err? then
      var (_, name) :- Parent(fs, to);
      if name == "" then Err(InvalidInput) else Ok(to)
    else Ok(to)
  }

  /** The snapshot of the source, from wherever resolution found it. */
  function CopySource(fs: Fs, from: string, dereference: bool): Result<Tree, ErrorKind>
    requires Valid(fs)
  {
    var found :- ResolvePath(fs, from, dereference);
    ResolvedIsWalk(fs, AbsoluteComponents(from).value, ROOT, [], dereference, 0);
    CopyTree(fs, found.0, from, dereference, found.1, {}, 0)
  }

  function Copy(fs: Fs, from: string, to: string, options: CopyOptions): Result<Fs, ErrorKind>
    requires Valid(fs)
  {
    var source :- ResolveNode(fs, from, options.dereference);
    var target :- CopyTarget(fs, from, to, source);
    var present := ResolveNode(fs, target, false).Ok?;
    if present && options.errorOnExist then Err(AlreadyExists)
    else if present && !options.force then Ok(fs)
    else if source.Dir? && !options.recursive then Err(IsDirectory)
    else
      var tree :- CopySource(fs, from, options.dereference);
      PlaceCopy(fs, tree, target, present)
  }

  /** Plants the snapshot and puts it in the target slot, in place of what was there. */
  function PlaceCopy(fs: Fs, tree: Tree, target: string, present: bool): Result<Fs, ErrorKind> {
    var (planted, node) := Plant(fs, tree);
    var (parent, name) :- Parent(fs, target);
    var vacant :- if present then Remove(planted, parent, name) else Ok(planted);
    Insert(vacant, parent, name, node)
  }
}
