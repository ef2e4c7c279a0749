/** Symbolic-link resolution and the invariant of the namespace. */
module VfsResolve {
  import opened Wrappers
  import opened VfsPath
  import opened VfsNodes

  const MAX_SYMLINKS := 40

  /**
   * What the resolution loop computes from `current`, reached through the names in `resolved`,
   * with `pending` still to do. Every link step restarts at the root, so the measure is the
   * remaining link budget first and the remaining components second.
   */
  function Resolve(fs: Fs, pending: Components, current: Node, resolved: Components, followFinal: bool, symlinks: nat)
    : Result<(Node, Components), ErrorKind>
    requires symlinks <= MAX_SYMLINKS
    decreases MAX_SYMLINKS - symlinks, |pending|
  {
    if pending == [] then Ok((current, resolved))
    else if !current.Dir? then Err(NotDirectory)
    else
      var found :- Lookup(fs, current.directory, pending[0]);
      match found
      case None => Err(NotFound)
      case Some(child) =>
        if child.Symlink? && (followFinal || |pending| > 1) then
          if symlinks + 1 > MAX_SYMLINKS then Err(SymlinkLoop)
          else
            var next :- TargetComponents(resolved, child.target);
            Resolve(fs, next + pending[1..], ROOT, [], followFinal, symlinks + 1)
        else Resolve(fs, pending[1..], child, resolved + [pending[0]], followFinal, symlinks)
  }

  function ResolveFrom(fs: Fs, components: Components, followFinal: bool): Result<(Node, Components), ErrorKind> {
    Resolve(fs, components, ROOT, [], followFinal, 0)
  }

  function ResolvePath(fs: Fs, path: string, followFinal: bool): Result<(Node, Components), ErrorKind> {
    var components :- AbsoluteComponents(path);
    ResolveFrom(fs, components, followFinal)
  }

  function ResolveNode(fs: Fs, path: string, followFinal: bool): Result<Node, ErrorKind> {
    var found :- ResolvePath(fs, path, followFinal);
    Ok(found.0)
  }

  /** The directory that holds the last component of `path`, and that component. */
  function Parent(fs: Fs, path: string): Result<(Directory, string), ErrorKind> {
    var components :- AbsoluteComponents(path);
    if components == [] then Err(InvalidInput)
    else
      var found :- ResolveFrom(fs, components[..|components| - 1], true);
      if !found.0.Dir? then Err(NotDirectory)
      else Ok((found.0.directory, components[|components| - 1]))
  }

  // ---- Plain walks ----

  function Step(fs: Fs, node: Node, name: string): Option<Node> {
    if !node.Dir? then None
    else
      match Lookup(fs, node.directory, name)
      case Ok(found) => found
      case Err(_) => None
  }

  /** Following names without ever following a link. */
  function Walk(fs: Fs, node: Node, names: Components): Option<Node>
    decreases |names|
  {
    if names == [] then Some(node)
    else
      match Step(fs, node, names[0])
      case Some(child) => Walk(fs, child, names[1..])
      case None => None
  }

  lemma {:induction false} WalkConcat(fs: Fs, node: Node, left: Components, right: Components)
    ensures Walk(fs, node, left + right) ==
            match Walk(fs, node, left) {
              case Some(middle) => Walk(fs, middle, right)
              case None => None
            }
    decreases |left|
  {
    if left == [] {
      assert left + right == right;
    } else {
      assert (left + right)[1..] == left[1..] + right;
      match Step(fs, node, left[0])
      case Some(child) => WalkConcat(fs, child, left[1..], right);
      case None =>
    }
  }

  lemma WalkSnoc(fs: Fs, node: Node, names: Components, name: string)
    ensures Walk(fs, node, names + [name]) ==
            match Walk(fs, node, names) {
              case Some(middle) => Step(fs, middle, name)
              case None => None
            }
  {
    WalkConcat(fs, node, names, [name]);
    match Walk(fs, node, names)
    case Some(middle) =>
      match Step(fs, middle, name) {
        case Some(child) => assert Walk(fs, child, [name][1..]) == Some(child);
        case None =>
      }
    case None =>
  }

  /**
   * A successful resolution returns a plain walk: its component list leads from the root to
   * the returned node without any link step, whatever links were followed on the way.
   */
  lemma {:induction false} ResolvedIsWalk(
    fs: Fs, pending: Components, current: Node, resolved: Components, followFinal: bool, symlinks: nat)
    requires symlinks <= MAX_SYMLINKS
    requires Walk(fs, ROOT, resolved) == Some(current)
    requires pending == [] && followFinal ==> !current.Symlink?
    ensures var r := Resolve(fs, pending, current, resolved, followFinal, symlinks);
            r.Ok? ==> Walk(fs, ROOT, r.value.1) == Some(r.value.0) && (followFinal ==> !r.value.0.Symlink?)
    decreases MAX_SYMLINKS - symlinks, |pending|
  {
    if pending != [] && current.Dir? {
      match Lookup(fs, current.directory, pending[0])
      case Ok(Some(child)) =>
        if child.Symlink? && (followFinal || |pending| > 1) {
          if symlinks + 1 <= MAX_SYMLINKS {
            match TargetComponents(resolved, child.target)
            case Ok(next) => ResolvedIsWalk(fs, next + pending[1..], ROOT, [], followFinal, symlinks + 1);
            case Err(_) =>
          }
        } else {
          WalkSnoc(fs, ROOT, resolved, pending[0]);
          ResolvedIsWalk(fs, pending[1..], child, resolved + [pending[0]], followFinal, symlinks);
        }
      case _ =>
    }
  }

  /** A plain walk resolves to itself, even with no link budget left. */
  lemma {:induction false} WalkResolves(
    fs: Fs, current: Node, resolved: Components, names: Components, followFinal: bool, symlinks: nat)
    requires symlinks <= MAX_SYMLINKS
    requires Walk(fs, current, names).Some?
    requires followFinal ==> names == [] || !Walk(fs, current, names).value.Symlink?
    ensures Resolve(fs, names, current, resolved, followFinal, symlinks)
            == Ok((Walk(fs, current, names).value, resolved + names))
    decreases |names|
  {
    if names == [] {
      assert resolved + names == resolved;
    } else {
      var child := Step(fs, current, names[0]).value;
      if |names| == 1 {
        assert names[1..] == [];
      }
      WalkResolves(fs, child, resolved + [names[0]], names[1..], followFinal, symlinks);
      assert resolved + [names[0]] + names[1..] == resolved + names;
    }
  }

  /**
   * Resolving a resolved list again gives the same node and the same list and follows no link:
   * it succeeds with the budget already used up.
   */
  lemma ResolveIdempotent(fs: Fs, components: Components, followFinal: bool)
    requires ResolveFrom(fs, components, followFinal).Ok?
    ensures var r := ResolveFrom(fs, components, followFinal);
            Resolve(fs, r.value.1, ROOT, [], followFinal, MAX_SYMLINKS) == r
            && ResolveFrom(fs, r.value.1, followFinal) == r
  {
    var r := ResolveFrom(fs, components, followFinal);
    ResolvedIsWalk(fs, components, ROOT, [], followFinal, 0);
    assert [] + r.value.1 == r.value.1;
    WalkResolves(fs, ROOT, [], r.value.1, followFinal, MAX_SYMLINKS);
    WalkResolves(fs, ROOT, [], r.value.1, followFinal, 0);
  }

  // ---- The final component ----

  /** Looking the last name up in what its directory's path resolved to. */
  function LookupLast(fs: Fs, found: (Node, Components), name: string): Result<(Node, Components), ErrorKind> {
    if !found.0.Dir? then Err(NotDirectory)
    else
      var child :- Lookup(fs, found.0.directory, name);
      match child
      case Some(node) => Ok((node, found.1 + [name]))
      case None => Err(NotFound)
  }

  /** Unless the last name is a link to be followed, resolving is resolving its directory and looking it up. */
  lemma {:induction false} ResolveLast(
    fs: Fs, pending: Components, name: string, current: Node, resolved: Components, followFinal: bool, symlinks: nat)
    requires symlinks <= MAX_SYMLINKS
    ensures match Resolve(fs, pending, current, resolved, true, symlinks) {
              case Ok(found) =>
                var last := LookupLast(fs, found, name);
                (followFinal && last.Ok? && last.value.0.Symlink?)
                || Resolve(fs, pending + [name], current, resolved, followFinal, symlinks) == last
              case Err(e) => Resolve(fs, pending + [name], current, resolved, followFinal, symlinks) == Err(e)
            }
    decreases MAX_SYMLINKS - symlinks, |pending|
  {
    var all := pending + [name];
    if pending == [] {
      assert all == [name];
      if current.Dir? {
        match Lookup(fs, current.directory, name)
        case Ok(Some(child)) =>
          assert Resolve(fs, all[1..], child, resolved + [name], followFinal, symlinks)
              == Ok((child, resolved + [name]));
        case _ =>
      }
    } else if current.Dir? {
      assert all[1..] == pending[1..] + [name];
      match Lookup(fs, current.directory, pending[0])
      case Ok(Some(child)) =>
        if child.Symlink? {
          if symlinks + 1 <= MAX_SYMLINKS {
            match TargetComponents(resolved, child.target)
            case Ok(next) =>
              assert next + all[1..] == (next + pending[1..]) + [name];
              ResolveLast(fs, next + pending[1..], name, ROOT, [], followFinal, symlinks + 1);
            case Err(_) =>
          }
        } else {
          ResolveLast(fs, pending[1..], name, child, resolved + [pending[0]], followFinal, symlinks);
        }
      case _ =>
    }
  }

  /** The textual form: no-follow resolution succeeds exactly when the parent does and holds the name. */
  lemma ResolveThroughParent(fs: Fs, path: string)
    ensures ResolveNode(fs, path, false).Ok? && AbsoluteComponents(path) != Ok([]) <==>
            Parent(fs, path).Ok? && Lookup(fs, Parent(fs, path).value.0, Parent(fs, path).value.1).Ok?
            && Lookup(fs, Parent(fs, path).value.0, Parent(fs, path).value.1).value.Some?
    ensures ResolveNode(fs, path, false).Ok? && AbsoluteComponents(path) != Ok([]) ==>
              Lookup(fs, Parent(fs, path).value.0, Parent(fs, path).value.1)
              == Ok(Some(ResolveNode(fs, path, false).value))
  {
    match AbsoluteComponents(path)
    case Ok(components) =>
      if components != [] {
        var k := |components| - 1;
        assert components == components[..k] + [components[k]];
        ResolveLast(fs, components[..k], components[k], ROOT, [], false, 0);
      }
    case Err(_) =>
  }

  // ---- realpath ----

  function RealPath(fs: Fs, path: string): Result<string, ErrorKind> {
    var found :- ResolvePath(fs, path, true);
    Ok(PathFromComponents(found.1))
  }

  lemma {:induction false} ResolvedValid(
    fs: Fs, pending: Components, current: Node, resolved: Components, followFinal: bool, symlinks: nat)
    requires symlinks <= MAX_SYMLINKS
    requires ValidComponents(pending) && ValidComponents(resolved)
    ensures var r := Resolve(fs, pending, current, resolved, followFinal, symlinks);
            r.Ok? ==> ValidComponents(r.value.1)
    decreases MAX_SYMLINKS - symlinks, |pending|
  {
    if pending != [] && current.Dir? {
      match Lookup(fs, current.directory, pending[0])
      case Ok(Some(child)) =>
        if child.Symlink? && (followFinal || |pending| > 1) {
          if symlinks + 1 <= MAX_SYMLINKS {
            match TargetComponents(resolved, child.target)
            case Ok(next) => ResolvedValid(fs, next + pending[1..], ROOT, [], followFinal, symlinks + 1);
            case Err(_) =>
          }
        } else {
          ResolvedValid(fs, pending[1..], child, resolved + [pending[0]], followFinal, symlinks);
        }
      case _ =>
    }
  }

  /**
   * `realpath` is stable on its own output exactly when that output is itself a legal path.
   * Links can resolve to more than 48 names, and then the output is refused as input.
   */
  lemma RealPathStable(fs: Fs, path: string)
    requires RealPath(fs, path).Ok?
    ensures var text := RealPath(fs, path).value;
            var names := ResolvePath(fs, path, true).value.1;
            RealPath(fs, text) ==
            if |names| <= MAX_PATH_SEGMENTS && |text| <= MAX_PATH_LENGTH then Ok(text) else Err(InvalidPath)
  {
    var components := AbsoluteComponents(path).value;
    var names := ResolveFrom(fs, components, true).value.1;
    var text := PathFromComponents(names);
    ResolvedValid(fs, components, ROOT, [], true, 0);
    PathRoundTrip(names);
    if |names| <= MAX_PATH_SEGMENTS && |text| <= MAX_PATH_LENGTH {
      ResolveIdempotent(fs, components, true);
    } else if |text| <= MAX_PATH_LENGTH {
      JoinSplits(names);
      assert ([""] + names)[1..] == names;
      assert ApplyParts([], [""] + names) == ApplyParts([], names);
      ApplyValid([], names);
    }
  }

  // ---- Adding entries ----

  /** `after` has every entry of `before`, and perhaps more. */
  ghost predicate Grows(before: Fs, after: Fs) {
    && before.host == after.host
    && |before.dirs| <= |after.dirs|
    && forall i, name :: 0 <= i < |before.dirs| && name in before.dirs[i] ==>
         name in after.dirs[i] && after.dirs[i][name] == before.dirs[i][name]
  }

  /** A path that resolves keeps its meaning when entries are added. */
  lemma {:induction false} ResolveGrows(
    before: Fs, after: Fs, pending: Components, current: Node, resolved: Components, followFinal: bool, symlinks: nat)
    requires symlinks <= MAX_SYMLINKS && Grows(before, after)
    requires Resolve(before, pending, current, resolved, followFinal, symlinks).Ok?
    ensures Resolve(after, pending, current, resolved, followFinal, symlinks)
            == Resolve(before, pending, current, resolved, followFinal, symlinks)
    decreases MAX_SYMLINKS - symlinks, |pending|
  {
    if pending != [] {
      var child := Lookup(before, current.directory, pending[0]).value.value;
      assert Lookup(after, current.directory, pending[0]) == Ok(Some(child));
      if child.Symlink? && (followFinal || |pending| > 1) {
        var next := TargetComponents(resolved, child.target).value;
        ResolveGrows(before, after, next + pending[1..], ROOT, [], followFinal, symlinks + 1);
      } else {
        ResolveGrows(before, after, pending[1..], child, resolved + [pending[0]], followFinal, symlinks);
      }
    }
  }

  lemma ParentGrows(before: Fs, after: Fs, path: string)
    requires Grows(before, after) && Parent(before, path).Ok?
    ensures Parent(after, path) == Parent(before, path)
  {
    var components := AbsoluteComponents(path).value;
    ResolveGrows(before, after, components[..|components| - 1], ROOT, [], true, 0);
  }
}
