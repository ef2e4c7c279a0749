/** When a rename moves what it names, and the two ways in which it does not. */
module VfsRename {
  import opened Wrappers
  import opened VfsPath
  import opened VfsNodes
  import opened VfsResolve
  import opened VfsInvariant
  import opened VfsOperations
  import opened VfsNamespace
  import opened VfsDescriptors
  import opened VfsRuns

  // ---- Canonical slots ----

  /** The canonical names of the slot a path denotes: its directory's resolved path and its last name. */
  function CanonicalSlot(fs: Fs, path: string): Option<Components> {
    match AbsoluteComponents(path)
    case Err(_) => None
    case Ok(components) =>
      if components == [] then None
      else
        match ResolveFrom(fs, components[..|components| - 1], true)
        case Err(_) => None
        case Ok(found) => Some(found.1 + [components[|components| - 1]])
  }

  /** A path's parent is where the directory part of its canonical slot leads. */
  lemma CanonicalWalk(fs: Fs, path: string) returns (names: Components)
    requires Valid(fs) && Parent(fs, path).Ok?
    ensures CanonicalSlot(fs, path) == Some(names + [Parent(fs, path).value.1])
    ensures Walk(fs, ROOT, names) == Some(Dir(Parent(fs, path).value.0))
  {
    var components := AbsoluteComponents(path).value;
    var above := components[..|components| - 1];
    ResolvedIsWalk(fs, above, ROOT, [], true, 0);
    names := ResolveFrom(fs, above, true).value.1;
  }

  lemma SnocSame(a: Components, x: string, b: Components, y: string)
    ensures a + [x] == b + [y] <==> a == b && x == y
  {
    if a + [x] == b + [y] {
      assert (a + [x])[..|a|] == a && (b + [y])[..|b|] == b;
      assert (a + [x])[|a|] == x && (b + [y])[|b|] == y;
    }
  }

  /** The arena slots of a rename differ exactly when the canonical slots do. */
  lemma RenameFillsIff(fs: Fs, from: string, to: string)
    requires Valid(fs) && Rename(fs, from, to).Ok? && !SamePath(from, to)
    ensures var move := MoveOf(fs, from, to).value;
            && (move.source != move.target <==> CanonicalSlot(fs, from) != CanonicalSlot(fs, to))
            && (Slot(Rename(fs, from, to).value, move.target.0, move.target.1) == Some(move.node)
                <==> CanonicalSlot(fs, from) != CanonicalSlot(fs, to))
  {
    RenameEffect(fs, from, to);
    ParentOk(fs, from);
    ParentOk(fs, to);
    var (source, x) := Parent(fs, from).value;
    var (target, y) := Parent(fs, to).value;
    var a := CanonicalWalk(fs, from);
    var b := CanonicalWalk(fs, to);
    if source == target {
      TreeFromRoot(fs, a, b, source);
    }
    SnocSame(a, x, b, y);
  }

  // ---- Walks and canonical paths ----

  /**
   * A walk from the root goes through a slot only as a prefix: a directory has one plain path, so
   * the step through its slot is the canonical one.
   */
  lemma OnlyCanonical(fs: Fs, slotPath: Components, directory: Directory, names: Components, k: nat)
    requires Valid(fs) && directory.MemoryDir? && slotPath != [] && k < |names|
    requires Walk(fs, ROOT, slotPath[..|slotPath| - 1]) == Some(Dir(directory))
    requires !(slotPath <= names[..k + 1])
    requires Walk(fs, ROOT, names[..k]) == Some(Dir(directory))
    ensures names[k] != slotPath[|slotPath| - 1]
  {
    TreeFromRoot(fs, slotPath[..|slotPath| - 1], names[..k], directory);
    assert names[..k + 1] == names[..k] + [names[k]];
    assert slotPath == slotPath[..|slotPath| - 1] + [slotPath[|slotPath| - 1]];
  }

  // ---- When the node can still be reached ----

  /** A rename with the canonical paths of its two directories. */
  datatype Route = Route(move: Move, from: Components, to: Components)

  function SourcePath(r: Route): Components {
    r.from + [r.move.source.1]
  }

  function TargetPath(r: Route): Components {
    r.to + [r.move.target.1]
  }

  /** `next` is `fs` after the rename. */
  ghost predicate Taken(fs: Fs, next: Fs, r: Route) {
    && Valid(fs) && Valid(next) && OnlySlots(fs, next, {r.move.source, r.move.target})
    && r.move.source.0 > 0 && r.move.target.0 > 0 && HasSlot(fs, r.move.source.0, r.move.source.1, r.move.node)
    && Walk(fs, ROOT, r.from) == Some(Dir(MemoryDir(r.move.source.0, true)))
    && Walk(fs, ROOT, r.to) == Some(Dir(MemoryDir(r.move.target.0, true)))
    && Slot(next, r.move.source.0, r.move.source.1) == None
    && Slot(next, r.move.target.0, r.move.target.1)
       == (if r.move.source != r.move.target then Some(r.move.node) else None)
    && (forall i: nat, name, node :: HasSlot(next, i, name, node) ==>
          if (i, name) == r.move.target then node == r.move.node
          else HasSlot(fs, i, name, node) && (i, name) != r.move.source)
  }

  lemma RouteOf(fs: Fs, from: string, to: string) returns (r: Route)
    requires Valid(fs) && Rename(fs, from, to).Ok? && !SamePath(from, to)
    ensures Taken(fs, Rename(fs, from, to).value, r) && MoveOf(fs, from, to) == Some(r.move)
    ensures CanonicalSlot(fs, from) == Some(SourcePath(r)) && CanonicalSlot(fs, to) == Some(TargetPath(r))
  {
    RenameEffect(fs, from, to);
    RenameSlots(fs, from, to);
    RenameValid(fs, from, to);
    ParentOk(fs, from);
    ParentOk(fs, to);
    var a := CanonicalWalk(fs, from);
    var b := CanonicalWalk(fs, to);
    r := Route(MoveOf(fs, from, to).value, a, b);
  }

  /** The two slots' canonical paths are taken apart at their last names. */
  lemma PathEnds(r: Route)
    ensures SourcePath(r)[..|r.from|] == r.from && TargetPath(r)[..|r.to|] == r.to
  {
  }

  /** A walk that meets neither canonical path leads where it led. */
  lemma RootWalkKept(fs: Fs, next: Fs, r: Route, names: Components)
    requires Taken(fs, next, r) && Walk(fs, ROOT, names).Some?
    requires !(SourcePath(r) <= names) && !(TargetPath(r) <= names)
    ensures Walk(next, ROOT, names) == Walk(fs, ROOT, names)
  {
    var changed := {r.move.source, r.move.target};
    PathEnds(r);
    forall k: nat, slot | k < |names| && slot in changed
      ensures StepAvoids(fs, ROOT, names, k, slot)
    {
      assert names[..k + 1] <= names;
      if Walk(fs, ROOT, names[..k]) == Some(Dir(MemoryDir(slot.0, true))) {
        var path := if slot == r.move.source then SourcePath(r) else TargetPath(r);
        PrefixGrows(path, names[..k + 1], names);
        OnlyCanonical(fs, path, MemoryDir(slot.0, true), names, k);
      }
    }
    WalkKept(fs, next, changed, ROOT, names);
  }

  lemma PrefixGrows(path: Components, shorter: Components, names: Components)
    requires shorter <= names
    ensures path <= shorter ==> path <= names
  {
  }

  /** The target keeps its place and holds the node, unless it lies under the source. */
  lemma TargetHolds(fs: Fs, next: Fs, r: Route)
    requires Taken(fs, next, r) && !(SourcePath(r) <= TargetPath(r))
    ensures Walk(next, ROOT, TargetPath(r)) == Some(r.move.node)
  {
    PathEnds(r);
    PrefixGrows(SourcePath(r), r.to, TargetPath(r));
    RootWalkKept(fs, next, r, r.to);
    WalkSnoc(next, ROOT, r.to, r.move.target.1);
    if r.move.source == r.move.target {
      TreeFromRoot(fs, r.from, r.to, MemoryDir(r.move.source.0, true));
    }
  }

  /** The source's path leads nowhere afterwards, and neither does anything under it. */
  lemma SourceGone(fs: Fs, next: Fs, r: Route)
    requires Taken(fs, next, r) && SourcePath(r) <= TargetPath(r)
    ensures Walk(next, ROOT, SourcePath(r)) == None && Walk(next, ROOT, TargetPath(r)) == None
  {
    RootWalkKept(fs, next, r, r.from);
    WalkSnoc(next, ROOT, r.from, r.move.source.1);
    var rest := TargetPath(r)[|SourcePath(r)|..];
    assert TargetPath(r) == SourcePath(r) + rest;
    WalkConcat(next, ROOT, SourcePath(r), rest);
  }

  /**
   * When a rename moves what it names: the target's canonical path leads to the node afterwards if
   * and only if the source's canonical path is not a prefix of it. The operation compares only the
   * paths as written, so both two spellings of one slot and a target below the source pass its check.
   */
  lemma RenameMovesIff(fs: Fs, from: string, to: string)
    requires Valid(fs) && Rename(fs, from, to).Ok? && !SamePath(from, to)
    ensures MoveOf(fs, from, to).Some? && CanonicalSlot(fs, from).Some? && CanonicalSlot(fs, to).Some?
    ensures Walk(Rename(fs, from, to).value, ROOT, CanonicalSlot(fs, to).value) == Some(MoveOf(fs, from, to).value.node)
            <==> !(CanonicalSlot(fs, from).value <= CanonicalSlot(fs, to).value)
  {
    var next := Rename(fs, from, to).value;
    var r := RouteOf(fs, from, to);
    if SourcePath(r) <= TargetPath(r) {
      SourceGone(fs, next, r);
    } else {
      TargetHolds(fs, next, r);
    }
  }

  // ---- A directory below itself ----

  /** Within the moved directory, a walk to the target's parent is not disturbed. */
  lemma InnerWalkKept(fs: Fs, next: Fs, r: Route, rest: Components)
    requires Taken(fs, next, r) && r.to == SourcePath(r) + rest
    ensures Walk(fs, r.move.node, rest) == Some(Dir(MemoryDir(r.move.target.0, true)))
    ensures Walk(next, r.move.node, rest) == Some(Dir(MemoryDir(r.move.target.0, true)))
  {
    var s, changed := SourcePath(r), {r.move.source, r.move.target};
    PathEnds(r);
    WalkSnoc(fs, ROOT, r.from, r.move.source.1);
    WalkOk(fs, ROOT, s);
    WalkConcat(fs, ROOT, s, rest);
    forall k: nat, slot | k < |rest| && slot in changed
      ensures StepAvoids(fs, r.move.node, rest, k, slot)
    {
      if Walk(fs, r.move.node, rest[..k]) == Some(Dir(MemoryDir(slot.0, true))) {
        WalkConcat(fs, ROOT, s, rest[..k]);
        assert r.to[..|s| + k] == s + rest[..k];
        TreeFromRoot(fs, if slot == r.move.source then r.from else r.to, s + rest[..k], MemoryDir(slot.0, true));
        assert false;
      }
    }
    WalkKept(fs, next, changed, r.move.node, rest);
  }

  /** A directory moved below itself is on no path from the root. */
  lemma BelowItself(fs: Fs, next: Fs, r: Route, names: Components)
    requires Taken(fs, next, r) && SourcePath(r) <= TargetPath(r) && r.move.node.Dir?
    ensures Walk(next, ROOT, names) != Some(r.move.node)
  {
    var s, t, node := SourcePath(r), TargetPath(r), r.move.node;
    assert EntryOk(fs, node);
    if Walk(next, ROOT, names) == Some(node) {
      if r.move.source == r.move.target {
        HeldNowhere(fs, next, r);
        ReachedIsHeld(next, node.directory, names);
      } else {
        SnocSame(r.from, r.move.source.1, r.to, r.move.target.1);
        assert s <= r.to by {
          assert s == t[..|s|] == r.to[..|s|];
        }
        var rest := r.to[|s|..];
        assert r.to == s + rest;
        InnerWalkKept(fs, next, r, rest);
        WalkSnoc(next, node, rest, r.move.target.1);
        NoCycleFromRoot(next, names, rest + [r.move.target.1], node.directory);
      }
    }
  }

  /** A directory that was moved onto its own slot is held by no slot. */
  lemma HeldNowhere(fs: Fs, next: Fs, r: Route)
    requires Taken(fs, next, r) && r.move.source == r.move.target && r.move.node.Dir?
    ensures r.move.node.directory.MemoryDir? && r.move.node.directory.id > 0
    ensures forall i: nat, name :: !HasSlot(next, i, name, r.move.node)
  {
    assert EntryOk(fs, r.move.node);
    forall i: nat, name
      ensures !HasSlot(next, i, name, r.move.node)
    {
      assert HasSlot(next, i, name, r.move.node) ==> Slot(next, i, name) == Some(r.move.node);
    }
  }

  lemma ReachedIsHeld(fs: Fs, directory: Directory, names: Components)
    requires Valid(fs) && directory.MemoryDir? && directory.id > 0 && Walk(fs, ROOT, names) == Some(Dir(directory))
    ensures exists i: nat, name :: HasSlot(fs, i, name, Dir(directory))
  {
    var k := |names| - 1;
    WalkOk(fs, ROOT, names);
    LastStep(fs, names);
    WalkOk(fs, ROOT, names[..k]);
    MemorySlot(fs, Walk(fs, ROOT, names[..k]).value, names[k], directory.id, directory.writable);
  }

  /** For a directory the condition decides whether any path at all leads to it afterwards. */
  lemma RenamedDirectoryReachedIff(fs: Fs, from: string, to: string)
    requires Valid(fs) && Rename(fs, from, to).Ok? && !SamePath(from, to)
    requires MoveOf(fs, from, to).Some? && MoveOf(fs, from, to).value.node.Dir?
    ensures CanonicalSlot(fs, from).Some? && CanonicalSlot(fs, to).Some?
    ensures (exists names :: Walk(Rename(fs, from, to).value, ROOT, names) == Some(MoveOf(fs, from, to).value.node))
            <==> !(CanonicalSlot(fs, from).value <= CanonicalSlot(fs, to).value)
  {
    var next := Rename(fs, from, to).value;
    var r := RouteOf(fs, from, to);
    if SourcePath(r) <= TargetPath(r) {
      forall names
        ensures Walk(next, ROOT, names) != Some(r.move.node)
      {
        BelowItself(fs, next, r, names);
      }
    } else {
      TargetHolds(fs, next, r);
    }
  }

  // ---- Both losses happen ----

  const TMP_NAME := "tmp"

  /** Names short enough for the paths below. */
  predicate ShortNames(a: string, b: string) {
    ValidName(a) && ValidName(b) && a != b && |a| + |b| <= 1000
  }

  lemma ShortPaths(a: string, b: string)
    requires ShortNames(a, b)
    ensures AbsoluteComponents(PathFromComponents([TMP_NAME])) == Ok([TMP_NAME])
    ensures AbsoluteComponents(PathFromComponents([TMP_NAME, a])) == Ok([TMP_NAME, a])
    ensures AbsoluteComponents(PathFromComponents([TMP_NAME, b, a])) == Ok([TMP_NAME, b, a])
  {
    assert [TMP_NAME][1..] == [] && [TMP_NAME, a][1..] == [a] && [TMP_NAME, b, a][1..] == [b, a];
    assert [a][1..] == [] && [b, a][1..] == [a];
    assert |Join([a])| <= 1001;
    assert |Join([b, a])| <= 1002;
    PathRoundTrip([TMP_NAME]);
    PathRoundTrip([TMP_NAME, a]);
    PathRoundTrip([TMP_NAME, b, a]);
  }

  /** The parent of an entry of `/tmp`. */
  lemma TmpParent(fs: Fs, a: string, b: string)
    requires ShortNames(a, b) && fs.dirs != [] && fs.dirs[0] == ROOT_ENTRIES
    ensures Parent(fs, PathFromComponents([TMP_NAME, a])) == Ok((TMP.directory, a))
    ensures CanonicalSlot(fs, PathFromComponents([TMP_NAME, a])) == Some([TMP_NAME, a])
    ensures Walk(fs, ROOT, [TMP_NAME]) == Some(TMP)
  {
    ShortPaths(a, b);
    assert [TMP_NAME, a][..1] == [TMP_NAME] && [TMP_NAME] + [a] == [TMP_NAME, a];
    assert Step(fs, ROOT, TMP_NAME) == Some(TMP);
    assert [TMP_NAME][1..] == [];
    WalkResolves(fs, ROOT, [], [TMP_NAME], true, 0);
    assert [] + [TMP_NAME] == [TMP_NAME];
  }

  /** The parent of an entry reached through a link `b` in `/tmp`. */
  lemma LinkParent(fs: Fs, a: string, b: string, target: Components, directory: Directory)
    requires ShortNames(a, b) && |fs.dirs| >= 2 && fs.dirs[0] == ROOT_ENTRIES
    requires b in fs.dirs[1] && fs.dirs[1][b] == Symlink(PathFromComponents(target))
    requires AbsoluteComponents(PathFromComponents(target)) == Ok(target)
    requires Walk(fs, ROOT, target) == Some(Dir(directory))
    ensures Parent(fs, PathFromComponents([TMP_NAME, b, a])) == Ok((directory, a))
    ensures CanonicalSlot(fs, PathFromComponents([TMP_NAME, b, a])) == Some(target + [a])
  {
    ShortPaths(a, b);
    TmpParent(fs, a, b);
    assert [TMP_NAME, b, a][..2] == [TMP_NAME, b] && [TMP_NAME, b][1..] == [b] && [b][1..] == [];
    WalkResolves(fs, ROOT, [], target, true, 1);
    assert [] + target == target && target + [] == target && [] + [TMP_NAME] == [TMP_NAME];
    assert Lookup(fs, TMP.directory, b) == Ok(Some(fs.dirs[1][b]));
    assert TargetComponents([TMP_NAME], PathFromComponents(target)) == Ok(target);
    assert Resolve(fs, [b], TMP, [TMP_NAME], true, 0) == Resolve(fs, target + [b][1..], ROOT, [], true, 1);
    assert Resolve(fs, [TMP_NAME, b], ROOT, [], true, 0) == Resolve(fs, [b], TMP, [TMP_NAME], true, 0);
  }

  lemma TmpMissing(fs: Fs, a: string, b: string)
    requires ShortNames(a, b) && |fs.dirs| >= 2 && fs.dirs[0] == ROOT_ENTRIES && a !in fs.dirs[1]
    ensures ResolveNode(fs, PathFromComponents([TMP_NAME, a]), true) == Err(NotFound)
  {
    ShortPaths(a, b);
    assert Step(fs, ROOT, TMP_NAME) == Some(TMP) && [TMP_NAME, a][1..] == [a];
    assert Lookup(fs, TMP.directory, a) == Ok(None);
    assert Resolve(fs, [a], TMP, [TMP_NAME], true, 0) == Err(NotFound);
    assert [] + [TMP_NAME] == [TMP_NAME];
    assert Resolve(fs, [TMP_NAME, a], ROOT, [], true, 0) == Resolve(fs, [a], TMP, [TMP_NAME], true, 0);
  }

  function Tmp(host: HostNode, entries: Entries, more: seq<Entries>, files: seq<Bytes>): Fs {
    Fs(host, [ROOT_ENTRIES, entries] + more, files)
  }

  /** A link placed in `/tmp`. */
  lemma TmpSymlink(fs: Fs, target: string, a: string, b: string)
    requires ShortNames(a, b) && |fs.dirs| >= 2 && fs.dirs[0] == ROOT_ENTRIES && a !in fs.dirs[1] && '\0' !in target
    ensures MakeSymlink(fs, target, PathFromComponents([TMP_NAME, a]))
         == Ok(fs.(dirs := fs.dirs[1 := fs.dirs[1][a := Symlink(target)]]))
  {
    TmpParent(fs, a, b);
    assert Lookup(fs, TMP.directory, a) == Ok(None);
  }

  /** Making a link in `/tmp` adds one entry there. */
  lemma LinkAdded(s: State, host: HostNode, entries: Entries, more: seq<Entries>, files: seq<Bytes>,
                  target: string, a: string, b: string)
    requires ValidState(s) && s.fs == Tmp(host, entries, more, files)
    requires ShortNames(a, b) && a !in entries && '\0' !in target
    ensures Apply(s, SymlinkOp(target, PathFromComponents([TMP_NAME, a]))).fs
         == Tmp(host, entries[a := Symlink(target)], more, files)
  {
    TmpSymlink(s.fs, target, a, b);
    assert s.fs.dirs[1 := entries[a := Symlink(target)]] == [ROOT_ENTRIES, entries[a := Symlink(target)]] + more;
  }

  /** Renaming between two slots of `/tmp` given by their parents, the target slot holding the source itself. */
  lemma RenameOntoItself(fs: Fs, from: string, to: string, a: string, node: Node)
    requires |fs.dirs| >= 2 && a in fs.dirs[1] && fs.dirs[1][a] == node && !node.Dir?
    requires Parent(fs, from) == Ok((TMP.directory, a)) && Parent(fs, to) == Ok((TMP.directory, a))
    requires !(AbsoluteComponents(from).value <= AbsoluteComponents(to).value)
    ensures Rename(fs, from, to) == Ok(fs.(dirs := fs.dirs[1 := fs.dirs[1] - {a}]))
  {
    var without := fs.dirs[1] - {a};
    var vacant := WithEntries(fs, 1, without);
    var placed := WithEntries(vacant, 1, without[a := node]);
    assert Lookup(fs, TMP.directory, a) == Ok(Some(node));
    assert Vacate(fs, TMP.directory, a) == Ok(vacant);
    assert Insert(vacant, TMP.directory, a, node) == Ok(placed);
    assert without[a := node] - {a} == without;
    assert fs.dirs[1 := without][1 := without[a := node]][1 := without] == fs.dirs[1 := without];
  }

  lemma TakeStep(s: State, op: Op, rest: seq<Op>)
    requires ValidState(s) && OpsOk([op] + rest)
    ensures OpOk(op) && OpsOk(rest) && ValidState(Apply(s, op))
    ensures Run(s, [op] + rest) == Run(Apply(s, op), rest)
  {
    assert ([op] + rest)[0] == op && ([op] + rest)[1..] == rest;
    VfsRuns.ApplyValid(s, op);
    forall i | 0 <= i < |rest|
      ensures OpOk(rest[i])
    {
      assert ([op] + rest)[i + 1] == rest[i];
    }
  }

  function LosingRun(a: string, l: string, data: Bytes): seq<Op> {
    [WriteFileOp(PathFromComponents([TMP_NAME, a]), data, false),
     SymlinkOp(PathFromComponents([TMP_NAME]), PathFromComponents([TMP_NAME, l]))]
  }

  lemma LosingState(host: HostNode, a: string, l: string, data: Bytes)
    requires HostNamesOk(host) && ShortNames(a, l) && |data| <= MAX_FILE_SIZE
    ensures ValidState(NewState(host))
    ensures Run(NewState(host), LosingRun(a, l, data)).fs
         == Tmp(host, map[a := File(MemoryFile(0)), l := Symlink(PathFromComponents([TMP_NAME]))], [], [data])
  {
    var s0, ops := NewState(host), LosingRun(a, l, data);
    NewFsValid(host);
    FirstFile(s0, a, l, data);
    var s1 := Apply(s0, ops[0]);
    TakeTwo(s0, ops[0], ops[1]);
    JoinChars([TMP_NAME], '\0');
    LinkAdded(s1, host, map[a := File(MemoryFile(0))], [], [data], PathFromComponents([TMP_NAME]), l, a);
  }

  lemma TakeTwo(s: State, first: Op, second: Op)
    requires ValidState(s) && OpOk(first) && OpOk(second)
    ensures ValidState(Apply(s, first)) && Run(s, [first, second]) == Apply(Apply(s, first), second)
  {
    assert [first, second] == [first] + [second] && [second] == [second] + [];
    TakeStep(s, first, [second]);
    TakeStep(Apply(s, first), second, []);
  }

  /**
   * A run from a fresh filesystem after which a rename deletes a file: a file `a` and a link `l` to
   * `/tmp` are made in `/tmp`, and renaming `/tmp/l/a` to `/tmp/a` succeeds and leaves only the link.
   */
  lemma RenameCanLose(host: HostNode, a: string, l: string, data: Bytes)
    requires HostNamesOk(host) && ShortNames(a, l) && |data| <= MAX_FILE_SIZE
    ensures ValidState(NewState(host))
    ensures var from, to := PathFromComponents([TMP_NAME, l, a]), PathFromComponents([TMP_NAME, a]);
            var fs, link := Run(NewState(host), LosingRun(a, l, data)).fs, Symlink(PathFromComponents([TMP_NAME]));
            && Slot(fs, 1, a) == Some(File(MemoryFile(0))) && fs.files == [data]
            && Rename(fs, from, to) == Ok(Tmp(host, map[l := link], [], [data]))
  {
    var link := Symlink(PathFromComponents([TMP_NAME]));
    LosingState(host, a, l, data);
    var fs := Tmp(host, map[a := File(MemoryFile(0)), l := link], [], [data]);
    ShortPaths(a, l);
    TmpParent(fs, a, l);
    LinkParent(fs, a, l, [TMP_NAME], TMP.directory);
    assert [TMP_NAME, l, a][1] == l && [TMP_NAME, a][1] == a;
    var from, to := PathFromComponents([TMP_NAME, l, a]), PathFromComponents([TMP_NAME, a]);
    RenameOntoItself(fs, from, to, a, File(MemoryFile(0)));
    assert fs.dirs[1] - {a} == map[l := link];
    assert fs.dirs[1 := fs.dirs[1] - {a}] == [ROOT_ENTRIES, map[l := link]] + [];
  }

  function DetachingRun(d: string, l: string): seq<Op> {
    [MkdirOp(PathFromComponents([TMP_NAME, d]), false),
     SymlinkOp(PathFromComponents([TMP_NAME, d]), PathFromComponents([TMP_NAME, l]))]
  }

  lemma DetachingState(host: HostNode, d: string, l: string)
    requires HostNamesOk(host) && ShortNames(d, l)
    ensures ValidState(NewState(host))
    ensures Run(NewState(host), DetachingRun(d, l)).fs
         == Tmp(host, map[d := Dir(MemoryDir(2, true)), l := Symlink(PathFromComponents([TMP_NAME, d]))], [map[]], [])
  {
    var s0, ops := NewState(host), DetachingRun(d, l);
    var path := PathFromComponents([TMP_NAME, d]);
    NewFsValid(host);
    ShortPaths(d, l);
    TmpParent(s0.fs, d, l);
    TmpMissing(s0.fs, d, l);
    var s1 := Apply(s0, ops[0]);
    assert s1.fs == Tmp(host, map[d := Dir(MemoryDir(2, true))], [map[]], []);
    TakeTwo(s0, ops[0], ops[1]);
    JoinChars([TMP_NAME, d], '\0');
    LinkAdded(s1, host, map[d := Dir(MemoryDir(2, true))], [map[]], [], path, l, d);
  }

  /**
   * A run from a fresh filesystem after which a rename detaches a directory: a directory `d` and a
   * link `l` to it are made in `/tmp`, and renaming `/tmp/d` to `/tmp/l/d` succeeds and puts the
   * directory into itself, where no path leads.
   */
  lemma RenameCanDetach(host: HostNode, d: string, l: string)
    requires HostNamesOk(host) && ShortNames(d, l)
    ensures ValidState(NewState(host))
    ensures var from, to := PathFromComponents([TMP_NAME, d]), PathFromComponents([TMP_NAME, l, d]);
            var fs, moved := Run(NewState(host), DetachingRun(d, l)).fs, Dir(MemoryDir(2, true));
            && Walk(fs, ROOT, [TMP_NAME, d]) == Some(moved)
            && Rename(fs, from, to)
               == Ok(Tmp(host, map[l := Symlink(from)], [map[d := moved]], []))
            && forall names :: Walk(Rename(fs, from, to).value, ROOT, names) != Some(moved)
  {
    var from, to := PathFromComponents([TMP_NAME, d]), PathFromComponents([TMP_NAME, l, d]);
    var moved, link := Dir(MemoryDir(2, true)), Symlink(PathFromComponents([TMP_NAME, d]));
    DetachingState(host, d, l);
    var fs := Tmp(host, map[d := moved, l := link], [map[]], []);
    ShortPaths(d, l);
    TmpParent(fs, d, l);
    assert Step(fs, TMP, d) == Some(moved);
    WalkSnoc(fs, ROOT, [TMP_NAME], d);
    assert [TMP_NAME] + [d] == [TMP_NAME, d];
    LinkParent(fs, d, l, [TMP_NAME, d], moved.directory);
    assert [TMP_NAME, l, d][1] == l && [TMP_NAME, d][1] == d;
    RenameIntoItself(fs, from, to, d);
    RenamedDirectoryReachedIff(fs, from, to);
    assert [TMP_NAME, d] <= [TMP_NAME, d] + [d];
    assert fs.dirs[1] - {d} == map[l := link];
    assert [ROOT_ENTRIES, map[l := link]] + [map[d := moved]] == [ROOT_ENTRIES, map[l := link], map[d := moved]];
  }

  /** Renaming an entry of `/tmp`, an empty directory, into itself. */
  lemma RenameIntoItself(fs: Fs, from: string, to: string, d: string)
    requires |fs.dirs| == 3 && d in fs.dirs[1] && fs.dirs[1][d] == Dir(MemoryDir(2, true)) && fs.dirs[2] == map[]
    requires Parent(fs, from) == Ok((TMP.directory, d)) && Parent(fs, to) == Ok((MemoryDir(2, true), d))
    requires !(AbsoluteComponents(from).value <= AbsoluteComponents(to).value)
    ensures Rename(fs, from, to)
         == Ok(fs.(dirs := [fs.dirs[0], fs.dirs[1] - {d}, map[d := Dir(MemoryDir(2, true))]]))
    ensures MoveOf(fs, from, to) == Some(Move((1, d), (2, d), Dir(MemoryDir(2, true))))
  {
    var placed := WithEntries(fs, 2, map[d := Dir(MemoryDir(2, true))]);
    assert Lookup(fs, TMP.directory, d) == Ok(Some(Dir(MemoryDir(2, true))));
    assert Vacate(fs, MemoryDir(2, true), d) == Ok(fs);
    assert Insert(fs, MemoryDir(2, true), d, Dir(MemoryDir(2, true))) == Ok(placed);
    var final := WithEntries(placed, 1, fs.dirs[1] - {d});
    assert Remove(placed, TMP.directory, d) == Ok(final);
    assert final.dirs == [fs.dirs[0], fs.dirs[1] - {d}, map[d := Dir(MemoryDir(2, true))]];
  }

  /** Writing a file that is not there yet. */
  lemma FirstFile(s: State, a: string, b: string, data: Bytes)
    requires ValidState(s) && s.fs == NewFs(s.fs.host) && s.next == FIRST_DESCRIPTOR && s.descriptors == map[]
    requires ShortNames(a, b) && |data| <= MAX_FILE_SIZE
    ensures Apply(s, WriteFileOp(PathFromComponents([TMP_NAME, a]), data, false)).fs
         == Tmp(s.fs.host, map[a := File(MemoryFile(0))], [], [data])
  {
    var path := PathFromComponents([TMP_NAME, a]);
    TmpParent(s.fs, a, b);
    TmpMissing(s.fs, a, b);
    WriteFileCreates(s, path, TMP.directory, a, data);
  }

  lemma WriteFileCreates(s: State, path: string, parent: Directory, name: string, data: Bytes)
    requires ValidState(s) && s.next < U32_MAX && |data| <= MAX_FILE_SIZE
    requires ResolveNode(s.fs, path, true) == Err(NotFound) && Parent(s.fs, path) == Ok((parent, name))
    requires parent.MemoryDir? && parent.writable && parent.id < |s.fs.dirs| && name !in s.fs.dirs[parent.id]
    ensures WriteFile(s, path, data, false).1 == Ok(())
    ensures WriteFile(s, path, data, false).0.fs
         == WithEntries(s.fs, parent.id, s.fs.dirs[parent.id][name := File(MemoryFile(|s.fs.files|))])
            .(files := s.fs.files + [data])
  {
    var id := |s.fs.files|;
    var node := File(MemoryFile(id));
    var (grown, _) := NewFile(s.fs, []);
    var fs := WithEntries(grown, parent.id, s.fs.dirs[parent.id][name := node]);
    assert Create(s.fs, path) == Ok((fs, node));
    assert Overwrite([], 0, data) == data;
    assert Resized([], 0) == [];
    assert fs.files[id := []] == fs.files;
    assert fs.files[id := data] == s.fs.files + [data];
  }
}
