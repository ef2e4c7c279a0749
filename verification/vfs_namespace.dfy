/** What the operations on names guarantee. */
module VfsNamespace {
  import opened Wrappers
  import opened VfsPath
  import opened VfsNodes
  import opened VfsResolve
  import opened VfsInvariant
  import opened VfsCopy
  import opened VfsOperations

  // ---- Slots ----

  function Slot(fs: Fs, id: nat, name: string): Option<Node> {
    if name in EntriesOf(fs, id) then Some(EntriesOf(fs, id)[name]) else None
  }

  /** Every slot outside `changed` holds what it held, and no file body changed. */
  ghost predicate OnlySlots(before: Fs, after: Fs, changed: set<(nat, string)>) {
    && before.host == after.host
    && |before.dirs| <= |after.dirs|
    && |before.files| <= |after.files| && after.files[..|before.files|] == before.files
    && forall id: nat, name :: id < |before.dirs| && (id, name) !in changed ==>
         Slot(after, id, name) == Slot(before, id, name)
  }

  lemma ParentOk(fs: Fs, path: string)
    requires Valid(fs) && Parent(fs, path).Ok?
    ensures NodeOk(fs, Dir(Parent(fs, path).value.0)) && ValidName(Parent(fs, path).value.1)
  {
    var components := AbsoluteComponents(path).value;
    var above := components[..|components| - 1];
    ResolvedIsWalk(fs, above, ROOT, [], true, 0);
    WalkOk(fs, ROOT, ResolveFrom(fs, above, true).value.1);
  }

  lemma ResolvedOk(fs: Fs, path: string, followFinal: bool)
    requires Valid(fs) && ResolveNode(fs, path, followFinal).Ok?
    ensures NodeOk(fs, ResolveNode(fs, path, followFinal).value)
  {
    var components := AbsoluteComponents(path).value;
    ResolvedIsWalk(fs, components, ROOT, [], followFinal, 0);
    WalkOk(fs, ROOT, ResolveFrom(fs, components, followFinal).value.1);
  }

  // ---- Every operation keeps the invariant ----

  lemma NewEntryValid(fs: Fs, directory: Directory, name: string)
    requires Valid(fs) && NodeOk(fs, Dir(directory)) && EntryName(name)
    requires Insert(NewDirectory(fs).0, directory, name, NewDirectory(fs).1).Ok?
    ensures Valid(Insert(NewDirectory(fs).0, directory, name, NewDirectory(fs).1).value)
  {
    NewDirectoryValid(fs);
    InsertValid(NewDirectory(fs).0, directory, name, NewDirectory(fs).1);
  }

  lemma {:induction false} MkdirFromValid(fs: Fs, directory: Directory, components: Components)
    requires Valid(fs) && NodeOk(fs, Dir(directory)) && ValidComponents(components)
    requires MkdirFrom(fs, directory, components).Ok?
    ensures Valid(MkdirFrom(fs, directory, components).value)
    decreases |components|
  {
    if components != [] {
      match Lookup(fs, directory, components[0]).value
      case Some(node) =>
        StepOk(fs, Dir(directory), components[0]);
        MkdirFromValid(fs, node.directory, components[1..]);
      case None =>
        var (grown, child) := NewDirectory(fs);
        NewEntryValid(fs, directory, components[0]);
        MkdirFromValid(Insert(grown, directory, components[0], child).value, child.directory, components[1..]);
    }
  }

  lemma MkdirValid(fs: Fs, path: string, recursive: bool)
    requires Valid(fs) && Mkdir(fs, path, recursive).Ok?
    ensures Valid(Mkdir(fs, path, recursive).value)
  {
    var components := AbsoluteComponents(path).value;
    if components != [] && ResolveNode(fs, path, true).Err? {
      if recursive {
        MkdirFromValid(fs, ROOT.directory, components);
      } else {
        ParentOk(fs, path);
        NewEntryValid(fs, Parent(fs, path).value.0, Parent(fs, path).value.1);
      }
    }
  }

  lemma RemovePathValid(fs: Fs, path: string, recursive: bool, force: bool)
    requires Valid(fs) && RemovePath(fs, path, recursive, force).Ok?
    ensures Valid(RemovePath(fs, path, recursive, force).value)
  {
    if Parent(fs, path).Ok? {
      ParentOk(fs, path);
      var (parent, name) := Parent(fs, path).value;
      if Lookup(fs, parent, name).value.Some? {
        RemoveValid(fs, parent, name);
      }
    }
  }

  lemma InsertNewValid(fs: Fs, path: string, node: Node)
    requires Valid(fs) && InsertNew(fs, path, node).Ok?
    requires EntryOk(fs, node) && !node.Dir?
    ensures Valid(InsertNew(fs, path, node).value)
  {
    ParentOk(fs, path);
    InsertValid(fs, Parent(fs, path).value.0, Parent(fs, path).value.1, node);
  }

  /** A file found by walking may be placed in a memory directory, devices apart. */
  lemma FoundFileOk(fs: Fs, path: string)
    requires Valid(fs) && ResolveNode(fs, path, true).Ok?
    requires var node := ResolveNode(fs, path, true).value; node.File? && !node.file.DeviceFile?
    ensures EntryOk(fs, ResolveNode(fs, path, true).value)
  {
    var names := ResolvePath(fs, path, true).value.1;
    ResolvedIsWalk(fs, AbsoluteComponents(path).value, ROOT, [], true, 0);
    LastStep(fs, names);
    var k := |names| - 1;
    WalkOk(fs, ROOT, names[..k]);
    var above := Walk(fs, ROOT, names[..k]).value;
    if above.directory.MemoryDir? {
      assert HasSlot(fs, above.directory.id, names[k], ResolveNode(fs, path, true).value);
    }
  }

  lemma LinkValid(fs: Fs, existing: string, path: string)
    requires Valid(fs) && Link(fs, existing, path).Ok?
    ensures Valid(Link(fs, existing, path).value)
  {
    FoundFileOk(fs, existing);
    InsertNewValid(fs, path, ResolveNode(fs, existing, true).value);
  }

  lemma SuffixedName(name: string, suffix: string)
    requires ValidName(name) && suffix != ""
    requires forall i :: 0 <= i < |suffix| ==> '0' <= suffix[i] <= '9' || 'a' <= suffix[i] <= 'z'
    ensures EntryName(name + suffix)
  {
    var candidate := name + suffix;
    assert candidate[|candidate| - 1] == suffix[|suffix| - 1];
  }

  lemma {:induction false} MakeTempValid(fs: Fs, prefix: string, parent: Directory, name: string, attempts: seq<Bytes>)
    requires Valid(fs) && NodeOk(fs, Dir(parent)) && ValidName(name)
    requires forall i :: 0 <= i < |attempts| ==> |attempts[i]| == 6
    requires MakeTempFrom(fs, prefix, parent, name, attempts).Ok?
    ensures Valid(MakeTempFrom(fs, prefix, parent, name, attempts).value.0)
    decreases |attempts|
  {
    var candidate := name + RandomSuffix(attempts[0]);
    if Lookup(fs, parent, candidate).value.Some? {
      MakeTempValid(fs, prefix, parent, name, attempts[1..]);
    } else {
      SuffixedName(name, RandomSuffix(attempts[0]));
      NewEntryValid(fs, parent, candidate);
    }
  }

  // ---- Rename ----

  /** The two slots a rename works on, and the node it moves. */
  datatype Move = Move(source: (nat, string), target: (nat, string), node: Node)

  function MoveOf(fs: Fs, from: string, to: string): Option<Move> {
    var source, target := Parent(fs, from), Parent(fs, to);
    if source.Ok? && target.Ok? && source.value.0.MemoryDir? && target.value.0.MemoryDir? then
      match Slot(fs, source.value.0.id, source.value.1)
      case Some(node) => Some(Move((source.value.0.id, source.value.1), (target.value.0.id, target.value.1), node))
      case None => None
    else None
  }

  predicate SamePath(from: string, to: string) {
    AbsoluteComponents(from) == AbsoluteComponents(to)
  }

  /**
   * The exact effect of a successful rename between different paths. Between different slots the
   * node moves: it is in the target slot, the source slot is empty and no other slot changed.
   * When the two paths are spellings of one slot, the node is lost.
   */
  lemma RenameEffect(fs: Fs, from: string, to: string)
    requires Valid(fs) && Rename(fs, from, to).Ok? && !SamePath(from, to)
    ensures MoveOf(fs, from, to).Some?
    ensures var move := MoveOf(fs, from, to).value;
            var next := Rename(fs, from, to).value;
            && |next.dirs| == |fs.dirs| && next.files == fs.files
            && OnlySlots(fs, next, {move.source, move.target})
            && Slot(next, move.source.0, move.source.1) == None
            && Slot(next, move.target.0, move.target.1)
               == (if move.source != move.target then Some(move.node) else None)
  {
    ParentOk(fs, from);
    ParentOk(fs, to);
  }

  /** Every slot after a rename: the target holds the node, the source none, the others what they held. */
  lemma RenameSlots(fs: Fs, from: string, to: string)
    requires Valid(fs) && Rename(fs, from, to).Ok? && !SamePath(from, to)
    ensures MoveOf(fs, from, to).Some?
    ensures var move := MoveOf(fs, from, to).value;
            var next := Rename(fs, from, to).value;
            && |next.dirs| == |fs.dirs| && next.files == fs.files && next.host == fs.host && next.dirs[0] == fs.dirs[0]
            && HasSlot(fs, move.source.0, move.source.1, move.node) && move.source.0 > 0
            && EntryName(move.target.1)
            && forall i: nat, name, node :: HasSlot(next, i, name, node) ==>
                 if (i, name) == move.target then node == move.node
                 else HasSlot(fs, i, name, node) && (i, name) != move.source
  {
    RenameEffect(fs, from, to);
    ParentOk(fs, from);
    ParentOk(fs, to);
    var move := MoveOf(fs, from, to).value;
    var next := Rename(fs, from, to).value;
    assert HasSlot(fs, move.source.0, move.source.1, move.node);
    forall i: nat, name, node | HasSlot(next, i, name, node)
      ensures if (i, name) == move.target then node == move.node
              else HasSlot(fs, i, name, node) && (i, name) != move.source
    {
      assert Slot(next, i, name) == Some(node);
    }
  }

  /** Moving a node from one slot to another keeps the invariant. */
  lemma MovedValid(fs: Fs, next: Fs, move: Move)
    requires Valid(fs) && next.files == fs.files && next.host == fs.host
    requires |next.dirs| == |fs.dirs| && next.dirs[0] == fs.dirs[0]
    requires HasSlot(fs, move.source.0, move.source.1, move.node) && move.source.0 > 0 && EntryName(move.target.1)
    requires forall i: nat, name, node :: HasSlot(next, i, name, node) ==>
               if (i, name) == move.target then node == move.node
               else HasSlot(fs, i, name, node) && (i, name) != move.source
    ensures Valid(next)
  {
  }

  lemma RenameValid(fs: Fs, from: string, to: string)
    requires Valid(fs) && Rename(fs, from, to).Ok?
    ensures Valid(Rename(fs, from, to).value)
  {
    if !SamePath(from, to) {
      RenameSlots(fs, from, to);
      MovedValid(fs, Rename(fs, from, to).value, MoveOf(fs, from, to).value);
    }
  }

  // ---- Removal ----

  /** A removal empties exactly the slot the path denotes; forced, it may find nothing to remove. */
  lemma RemoveEffect(fs: Fs, path: string, recursive: bool, force: bool)
    requires Valid(fs) && RemovePath(fs, path, recursive, force).Ok?
    ensures ResolveNode(fs, path, false).Ok? ==> Parent(fs, path).Ok?
    ensures var next := RemovePath(fs, path, recursive, force).value;
            if ResolveNode(fs, path, false).Ok? then
              var (parent, name) := Parent(fs, path).value;
              && parent.MemoryDir? && |next.dirs| == |fs.dirs| && next.files == fs.files
              && OnlySlots(fs, next, {(parent.id, name)})
              && Slot(fs, parent.id, name) == Some(ResolveNode(fs, path, false).value)
              && Slot(next, parent.id, name) == None
            else force && next == fs
  {
    ResolveThroughParent(fs, path);
    if Parent(fs, path).Ok? {
      ParentOk(fs, path);
    }
  }

  // ---- Walks that avoid the changed slots ----

  /** The `k`-th step of a walk is not taken through the slot. */
  ghost predicate StepAvoids(fs: Fs, start: Node, names: Components, k: nat, slot: (nat, string))
    requires k < |names|
  {
    Walk(fs, start, names[..k]) == Some(Dir(MemoryDir(slot.0, true))) ==> names[k] != slot.1
  }

  lemma StepKept(before: Fs, after: Fs, changed: set<(nat, string)>, node: Node, name: string)
    requires Valid(before) && NodeOk(before, node) && OnlySlots(before, after, changed)
    requires node.Dir? && node.directory.MemoryDir? ==> (node.directory.id, name) !in changed
    ensures Step(after, node, name) == Step(before, node, name)
  {
    if node.Dir? && node.directory.MemoryDir? {
      assert Slot(after, node.directory.id, name) == Slot(before, node.directory.id, name);
    }
  }

  /** A walk that avoids the changed slots leads where it led, if anywhere. */
  lemma {:induction false} WalkKept(before: Fs, after: Fs, changed: set<(nat, string)>, start: Node, names: Components)
    requires Valid(before) && NodeOk(before, start) && OnlySlots(before, after, changed)
    requires forall slot :: slot in changed ==> slot.0 > 0
    requires forall k: nat, slot :: k < |names| && slot in changed ==> StepAvoids(before, start, names, k, slot)
    ensures Walk(after, start, names) == Walk(before, start, names)
    decreases |names|
  {
    if names != [] {
      var k := |names| - 1;
      var init := names[..k];
      assert names == init + [names[k]];
      forall j: nat, slot | j < |init| && slot in changed
        ensures StepAvoids(before, start, init, j, slot)
      {
        assert StepAvoids(before, start, names, j, slot) && init[..j] == names[..j];
      }
      WalkKept(before, after, changed, start, init);
      WalkSnoc(before, start, init, names[k]);
      WalkSnoc(after, start, init, names[k]);
      if Walk(before, start, init).Some? {
        WalkOk(before, start, init);
        forall slot | slot in changed && Walk(before, start, init) == Some(Dir(MemoryDir(slot.0, true)))
          ensures names[k] != slot.1
        {
          assert StepAvoids(before, start, names, k, slot);
        }
        StepKept(before, after, changed, Walk(before, start, init).value, names[k]);
      }
    }
  }
}
