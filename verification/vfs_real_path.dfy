/** A path whose `realpath` is refused when it is used as a path again. */
module VfsRealPath {
  import opened Wrappers
  import opened VfsPath
  import opened VfsNodes
  import opened VfsResolve
  import opened VfsInvariant
  import opened VfsOperations
  import opened VfsNamespace
  import opened VfsEffects
  import opened VfsDescriptors
  import opened VfsRuns
  import opened VfsRename

  /** A path in `/tmp` with as many names as a path can have, all but the first the same. */
  function DeepPath(d: string): Components {
    [TMP_NAME] + seq(MAX_PATH_SEGMENTS - 1, _ => d)
  }

  predicate DeepNames(d: string, l: string, b: string) {
    ValidName(d) && |d| <= 50 && d != l && ShortNames(l, b)
  }

  lemma {:induction false} JoinLength(components: Components, most: nat)
    requires forall i :: 0 <= i < |components| ==> |components[i]| <= most
    ensures |Join(components)| <= |components| * (most + 1)
  {
    if components != [] {
      JoinLength(components[1..], most);
    }
  }

  lemma DeepParses(d: string, l: string, b: string)
    requires DeepNames(d, l, b)
    ensures ValidComponents(DeepPath(d)) && AbsoluteComponents(PathFromComponents(DeepPath(d))) == Ok(DeepPath(d))
  {
    JoinLength(DeepPath(d), 50);
    PathRoundTrip(DeepPath(d));
  }

  /** In a directory without the first name, `mkdir -p` makes the whole chain, down to an empty directory. */
  lemma {:induction false} MkdirFresh(fs: Fs, id: nat, names: Components)
    requires 0 < id < |fs.dirs| && names != [] && names[0] !in fs.dirs[id]
    ensures MkdirFrom(fs, MemoryDir(id, true), names).Ok?
    ensures var next := MkdirFrom(fs, MemoryDir(id, true), names).value;
            && Grows(fs, next) && |next.dirs| > |fs.dirs| && next.dirs[|next.dirs| - 1] == map[]
            && Walk(next, Dir(MemoryDir(id, true)), names) == Some(Dir(MemoryDir(|next.dirs| - 1, true)))
    decreases |names|
  {
    var child := |fs.dirs|;
    var placed := Insert(NewDirectory(fs).0, MemoryDir(id, true), names[0], Dir(MemoryDir(child, true))).value;
    assert placed.dirs[child] == map[];
    assert Grows(fs, placed);
    if |names| == 1 {
      assert names[1..] == [];
      assert Step(placed, Dir(MemoryDir(id, true)), names[0]) == Some(Dir(MemoryDir(child, true)));
    } else {
      MkdirFresh(placed, child, names[1..]);
      var next := MkdirFrom(placed, MemoryDir(child, true), names[1..]).value;
      assert Step(next, Dir(MemoryDir(id, true)), names[0]) == Some(Dir(MemoryDir(child, true)));
    }
  }

  /** `mkdir -p` of a path in `/tmp` whose second name is missing there. */
  lemma MkdirDeep(fs: Fs, path: string, names: Components)
    requires Valid(fs) && AbsoluteComponents(path) == Ok(names) && |names| >= 2
    requires names[0] == TMP_NAME && names[1] !in fs.dirs[1]
    ensures Mkdir(fs, path, true).Ok?
    ensures var next := Mkdir(fs, path, true).value;
            && Grows(fs, next) && |next.dirs| > 2 && next.dirs[|next.dirs| - 1] == map[]
            && Walk(next, ROOT, names) == Some(Dir(MemoryDir(|next.dirs| - 1, true)))
  {
    var rest := names[1..];
    assert Step(fs, ROOT, TMP_NAME) == Some(TMP) && Lookup(fs, ROOT.directory, TMP_NAME) == Ok(Some(TMP));
    assert Lookup(fs, TMP.directory, rest[0]) == Ok(None);
    assert Resolve(fs, rest, TMP, [TMP_NAME], true, 0) == Err(NotFound);
    assert [] + [TMP_NAME] == [TMP_NAME];
    assert Resolve(fs, names, ROOT, [], true, 0) == Resolve(fs, rest, TMP, [TMP_NAME], true, 0);
    MkdirFresh(fs, 1, rest);
    assert Mkdir(fs, path, true) == MkdirFrom(fs, ROOT.directory, names) == MkdirFrom(fs, TMP.directory, rest);
    var next := Mkdir(fs, path, true).value;
    assert TMP_NAME in fs.dirs[0] && fs.dirs[0][TMP_NAME] == TMP;
    assert Step(next, ROOT, TMP_NAME) == Some(TMP);
  }

  /** `mkdir` of a new name behind a link: its real path is the link's target and the name. */
  lemma MkdirBehind(fs: Fs, path: string, b: string, target: Components, id: nat)
    requires Valid(fs) && 0 < id < |fs.dirs| && b !in fs.dirs[id]
    requires Parent(fs, path) == Ok((MemoryDir(id, true), b)) && CanonicalSlot(fs, path) == Some(target + [b])
    ensures Mkdir(fs, path, false).Ok?
    ensures ResolvePath(Mkdir(fs, path, false).value, path, true)
         == Ok((Dir(MemoryDir(|fs.dirs|, true)), target + [b]))
  {
    var components := AbsoluteComponents(path).value;
    var k := |components| - 1;
    var above, found := components[..k], ResolveFrom(fs, components[..k], true).value;
    assert components == above + [b];
    SnocSame(found.1, b, target, b);
    ResolveLast(fs, above, b, ROOT, [], true, 0);
    assert Lookup(fs, MemoryDir(id, true), b) == Ok(None);
    var child := Dir(MemoryDir(|fs.dirs|, true));
    var next := Mkdir(fs, path, false).value;
    NewEntryGrows(fs, MemoryDir(id, true), b);
    ResolveGrows(fs, next, above, ROOT, [], true, 0);
    ResolveLast(next, above, b, ROOT, [], true, 0);
    assert Lookup(next, MemoryDir(id, true), b) == Ok(Some(child));
  }

  function DeepRun(d: string, l: string, b: string): seq<Op> {
    [SymlinkOp(PathFromComponents(DeepPath(d)), PathFromComponents([TMP_NAME, l])),
     MkdirOp(PathFromComponents(DeepPath(d)), true),
     MkdirOp(PathFromComponents([TMP_NAME, l, b]), false)]
  }

  lemma TakeThree(s: State, first: Op, second: Op, third: Op)
    requires ValidState(s) && OpOk(first) && OpOk(second) && OpOk(third)
    ensures ValidState(Apply(s, first)) && ValidState(Apply(Apply(s, first), second))
    ensures Run(s, [first, second, third]) == Apply(Apply(Apply(s, first), second), third)
  {
    assert [first, second, third] == [first] + [second, third];
    TakeStep(s, first, [second, third]);
    TakeTwo(Apply(s, first), second, third);
  }

  lemma AfterLink(host: HostNode, d: string, l: string, b: string)
    requires HostNamesOk(host) && DeepNames(d, l, b)
    ensures ValidState(NewState(host))
    ensures Apply(NewState(host), DeepRun(d, l, b)[0]).fs
         == Tmp(host, map[l := Symlink(PathFromComponents(DeepPath(d)))], [], [])
  {
    NewFsValid(host);
    DeepParses(d, l, b);
    JoinChars(DeepPath(d), '\0');
    var s := NewState(host);
    assert s.fs.dirs == [ROOT_ENTRIES, map[]] + [];
    LinkAdded(s, host, map[], [], [], PathFromComponents(DeepPath(d)), l, b);
  }

  /** The two directories made through the path and through the link. */
  lemma DeepDirectories(fs: Fs, d: string, l: string, b: string)
    requires Valid(fs) && DeepNames(d, l, b)
    requires fs.dirs[1] == map[l := Symlink(PathFromComponents(DeepPath(d)))]
    ensures Mkdir(fs, PathFromComponents(DeepPath(d)), true).Ok?
    ensures var made := Mkdir(fs, PathFromComponents(DeepPath(d)), true).value;
            var path := PathFromComponents([TMP_NAME, l, b]);
            && Valid(made) && Mkdir(made, path, false).Ok?
            && ResolvePath(Mkdir(made, path, false).value, path, true)
               == Ok((Dir(MemoryDir(|made.dirs|, true)), DeepPath(d) + [b]))
  {
    var deep := DeepPath(d);
    DeepParses(d, l, b);
    MkdirDeep(fs, PathFromComponents(deep), deep);
    MkdirValid(fs, PathFromComponents(deep), true);
    var made := Mkdir(fs, PathFromComponents(deep), true).value;
    LinkParent(made, b, l, deep, MemoryDir(|made.dirs| - 1, true));
    MkdirBehind(made, PathFromComponents([TMP_NAME, l, b]), b, deep, |made.dirs| - 1);
  }

  /**
   * A run from a fresh filesystem after which `realpath` refuses its own output: a link to a path of
   * 48 names, that path made with `mkdir -p`, and one more directory made through the link.
   */
  lemma RealPathCanFail(host: HostNode, d: string, l: string, b: string)
    requires HostNamesOk(host) && DeepNames(d, l, b)
    ensures ValidState(NewState(host))
    ensures OpsOk(DeepRun(d, l, b))
    ensures var fs := Run(NewState(host), DeepRun(d, l, b)).fs;
            var text := PathFromComponents(DeepPath(d) + [b]);
            && RealPath(fs, PathFromComponents([TMP_NAME, l, b])) == Ok(text)
            && RealPath(fs, text) == Err(InvalidPath)
  {
    var s, ops := NewState(host), DeepRun(d, l, b);
    AfterLink(host, d, l, b);
    TakeThree(s, ops[0], ops[1], ops[2]);
    var linked := Apply(s, ops[0]).fs;
    DeepDirectories(linked, d, l, b);
    var fs := Run(s, ops).fs;
    RealPathStable(fs, PathFromComponents([TMP_NAME, l, b]));
    assert |DeepPath(d) + [b]| == MAX_PATH_SEGMENTS + 1;
  }
}
