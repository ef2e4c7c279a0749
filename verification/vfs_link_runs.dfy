/** Runs with relative links. */
module VfsLinkRuns {
  import opened Wrappers
  import opened VfsPath
  import opened VfsNodes
  import opened VfsResolve
  import opened VfsInvariant
  import opened VfsLinks
  import opened VfsDescriptors
  import opened VfsRuns
  import opened VfsRename
  import opened VfsHandles

  /** A file `b` in `/tmp` and a link `a` beside it. */
  function LinkRun(a: string, b: string, target: Target, data: Bytes): seq<Op> {
    [WriteFileOp(PathFromComponents([TMP_NAME, b]), data, false),
     SymlinkOp(TargetText(target), PathFromComponents([TMP_NAME, a]))]
  }

  lemma LinkState(host: HostNode, a: string, b: string, target: Target, data: Bytes)
    requires HostNamesOk(host) && ShortNames(a, b) && TargetOk(target) && |data| <= MAX_FILE_SIZE
    ensures ValidState(NewState(host))
    ensures Run(NewState(host), LinkRun(a, b, target, data)).fs
         == Tmp(host, map[b := File(MemoryFile(0)), a := Symlink(TargetText(target))], [], [data])
  {
    var s0, ops := NewState(host), LinkRun(a, b, target, data);
    NewFsValid(host);
    FirstFile(s0, b, a, data);
    var s1 := Apply(s0, ops[0]);
    TakeTwo(s0, ops[0], ops[1]);
    TargetClean(target);
    LinkAdded(s1, host, map[b := File(MemoryFile(0))], [], [data], TargetText(target), a, b);
  }

  lemma TargetClean(target: Target)
    requires TargetOk(target)
    ensures '\0' !in TargetText(target)
  {
    match target
    case Absolute(names) => SlashedChars([""] + names, '\0');
    case Relative(ups, names) => SlashedChars(Ups(ups) + names, '\0');
  }

  lemma SlashedThree(x: string, y: string, z: string)
    ensures |Slashed([x, y, z])| == |x| + |y| + |z| + 2
  {
    assert [x, y, z][1..] == [y, z] && [y, z][1..] == [z];
    assert Slashed([y, z]) == y + ['/'] + z;
  }

  /** The two targets lead to the file: straight, and up to the root and down again. */
  lemma TwoTargets(a: string, b: string)
    requires ShortNames(a, b)
    ensures TargetOk(Relative(0, [b])) && TargetText(Relative(0, [b])) == b
    ensures TargetOk(Relative(1, [TMP_NAME, b]))
    ensures Led([TMP_NAME], Relative(0, [b])) == Ok([TMP_NAME, b])
    ensures Led([TMP_NAME], Relative(1, [TMP_NAME, b])) == Ok([TMP_NAME, b])
  {
    assert Ups(0) + [b] == [b];
    assert Ups(1) + [TMP_NAME, b] == ["..", TMP_NAME, b];
    SlashedThree("..", TMP_NAME, b);
    assert [TMP_NAME][..1] + [b] == [TMP_NAME, b] && [TMP_NAME][..0] + [TMP_NAME, b] == [TMP_NAME, b];
  }

  lemma LinkLeads(fs: Fs, a: string, b: string, target: Target)
    requires ShortNames(a, b) && TargetOk(target) && Led([TMP_NAME], target) == Ok([TMP_NAME, b])
    requires |fs.dirs| >= 2 && fs.dirs[0] == ROOT_ENTRIES
    requires a in fs.dirs[1] && fs.dirs[1][a] == Symlink(TargetText(target))
    requires b in fs.dirs[1] && fs.dirs[1][b] == File(MemoryFile(0))
    ensures ResolveNode(fs, PathFromComponents([TMP_NAME, a]), true) == Ok(File(MemoryFile(0)))
  {
    ShortPaths(a, b);
    TmpParent(fs, a, b);
    WalkSnoc(fs, ROOT, [TMP_NAME], a);
    WalkSnoc(fs, ROOT, [TMP_NAME], b);
    assert [TMP_NAME] + [a] == [TMP_NAME, a] && [TMP_NAME] + [b] == [TMP_NAME, b];
    LinkFollowed(fs, [TMP_NAME], a, target, [], true, 0);
    assert [TMP_NAME, a] + [] == [TMP_NAME, a] && [TMP_NAME, b] + [] == [TMP_NAME, b];
    WalkResolves(fs, ROOT, [], [TMP_NAME, b], true, 1);
  }

  lemma LinkReads(host: HostNode, a: string, b: string, target: Target, data: Bytes, random: Bytes)
    requires HostNamesOk(host) && ShortNames(a, b) && TargetOk(target) && |data| <= MAX_FILE_SIZE
    requires Led([TMP_NAME], target) == Ok([TMP_NAME, b])
    ensures ValidState(NewState(host))
    ensures ReadAll(Run(NewState(host), LinkRun(a, b, target, data)).fs, PathFromComponents([TMP_NAME, a]), random)
         == Ok(data)
  {
    LinkState(host, a, b, target, data);
    var fs := Tmp(host, map[b := File(MemoryFile(0)), a := Symlink(TargetText(target))], [], [data]);
    LinkLeads(fs, a, b, target);
    ReadAllOutcome(fs, PathFromComponents([TMP_NAME, a]), random);
  }

  /** A link from `/tmp/a` to the file beside it, written as `b` or as `../tmp/b`, reads as that file. */
  lemma RelativeLinkReads(host: HostNode, a: string, b: string, data: Bytes, random: Bytes)
    requires HostNamesOk(host) && ShortNames(a, b) && |data| <= MAX_FILE_SIZE
    ensures ValidState(NewState(host)) && TargetOk(Relative(0, [b])) && TargetOk(Relative(1, [TMP_NAME, b]))
    ensures TargetText(Relative(0, [b])) == b
    ensures var path := PathFromComponents([TMP_NAME, a]);
            && ReadAll(Run(NewState(host), LinkRun(a, b, Relative(0, [b]), data)).fs, path, random) == Ok(data)
            && ReadAll(Run(NewState(host), LinkRun(a, b, Relative(1, [TMP_NAME, b]), data)).fs, path, random)
               == Ok(data)
  {
    TwoTargets(a, b);
    LinkReads(host, a, b, Relative(0, [b]), data, random);
    LinkReads(host, a, b, Relative(1, [TMP_NAME, b]), data, random);
  }
}
