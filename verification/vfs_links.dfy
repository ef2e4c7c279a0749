/** What path texts and link targets mean, name by name. */
module VfsLinks {
  import opened Strings
  import opened Wrappers
  import opened VfsPath
  import opened VfsNodes
  import opened VfsResolve

  // ---- Parts ----

  /** Parts written one after another with slashes between them and none in front. */
  function Slashed(parts: seq<string>): string {
    if |parts| == 0 then ""
    else if |parts| == 1 then parts[0]
    else parts[0] + ['/'] + Slashed(parts[1..])
  }

  lemma {:induction false} SlashedSplits(parts: seq<string>)
    requires parts != [] && forall i :: 0 <= i < |parts| ==> '/' !in parts[i]
    ensures Split(Slashed(parts), '/') == parts
  {
    SplitWhole(parts[0], '/');
    if |parts| == 1 {
      assert parts == [parts[0]];
    } else {
      SlashedSplits(parts[1..]);
      SplitConcat(parts[0], Slashed(parts[1..]), '/');
      assert parts == [parts[0]] + parts[1..];
    }
  }

  /** An empty part and a single dot stand for nothing. */
  lemma NothingParts(base: Components, rest: seq<string>)
    ensures ApplyParts(base, [""] + rest) == ApplyParts(base, rest)
    ensures ApplyParts(base, ["."] + rest) == ApplyParts(base, rest)
  {
    assert ([""] + rest)[1..] == rest && (["."] + rest)[1..] == rest;
  }

  lemma OnePart(base: Components, part: string, rest: seq<string>)
    requires ValidName(part) && |base| < MAX_PATH_SEGMENTS
    ensures ApplyParts(base, [part] + rest) == ApplyParts(base + [part], rest)
  {
    assert ([part] + rest)[1..] == rest;
  }

  lemma OneUp(base: Components, name: string, rest: seq<string>)
    ensures ApplyParts(base + [name], [".."] + rest) == ApplyParts(base, rest)
  {
    assert ([".."] + rest)[1..] == rest && (base + [name])[..|base|] == base;
  }

  /** A name is taken back by the `..` behind it. */
  lemma PartsCancel(base: Components, name: string, rest: seq<string>)
    requires ValidName(name) && |base| < MAX_PATH_SEGMENTS
    ensures ApplyParts(base, [name, ".."] + rest) == ApplyParts(base, rest)
  {
    assert [name, ".."] + rest == [name] + ([".."] + rest);
    OnePart(base, name, [".."] + rest);
    OneUp(base, name, rest);
  }

  function Ups(count: nat): seq<string> {
    seq(count, _ => "..")
  }

  /** Leading `..` parts cut names off the end of the base, and there must be as many. */
  lemma {:induction false} UpsThenNames(base: Components, ups: nat, names: Components)
    requires ValidComponents(names) && |base| <= MAX_PATH_SEGMENTS
    ensures ApplyParts(base, Ups(ups) + names)
         == if ups > |base| then Err(InvalidPath)
            else if |base| - ups + |names| > MAX_PATH_SEGMENTS then Err(InvalidPath)
            else Ok(base[..|base| - ups] + names)
    decreases ups
  {
    if ups == 0 {
      assert Ups(0) + names == names && base[..|base|] == base;
      ApplyValid(base, names);
    } else {
      var parts := Ups(ups) + names;
      assert parts[0] == ".." && parts[1..] == Ups(ups - 1) + names;
      if base != [] {
        var shorter := base[..|base| - 1];
        UpsThenNames(shorter, ups - 1, names);
        if ups <= |base| {
          assert shorter[..|shorter| - (ups - 1)] == base[..|base| - ups];
        }
      }
    }
  }

  /** Nothing with a backslash is ever accepted, wherever it stands. */
  lemma {:induction false} BackslashRefused(base: Components, parts: seq<string>, i: nat)
    requires i < |parts| && '\\' in parts[i]
    ensures ApplyParts(base, parts).Err?
    decreases |parts|
  {
    if i > 0 && ApplyParts(base, parts).Ok? {
      var next := if parts[0] == "" || parts[0] == "." then base
                  else if parts[0] == ".." then base[..|base| - 1] else base + [parts[0]];
      BackslashRefused(next, parts[1..], i - 1);
    }
  }

  lemma {:induction false} SplitHas(text: string, c: char)
    requires c in text && c != '/'
    ensures exists i :: 0 <= i < |Split(text, '/')| && c in Split(text, '/')[i]
  {
    var rest := Split(text[1..], '/');
    var parts := Split(text, '/');
    if text[0] == c {
      assert c in parts[0];
    } else {
      SplitHas(text[1..], c);
      var i :| 0 <= i < |rest| && c in rest[i];
      assert c in parts[if text[0] == '/' then i + 1 else i];
    }
  }

  /** Every path that is accepted is absolute, short enough and free of backslashes and zero characters. */
  lemma AcceptedPath(path: string)
    requires AbsoluteComponents(path).Ok?
    ensures path != "" && path[0] == '/' && |path| <= 4096 && '\0' !in path && '\\' !in path
    ensures |AbsoluteComponents(path).value| <= 48
  {
    if '\\' in path {
      SplitHas(path, '\\');
      var i :| 0 <= i < |Split(path, '/')| && '\\' in Split(path, '/')[i];
      BackslashRefused([], Split(path, '/'), i);
    }
  }

  function Spelling(above: Components, middle: seq<string>, below: Components): string {
    Slashed([""] + (above + (middle + below)))
  }

  /** `/above/name/../below` is `/above/below`, and so is `/above//./below`. */
  lemma UpInPath(above: Components, name: string, below: Components)
    requires ValidComponents(above) && ValidName(name) && ValidComponents(below) && above + below != []
    requires |above| < MAX_PATH_SEGMENTS && |above| + |below| <= MAX_PATH_SEGMENTS
    ensures |Spelling(above, [name, ".."], below)| <= MAX_PATH_LENGTH ==>
              AbsoluteComponents(Spelling(above, [name, ".."], below)) == Ok(above + below)
    ensures |Spelling(above, ["", "."], below)| <= MAX_PATH_LENGTH ==>
              AbsoluteComponents(Spelling(above, ["", "."], below)) == Ok(above + below)
  {
    SpellingReads(above, [name, ".."], below);
    SpellingReads(above, ["", "."], below);
    PartsCancel(above, name, below);
    NothingParts(above, ["."] + below);
    NothingParts(above, below);
    assert [""] + (["."] + below) == ["", "."] + below;
    ApplyValid(above, below);
  }

  lemma SpellingReads(above: Components, middle: seq<string>, below: Components)
    requires ValidComponents(above) && ValidComponents(below) && |above| <= MAX_PATH_SEGMENTS && middle != []
    requires forall i :: 0 <= i < |middle| ==> '/' !in middle[i] && '\0' !in middle[i]
    ensures |Spelling(above, middle, below)| <= MAX_PATH_LENGTH ==>
              AbsoluteComponents(Spelling(above, middle, below)) == ApplyParts(above, middle + below)
  {
    if |Spelling(above, middle, below)| <= MAX_PATH_LENGTH {
      RootedParts(above + (middle + below));
    }
    ApplyValid([], above);
    assert [] + above == above;
    ApplyPartsConcat([], above, middle + below);
  }

  lemma RootedParts(parts: seq<string>)
    requires parts != [] && (forall i :: 0 <= i < |parts| ==> '/' !in parts[i] && '\0' !in parts[i])
    requires |Slashed([""] + parts)| <= MAX_PATH_LENGTH
    ensures AbsoluteComponents(Slashed([""] + parts)) == ApplyParts([], parts)
  {
    var all := [""] + parts;
    assert all[1..] == parts;
    SlashedSplits(all);
    SlashedChars(all, '\0');
    assert Slashed(all) == "" + ['/'] + Slashed(parts);
  }

  lemma {:induction false} SlashedChars(parts: seq<string>, c: char)
    requires c != '/' && forall i :: 0 <= i < |parts| ==> c !in parts[i]
    ensures c !in Slashed(parts)
  {
    if |parts| > 1 {
      SlashedChars(parts[1..], c);
    }
  }

  // ---- Link targets ----

  /** The text of a target: absolute, or going `ups` directories up before it goes down. */
  datatype Target = Absolute(names: Components) | Relative(ups: nat, names: Components)

  predicate TargetOk(target: Target) {
    ValidComponents(target.names) && target.names != [] && |TargetText(target)| <= MAX_PATH_LENGTH
  }

  function TargetText(target: Target): string {
    match target
    case Absolute(names) => Slashed([""] + names)
    case Relative(ups, names) => Slashed(Ups(ups) + names)
  }

  /** Where a target leads from a directory. */
  function Led(directory: Components, target: Target): Result<Components, ErrorKind> {
    match target
    case Absolute(names) => if |names| > MAX_PATH_SEGMENTS then Err(InvalidPath) else Ok(names)
    case Relative(ups, names) =>
      if ups > |directory| || |directory| - ups + |names| > MAX_PATH_SEGMENTS then Err(InvalidPath)
      else Ok(directory[..|directory| - ups] + names)
  }

  lemma FirstChar(parts: seq<string>)
    requires parts != [] && parts[0] != ""
    ensures Slashed(parts) != "" && Slashed(parts)[0] == parts[0][0]
  {
  }

  /** A target is read from its directory, or from the root if a slash leads it. */
  lemma TargetMeans(directory: Components, target: Target)
    requires TargetOk(target) && |directory| <= MAX_PATH_SEGMENTS
    ensures TargetComponents(directory, TargetText(target)) == Led(directory, target)
  {
    match target
    case Absolute(names) =>
      SlashedSplits([""] + names);
      SlashedChars([""] + names, '\0');
      assert ([""] + names)[1..] == names;
      ApplyValid([], names);
      assert [] + names == names;
    case Relative(ups, names) =>
      var parts := Ups(ups) + names;
      SlashedSplits(parts);
      SlashedChars(parts, '\0');
      FirstChar(parts);
      UpsThenNames(directory, ups, names);
  }

  /** A target that is too long or holds a zero character is refused where it is followed. */
  lemma TargetRefused(directory: Components, target: string)
    requires |target| > 4096 || '\0' in target
    ensures TargetComponents(directory, target) == Err(InvalidPath)
  {
  }

  /** Resolution takes the names of a plain walk one by one. */
  lemma {:induction false} PlainPrefix(
    fs: Fs, current: Node, resolved: Components, names: Components, pending: Components,
    followFinal: bool, symlinks: nat)
    requires symlinks <= MAX_SYMLINKS && pending != []
    requires Walk(fs, current, names).Some? && Walk(fs, current, names).value.Dir?
    ensures Resolve(fs, names + pending, current, resolved, followFinal, symlinks)
         == Resolve(fs, pending, Walk(fs, current, names).value, resolved + names, followFinal, symlinks)
    decreases |names|
  {
    if names == [] {
      assert names + pending == pending && resolved + names == resolved;
    } else {
      var child := Step(fs, current, names[0]).value;
      WalkToDir(fs, child, names[1..]);
      assert (names + pending)[1..] == names[1..] + pending;
      PlainPrefix(fs, child, resolved + [names[0]], names[1..], pending, followFinal, symlinks);
      assert resolved + [names[0]] + names[1..] == resolved + names;
    }
  }

  /** Only a directory can be walked through. */
  lemma WalkToDir(fs: Fs, node: Node, names: Components)
    requires Walk(fs, node, names).Some? && Walk(fs, node, names).value.Dir?
    ensures node.Dir?
  {
  }

  /**
   * Following a link: where the plain path `directory` holds a link called `name`, any path through it
   * resolves as the path its target leads to, with one link more used up: from that directory if the
   * target is relative, from the root if it is absolute, and not at all if it climbs past the root.
   */
  lemma LinkFollowed(fs: Fs, directory: Components, name: string, target: Target, rest: Components,
                     followFinal: bool, symlinks: nat)
    requires symlinks <= MAX_SYMLINKS && TargetOk(target) && |directory| <= MAX_PATH_SEGMENTS
    requires Walk(fs, ROOT, directory + [name]) == Some(Symlink(TargetText(target)))
    requires followFinal || rest != []
    ensures Resolve(fs, directory + [name] + rest, ROOT, [], followFinal, symlinks)
         == if symlinks == 40 then Err(SymlinkLoop)
            else if Led(directory, target).Err? then Err(InvalidPath)
            else Resolve(fs, Led(directory, target).value + rest, ROOT, [], followFinal, symlinks + 1)
  {
    WalkSnoc(fs, ROOT, directory, name);
    var pending := [name] + rest;
    PlainPrefix(fs, ROOT, [], directory, pending, followFinal, symlinks);
    assert directory + [name] + rest == directory + pending && [] + directory == directory;
    assert pending[1..] == rest;
    TargetMeans(directory, target);
  }

  /** Where a path without links ends early: at a file with names behind it, at a missing name, at a host link. */
  lemma PathEnds(fs: Fs, directory: Components, name: string, rest: Components, followFinal: bool, symlinks: nat)
    requires symlinks <= MAX_SYMLINKS
    requires Walk(fs, ROOT, directory).Some?
    ensures Walk(fs, ROOT, directory).value.File? && directory != [] ==>
              Resolve(fs, directory + [name] + rest, ROOT, [], followFinal, symlinks) == Err(NotDirectory)
    ensures Walk(fs, ROOT, directory).value.Dir?
            && Lookup(fs, Walk(fs, ROOT, directory).value.directory, name) == Ok(None) ==>
              Resolve(fs, directory + [name] + rest, ROOT, [], followFinal, symlinks) == Err(NotFound)
    ensures Walk(fs, ROOT, directory).value.Dir?
            && Lookup(fs, Walk(fs, ROOT, directory).value.directory, name) == Err(Unsupported) ==>
              Resolve(fs, directory + [name] + rest, ROOT, [], followFinal, symlinks) == Err(Unsupported)
  {
    var node, pending := Walk(fs, ROOT, directory).value, [name] + rest;
    assert directory + [name] + rest == directory + pending;
    if node.Dir? {
      PlainPrefix(fs, ROOT, [], directory, pending, followFinal, symlinks);
    } else if node.File? && directory != [] {
      var k := |directory| - 1;
      assert directory == directory[..k] + [directory[k]];
      WalkSnoc(fs, ROOT, directory[..k], directory[k]);
      PlainPrefix(fs, ROOT, [], directory[..k], [directory[k]] + pending, followFinal, symlinks);
      assert directory + pending == directory[..k] + ([directory[k]] + pending);
      assert ([directory[k]] + pending)[1..] == pending;
    }
  }

  /** Host links and special files stand in no listing and can be neither found nor passed. */
  lemma HostOtherUnsupported(fs: Fs, relative: Components, name: string)
    requires HostAt(fs.host, relative + [name]) == Some(HostOther)
    ensures Lookup(fs, BundleDir(relative), name) == Err(Unsupported)
    ensures Step(fs, Dir(BundleDir(relative)), name) == None
    ensures HostAt(fs.host, relative).Some? && HostAt(fs.host, relative).value.HostDir?
            && name in HostAt(fs.host, relative).value.entries
            && HostAt(fs.host, relative).value.entries[name] == HostOther ==>
              EntryNames(fs, BundleDir(relative)) == Err(Unsupported)
  {
  }

  // ---- The link budget ----

  /** Links in one directory, each the name of the next. */
  ghost predicate Chained(fs: Fs, directory: Components, names: Components) {
    && names != [] && ValidComponents(names) && (forall i :: 0 <= i < |names| ==> |names[i]| <= MAX_PATH_LENGTH)
    && forall i :: 0 <= i < |names| - 1 ==>
         Walk(fs, ROOT, directory + [names[i]]) == Some(Symlink(names[i + 1]))
  }

  lemma ChainTail(fs: Fs, directory: Components, names: Components)
    requires Chained(fs, directory, names) && |names| > 1
    ensures Chained(fs, directory, names[1..])
  {
    forall i | 0 <= i < |names| - 2
      ensures Walk(fs, ROOT, directory + [names[1..][i]]) == Some(Symlink(names[1..][i + 1]))
    {
      assert names[1..][i] == names[i + 1] && names[1..][i + 1] == names[(i + 1) + 1];
    }
  }

  /** A chain of links is followed to its end if it has no more links than are left, and refused otherwise. */
  lemma {:induction false} ChainFollowed(fs: Fs, directory: Components, names: Components, symlinks: nat)
    requires Chained(fs, directory, names) && |directory| < MAX_PATH_SEGMENTS && symlinks <= MAX_SYMLINKS
    requires Walk(fs, ROOT, directory + [names[|names| - 1]]).Some?
    requires !Walk(fs, ROOT, directory + [names[|names| - 1]]).value.Symlink?
    ensures Resolve(fs, directory + [names[0]], ROOT, [], true, symlinks)
         == if symlinks + |names| - 1 > 40 then Err(SymlinkLoop)
            else Ok((Walk(fs, ROOT, directory + [names[|names| - 1]]).value, directory + [names[|names| - 1]]))
    decreases |names|
  {
    if |names| == 1 {
      WalkResolves(fs, ROOT, [], directory + [names[0]], true, symlinks);
      assert [] + (directory + [names[0]]) == directory + [names[0]];
    } else {
      var target, later := Relative(0, [names[1]]), names[1..];
      assert Ups(0) + [names[1]] == [names[1]];
      assert TargetText(target) == names[1];
      LinkFollowed(fs, directory, names[0], target, [], true, symlinks);
      assert directory[..|directory|] == directory;
      assert directory + [names[0]] + [] == directory + [names[0]];
      assert directory + [names[1]] + [] == directory + [names[1]];
      if symlinks < 40 {
        ChainTail(fs, directory, names);
        ChainFollowed(fs, directory, later, symlinks + 1);
      }
    }
  }

  /** A link to itself is refused, with whatever budget. */
  lemma {:induction false} SelfLinkRefused(fs: Fs, directory: Components, name: string, symlinks: nat)
    requires ValidName(name) && |name| <= MAX_PATH_LENGTH && |directory| < MAX_PATH_SEGMENTS
    requires Walk(fs, ROOT, directory + [name]) == Some(Symlink(name)) && symlinks <= MAX_SYMLINKS
    ensures Resolve(fs, directory + [name], ROOT, [], true, symlinks) == Err(SymlinkLoop)
    decreases MAX_SYMLINKS - symlinks
  {
    var target := Relative(0, [name]);
    assert Ups(0) + [name] == [name];
    assert TargetText(target) == name;
    LinkFollowed(fs, directory, name, target, [], true, symlinks);
    assert directory[..|directory|] == directory;
    assert directory + [name] + [] == directory + [name];
    if symlinks < 40 {
      SelfLinkRefused(fs, directory, name, symlinks + 1);
    }
  }
}
