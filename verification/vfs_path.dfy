/** Virtual paths: splitting, normalisation and rendering. */
module VfsPath {
  import opened Strings
  import opened Wrappers

  const MAX_PATH_LENGTH := 4096
  const MAX_PATH_SEGMENTS := 48

  datatype ErrorKind =
    | NotFound | NotDirectory | IsDirectory | AlreadyExists | NotEmpty | ReadOnly | NotPermitted
    | FileTooLarge | NoSpace | InvalidPath | InvalidInput | InvalidDescriptor | SymlinkLoop | Unsupported

  type Components = seq<string>

  /** A name that normalisation keeps as it is. */
  predicate ValidName(name: string) {
    name != "" && name != "." && name != ".." && '/' !in name && '\\' !in name && '\0' !in name
  }

  /** A name a directory can hold; a host file name may still contain a backslash. */
  predicate EntryName(name: string) {
    name != "" && name != "." && name != ".." && '/' !in name && '\0' !in name
  }

  predicate ValidComponents(components: Components) {
    forall i :: 0 <= i < |components| ==> ValidName(components[i])
  }

  predicate CleanParts(parts: seq<string>) {
    forall i :: 0 <= i < |parts| ==> '/' !in parts[i] && '\0' !in parts[i]
  }

  /** Normalisation of `parts` onto `components`, one part at a time. */
  function ApplyParts(components: Components, parts: seq<string>): (r: Result<Components, ErrorKind>)
    ensures r.Ok? && |components| <= MAX_PATH_SEGMENTS ==> |r.value| <= MAX_PATH_SEGMENTS
    ensures r.Ok? && ValidComponents(components) && CleanParts(parts) ==> ValidComponents(r.value)
    decreases |parts|
  {
    if parts == [] then Ok(components)
    else if parts[0] == "" || parts[0] == "." then ApplyParts(components, parts[1..])
    else if parts[0] == ".." then
      if components == [] then Err(InvalidPath)
      else ApplyParts(components[..|components| - 1], parts[1..])
    else if '\\' in parts[0] then Err(InvalidPath)
    else if |components| + 1 > MAX_PATH_SEGMENTS then Err(InvalidPath)
    else ApplyParts(components + [parts[0]], parts[1..])
  }

  lemma SplitClean(s: string)
    requires '\0' !in s
    ensures CleanParts(Split(s, '/'))
  {
    SplitParts(s, '/');
  }

  /** The loop that normalises in place. */
  method ApplyComponents(base: Components, parts: seq<string>) returns (r: Result<Components, ErrorKind>)
    ensures r == ApplyParts(base, parts)
  {
    var components := base;
    var index := 0;
    while index < |parts|
      invariant 0 <= index <= |parts|
      invariant ApplyParts(base, parts) == ApplyParts(components, parts[index..])
    {
      var part := parts[index];
      index := index + 1;
      if part == "" || part == "." {
      } else if part == ".." {
        if components == [] {
          return Err(InvalidPath);
        }
        components := components[..|components| - 1];
      } else if '\\' in part {
        return Err(InvalidPath);
      } else {
        components := components + [part];
        if |components| > MAX_PATH_SEGMENTS {
          return Err(InvalidPath);
        }
      }
    }
    return Ok(components);
  }

  function AbsoluteComponents(path: string): (r: Result<Components, ErrorKind>)
    ensures r.Ok? ==> ValidComponents(r.value) && |r.value| <= MAX_PATH_SEGMENTS
  {
    if path == "" || path[0] != '/' || '\0' in path || |path| > MAX_PATH_LENGTH then Err(InvalidPath)
    else
      SplitClean(path);
      ApplyParts([], Split(path, '/'))
  }

  function TargetComponents(base: Components, target: string): (r: Result<Components, ErrorKind>)
    ensures r.Ok? && ValidComponents(base) ==> ValidComponents(r.value)
    ensures r.Ok? && |base| <= MAX_PATH_SEGMENTS ==> |r.value| <= MAX_PATH_SEGMENTS
  {
    if '\0' in target || |target| > MAX_PATH_LENGTH then Err(InvalidPath)
    else
      SplitClean(target);
      ApplyParts(if target != "" && target[0] == '/' then [] else base, Split(target, '/'))
  }

  function Join(components: Components): string {
    if components == [] then ""
    else "/" + components[0] + Join(components[1..])
  }

  function PathFromComponents(components: Components): string {
    if components == [] then "/" else Join(components)
  }

  /** The textual path of an entry below `path`. */
  function ChildPath(path: string, name: string): string {
    if path == "/" then "/" + name else path + "/" + name
  }

  // ---- Splitting and joining ----

  lemma {:induction false} ApplyPartsConcat(components: Components, left: seq<string>, right: seq<string>)
    ensures ApplyParts(components, left + right) ==
            match ApplyParts(components, left) {
              case Ok(middle) => ApplyParts(middle, right)
              case Err(e) => Err(e)
            }
    decreases |left|
  {
    if left == [] {
      assert left + right == right;
    } else {
      assert (left + right)[1..] == left[1..] + right;
      if left[0] == "" || left[0] == "." {
        ApplyPartsConcat(components, left[1..], right);
      } else if left[0] == ".." {
        if components != [] {
          ApplyPartsConcat(components[..|components| - 1], left[1..], right);
        }
      } else if !('\\' in left[0]) && |components| + 1 <= MAX_PATH_SEGMENTS {
        ApplyPartsConcat(components + [left[0]], left[1..], right);
      }
    }
  }

  lemma {:induction false} JoinSplits(components: Components)
    requires forall i :: 0 <= i < |components| ==> '/' !in components[i]
    ensures Split(Join(components), '/') == [""] + components
  {
    if components != [] {
      JoinSplits(components[1..]);
      var rest := Join(components[1..]);
      var name := components[0];
      if components[1..] == [] {
        assert Join(components) == "" + "/" + name;
        SplitConcat("", name, '/');
        SplitWhole(name, '/');
      } else {
        assert rest == "/" + rest[1..] by { assert rest[0] == '/'; }
        assert Join(components) == "" + "/" + (name + rest);
        SplitConcat("", name + rest, '/');
        assert rest == "" + "/" + rest[1..];
        SplitConcat("", rest[1..], '/');
        assert Split(rest, '/')[1..] == Split(rest[1..], '/');
        assert name + rest == name + "/" + rest[1..];
        SplitConcat(name, rest[1..], '/');
        SplitWhole(name, '/');
        assert components == [name] + components[1..];
      }
    }
  }

  lemma {:induction false} ApplyValid(base: Components, parts: seq<string>)
    requires ValidComponents(parts)
    ensures ApplyParts(base, parts) ==
            if |base| + |parts| <= MAX_PATH_SEGMENTS || parts == [] then Ok(base + parts) else Err(InvalidPath)
    decreases |parts|
  {
    if parts == [] {
      assert base + parts == base;
    } else {
      ApplyValid(base + [parts[0]], parts[1..]);
      assert base + [parts[0]] + parts[1..] == base + parts;
    }
  }

  lemma {:induction false} JoinChars(components: Components, c: char)
    ensures c in Join(components)
            <==> (c == '/' && components != []) || exists i :: 0 <= i < |components| && c in components[i]
  {
    if components != [] {
      JoinChars(components[1..], c);
      if c in Join(components[1..]) && c != '/' {
        var i :| 0 <= i < |components[1..]| && c in components[1..][i];
        assert c in components[i + 1];
      }
      if i :| 0 <= i < |components| && c in components[i] {
        if i > 0 {
          assert c in components[1..][i - 1];
        }
      }
    }
  }

  /**
   * Rendering a component list and parsing it again is the identity exactly when the list
   * is what a parse can return: valid names, at most 48 of them, at most 4096 characters.
   */
  lemma PathRoundTrip(components: Components)
    ensures AbsoluteComponents(PathFromComponents(components)) == Ok(components)
            <==> ValidComponents(components) && |components| <= 48 && |PathFromComponents(components)| <= 4096
  {
    var path := PathFromComponents(components);
    if ValidComponents(components) && |components| <= MAX_PATH_SEGMENTS && |path| <= MAX_PATH_LENGTH {
      JoinChars(components, '\0');
      if components == [] {
        SplitConcat("", "", '/');
        assert path == "" + "/" + "";
        assert Split(path, '/') == ["", ""];
        assert ["", ""][1..] == [""];
        assert ApplyParts([], ["", ""]) == ApplyParts([], [""]);
      } else {
        JoinSplits(components);
        assert ([""] + components)[1..] == components;
        assert ApplyParts([], [""] + components) == ApplyParts([], components);
        ApplyValid([], components);
        assert [] + components == components;
      }
    }
  }

  /** An entry's textual path parses, if at all, to its directory's components and its name. */
  lemma ChildPathComponents(path: string, name: string)
    requires EntryName(name)
    requires AbsoluteComponents(ChildPath(path, name)).Ok? && path != ""
    ensures AbsoluteComponents(path).Ok?
    ensures AbsoluteComponents(ChildPath(path, name)).value == AbsoluteComponents(path).value + [name]
  {
    var child := ChildPath(path, name);
    var parent := if path == "/" then "" else path;
    assert child == parent + "/" + name;
    SplitConcat(parent, name, '/');
    SplitWhole(name, '/');
    ApplyPartsConcat([], Split(parent, '/'), [name]);
    assert path[0] == '/' by {
      assert child[0] == '/';
      if path != "/" { assert child[0] == path[0]; }
    }
    if path == "/" {
      PathRoundTrip([]);
      assert ApplyParts([], [""]) == Ok([]);
      assert AbsoluteComponents(path) == Ok([]);
    } else {
      assert forall i :: 0 <= i < |path| ==> path[i] == child[i];
      assert |path| <= |child|;
      var middle := ApplyParts([], Split(path, '/'));
      assert middle.Ok?;
      ApplyValid(middle.value, [name]);
    }
  }
}
