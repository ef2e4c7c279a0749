/** The wildcard language, decided by a worklist, by a table and, for path segments, by recursion. */
module Wildcards {

  // ---- The language, for any alphabet ----

  /** `star` says which pattern symbols stand for any run, `one` what the others match. */
  datatype Language<!P, !V> = Language(star: P -> bool, one: (P, V) -> bool)

  function Flatten<V>(pieces: seq<seq<V>>): seq<V> {
    if pieces == [] then [] else pieces[0] + Flatten(pieces[1..])
  }

  predicate Fits<P, V>(language: Language<P, V>, symbol: P, piece: seq<V>) {
    language.star(symbol) || (|piece| == 1 && language.one(symbol, piece[0]))
  }

  /** The value is cut into one piece per pattern symbol, each fitting its symbol. */
  ghost predicate Covers<P, V>(language: Language<P, V>, pattern: seq<P>, value: seq<V>, pieces: seq<seq<V>>) {
    && |pieces| == |pattern| && Flatten(pieces) == value
    && forall i :: 0 <= i < |pattern| ==> Fits(language, pattern[i], pieces[i])
  }

  ghost predicate Matches<P, V(!new)>(language: Language<P, V>, pattern: seq<P>, value: seq<V>) {
    exists pieces :: Covers(language, pattern, value, pieces)
  }

  // ---- Rules at the front ----

  lemma CoverCons<P, V>(
    language: Language<P, V>, symbol: P, pattern: seq<P>, piece: seq<V>, value: seq<V>, pieces: seq<seq<V>>)
    requires Fits(language, symbol, piece) && Covers(language, pattern, value, pieces)
    ensures Covers(language, [symbol] + pattern, piece + value, [piece] + pieces)
  {
    assert ([piece] + pieces)[1..] == pieces;
  }

  lemma CoverUncons<P, V>(language: Language<P, V>, pattern: seq<P>, value: seq<V>, pieces: seq<seq<V>>)
    requires pattern != [] && Covers(language, pattern, value, pieces)
    ensures value == pieces[0] + Flatten(pieces[1..]) && Fits(language, pattern[0], pieces[0])
    ensures Covers(language, pattern[1..], Flatten(pieces[1..]), pieces[1..])
  {
  }

  lemma MatchesEmpty<P, V(!new)>(language: Language<P, V>, value: seq<V>)
    ensures Matches(language, [], value) <==> value == []
  {
    if value == [] {
      assert Covers(language, [], value, []);
    }
  }

  lemma MatchesOne<P, V(!new)>(language: Language<P, V>, pattern: seq<P>, value: seq<V>)
    requires pattern != [] && !language.star(pattern[0])
    ensures Matches(language, pattern, value)
            <==> value != [] && language.one(pattern[0], value[0]) && Matches(language, pattern[1..], value[1..])
  {
    if Matches(language, pattern, value) {
      var pieces :| Covers(language, pattern, value, pieces);
      CoverUncons(language, pattern, value, pieces);
      assert value[1..] == Flatten(pieces[1..]);
    }
    if value != [] && language.one(pattern[0], value[0]) && Matches(language, pattern[1..], value[1..]) {
      var pieces :| Covers(language, pattern[1..], value[1..], pieces);
      CoverCons(language, pattern[0], pattern[1..], [value[0]], value[1..], pieces);
      assert [pattern[0]] + pattern[1..] == pattern && [value[0]] + value[1..] == value;
    }
  }

  lemma StarTakesLess<P, V(!new)>(language: Language<P, V>, pattern: seq<P>, value: seq<V>)
    requires pattern != [] && language.star(pattern[0]) && Matches(language, pattern, value)
    ensures Matches(language, pattern[1..], value) || (value != [] && Matches(language, pattern, value[1..]))
  {
    var pieces :| Covers(language, pattern, value, pieces);
    CoverUncons(language, pattern, value, pieces);
    var rest := Flatten(pieces[1..]);
    if pieces[0] == [] {
      assert value == rest;
    } else {
      CoverCons(language, pattern[0], pattern[1..], pieces[0][1..], rest, pieces[1..]);
      assert value[1..] == pieces[0][1..] + rest && [pattern[0]] + pattern[1..] == pattern;
    }
  }

  lemma StarTakesNone<P, V(!new)>(language: Language<P, V>, pattern: seq<P>, value: seq<V>)
    requires pattern != [] && language.star(pattern[0]) && Matches(language, pattern[1..], value)
    ensures Matches(language, pattern, value)
  {
    var pieces :| Covers(language, pattern[1..], value, pieces);
    CoverCons(language, pattern[0], pattern[1..], [], value, pieces);
    assert [] + value == value && [pattern[0]] + pattern[1..] == pattern;
  }

  lemma StarTakesMore<P, V(!new)>(language: Language<P, V>, pattern: seq<P>, value: seq<V>)
    requires pattern != [] && language.star(pattern[0]) && value != [] && Matches(language, pattern, value[1..])
    ensures Matches(language, pattern, value)
  {
    var pieces :| Covers(language, pattern, value[1..], pieces);
    CoverUncons(language, pattern, value[1..], pieces);
    CoverCons(language, pattern[0], pattern[1..], [value[0]] + pieces[0], Flatten(pieces[1..]), pieces[1..]);
    assert [pattern[0]] + pattern[1..] == pattern;
    assert ([value[0]] + pieces[0]) + Flatten(pieces[1..]) == [value[0]] + value[1..] == value;
  }

  lemma MatchesStar<P, V(!new)>(language: Language<P, V>, pattern: seq<P>, value: seq<V>)
    requires pattern != [] && language.star(pattern[0])
    ensures Matches(language, pattern, value)
            <==> Matches(language, pattern[1..], value) || (value != [] && Matches(language, pattern, value[1..]))
  {
    if Matches(language, pattern, value) {
      StarTakesLess(language, pattern, value);
    } else if Matches(language, pattern[1..], value) {
      StarTakesNone(language, pattern, value);
    } else if value != [] && Matches(language, pattern, value[1..]) {
      StarTakesMore(language, pattern, value);
    }
  }

  // ---- Rules at the back ----

  lemma {:induction false} FlattenSnoc<V>(pieces: seq<seq<V>>, piece: seq<V>)
    ensures Flatten(pieces + [piece]) == Flatten(pieces) + piece
  {
    if pieces == [] {
      assert [piece][1..] == [];
    } else {
      assert (pieces + [piece])[1..] == pieces[1..] + [piece];
      FlattenSnoc(pieces[1..], piece);
    }
  }

  lemma CoverSnoc<P, V>(
    language: Language<P, V>, symbol: P, pattern: seq<P>, piece: seq<V>, value: seq<V>, pieces: seq<seq<V>>)
    requires Fits(language, symbol, piece) && Covers(language, pattern, value, pieces)
    ensures Covers(language, pattern + [symbol], value + piece, pieces + [piece])
  {
    FlattenSnoc(pieces, piece);
  }

  lemma CoverUnsnoc<P, V>(language: Language<P, V>, symbol: P, pattern: seq<P>, value: seq<V>, pieces: seq<seq<V>>)
    requires Covers(language, pattern + [symbol], value, pieces)
    ensures var k := |pieces| - 1;
            value == Flatten(pieces[..k]) + pieces[k] && Fits(language, symbol, pieces[k])
            && Covers(language, pattern, Flatten(pieces[..k]), pieces[..k])
  {
    var k := |pieces| - 1;
    assert pieces == pieces[..k] + [pieces[k]];
    FlattenSnoc(pieces[..k], pieces[k]);
    assert (pattern + [symbol])[k] == symbol;
    forall i | 0 <= i < |pattern|
      ensures Fits(language, pattern[i], pieces[..k][i])
    {
      assert (pattern + [symbol])[i] == pattern[i];
    }
  }

  lemma MatchesOneBack<P, V(!new)>(language: Language<P, V>, pattern: seq<P>, symbol: P, value: seq<V>)
    requires !language.star(symbol)
    ensures Matches(language, pattern + [symbol], value)
            <==> value != [] && language.one(symbol, value[|value| - 1])
                 && Matches(language, pattern, value[..|value| - 1])
  {
    if Matches(language, pattern + [symbol], value) {
      var pieces :| Covers(language, pattern + [symbol], value, pieces);
      CoverUnsnoc(language, symbol, pattern, value, pieces);
      var k := |pieces| - 1;
      assert value[..|value| - 1] == Flatten(pieces[..k]);
    }
    if value != [] && language.one(symbol, value[|value| - 1]) && Matches(language, pattern, value[..|value| - 1]) {
      var pieces :| Covers(language, pattern, value[..|value| - 1], pieces);
      CoverSnoc(language, symbol, pattern, [value[|value| - 1]], value[..|value| - 1], pieces);
      assert value[..|value| - 1] + [value[|value| - 1]] == value;
    }
  }

  lemma MatchesStarBack<P, V(!new)>(language: Language<P, V>, pattern: seq<P>, symbol: P, value: seq<V>)
    requires language.star(symbol)
    ensures Matches(language, pattern + [symbol], value)
            <==> Matches(language, pattern, value)
                 || (value != [] && Matches(language, pattern + [symbol], value[..|value| - 1]))
  {
    if Matches(language, pattern + [symbol], value) {
      var pieces :| Covers(language, pattern + [symbol], value, pieces);
      CoverUnsnoc(language, symbol, pattern, value, pieces);
      var k := |pieces| - 1;
      var front, last := Flatten(pieces[..k]), pieces[k];
      if last == [] {
        assert value == front;
      } else {
        CoverSnoc(language, symbol, pattern, last[..|last| - 1], front, pieces[..k]);
        assert value[..|value| - 1] == front + last[..|last| - 1];
      }
    }
    if Matches(language, pattern, value) {
      var pieces :| Covers(language, pattern, value, pieces);
      CoverSnoc(language, symbol, pattern, [], value, pieces);
      assert value + [] == value;
    }
    if value != [] && Matches(language, pattern + [symbol], value[..|value| - 1]) {
      var pieces :| Covers(language, pattern + [symbol], value[..|value| - 1], pieces);
      CoverUnsnoc(language, symbol, pattern, value[..|value| - 1], pieces);
      var k := |pieces| - 1;
      var grown := pieces[k] + [value[|value| - 1]];
      CoverSnoc(language, symbol, pattern, grown, Flatten(pieces[..k]), pieces[..k]);
      assert Flatten(pieces[..k]) + grown == value[..|value| - 1] + [value[|value| - 1]] == value;
    }
  }

  // ---- One path segment, as bytes ----

  type Segment = seq<bv8>

  const STAR: bv8 := 42
  const QUESTION: bv8 := 63

  const BYTES := Language(
    (symbol: bv8) => symbol == STAR,
    (symbol: bv8, byte: bv8) => symbol == QUESTION || symbol == byte)

  /** How much a state can still push, itself included. */
  function Cost(left: nat, right: nat): nat {
    if left == 0 then 1
    else if right == 0 then 1 + Cost(left - 1, 0)
    else 1 + Cost(left - 1, right) + Cost(left, right - 1) + Cost(left - 1, right - 1)
  }

  predicate StatesOk(pattern: Segment, value: Segment, states: seq<(nat, nat)>) {
    forall i :: 0 <= i < |states| ==> states[i].0 <= |pattern| && states[i].1 <= |value|
  }

  function Total(pattern: Segment, value: Segment, states: seq<(nat, nat)>): nat
    requires StatesOk(pattern, value, states)
  {
    if states == [] then 0
    else
      var last := states[|states| - 1];
      Total(pattern, value, states[..|states| - 1]) + Cost(|pattern| - last.0, |value| - last.1)
  }

  ghost predicate MatchesFrom(pattern: Segment, value: Segment, state: (nat, nat))
    requires state.0 <= |pattern| && state.1 <= |value|
  {
    Matches(BYTES, pattern[state.0..], value[state.1..])
  }

  ghost predicate SomeMatches(pattern: Segment, value: Segment, states: seq<(nat, nat)>)
    requires StatesOk(pattern, value, states)
  {
    exists i :: 0 <= i < |states| && MatchesFrom(pattern, value, states[i])
  }

  lemma SomeMatchesAppend(pattern: Segment, value: Segment, a: seq<(nat, nat)>, b: seq<(nat, nat)>)
    requires StatesOk(pattern, value, a) && StatesOk(pattern, value, b)
    ensures StatesOk(pattern, value, a + b)
    ensures SomeMatches(pattern, value, a + b) <==> SomeMatches(pattern, value, a) || SomeMatches(pattern, value, b)
  {
    if i :| 0 <= i < |a| && MatchesFrom(pattern, value, a[i]) {
      assert MatchesFrom(pattern, value, (a + b)[i]);
    }
    if i :| 0 <= i < |b| && MatchesFrom(pattern, value, b[i]) {
      assert MatchesFrom(pattern, value, (a + b)[|a| + i]);
    }
  }

  lemma {:induction false} TotalAppend(pattern: Segment, value: Segment, a: seq<(nat, nat)>, b: seq<(nat, nat)>)
    requires StatesOk(pattern, value, a) && StatesOk(pattern, value, b)
    ensures StatesOk(pattern, value, a + b)
    ensures Total(pattern, value, a + b) == Total(pattern, value, a) + Total(pattern, value, b)
    decreases |b|
  {
    if b == [] {
      assert a + b == a;
    } else {
      assert (a + b)[..|a + b| - 1] == a + b[..|b| - 1];
      TotalAppend(pattern, value, a, b[..|b| - 1]);
    }
  }

  /** What one state stands for, in terms of the states it pushes. */
  lemma StateRule(pattern: Segment, value: Segment, p: nat, v: nat)
    requires p < |pattern| && v <= |value|
    ensures pattern[p] == STAR ==>
              (MatchesFrom(pattern, value, (p, v))
               <==> MatchesFrom(pattern, value, (p + 1, v)) || (v < |value| && MatchesFrom(pattern, value, (p, v + 1))))
    ensures pattern[p] != STAR ==>
              (MatchesFrom(pattern, value, (p, v))
               <==> v < |value| && (pattern[p] == QUESTION || pattern[p] == value[v])
                    && MatchesFrom(pattern, value, (p + 1, v + 1)))
  {
    assert pattern[p..][1..] == pattern[p + 1..];
    if v < |value| {
      assert value[v..][1..] == value[v + 1..];
    }
    if pattern[p] == STAR {
      MatchesStar(BYTES, pattern[p..], value[v..]);
    } else {
      MatchesOne(BYTES, pattern[p..], value[v..]);
    }
  }

  /** The states a state is replaced by. */
  function Successors(pattern: Segment, value: Segment, p: nat, v: nat): seq<(nat, nat)>
    requires p <= |pattern| && v <= |value|
  {
    if p == |pattern| then []
    else if pattern[p] == STAR then if v < |value| then [(p + 1, v), (p, v + 1)] else [(p + 1, v)]
    else if v < |value| && (pattern[p] == QUESTION || pattern[p] == value[v]) then [(p + 1, v + 1)]
    else []
  }

  lemma SuccessorsDecide(pattern: Segment, value: Segment, p: nat, v: nat)
    requires p <= |pattern| && v <= |value| && !(p == |pattern| && v == |value|)
    ensures StatesOk(pattern, value, Successors(pattern, value, p, v))
    ensures SomeMatches(pattern, value, Successors(pattern, value, p, v)) <==> MatchesFrom(pattern, value, (p, v))
  {
    var next := Successors(pattern, value, p, v);
    if p == |pattern| {
      MatchesEmpty(BYTES, value[v..]);
      assert pattern[p..] == [];
    } else {
      StateRule(pattern, value, p, v);
      if |next| > 0 {
        assert SomeMatches(pattern, value, next) <==> MatchesFrom(pattern, value, next[0])
                                                      || (|next| == 2 && MatchesFrom(pattern, value, next[1]));
      }
    }
  }

  lemma SuccessorsCost(pattern: Segment, value: Segment, p: nat, v: nat)
    requires p <= |pattern| && v <= |value|
    ensures StatesOk(pattern, value, Successors(pattern, value, p, v))
    ensures Total(pattern, value, Successors(pattern, value, p, v)) < Total(pattern, value, [(p, v)])
  {
    var next := Successors(pattern, value, p, v);
    var single := [(p, v)];
    assert single[..0] == [];
    if |next| == 1 {
      assert next[..0] == [];
    } else if |next| == 2 {
      var first := [next[0]];
      assert next[..1] == first && first[..0] == [];
    }
  }

  /** Replacing a state by its successors keeps the answer and costs less. */
  lemma Replace(pattern: Segment, value: Segment, states: seq<(nat, nat)>, p: nat, v: nat)
    requires StatesOk(pattern, value, states) && p <= |pattern| && v <= |value|
    requires !(p == |pattern| && v == |value|)
    ensures var next := Successors(pattern, value, p, v);
            && StatesOk(pattern, value, states + next) && StatesOk(pattern, value, states + [(p, v)])
            && (SomeMatches(pattern, value, states + next) <==> SomeMatches(pattern, value, states + [(p, v)]))
            && Total(pattern, value, states + next) < Total(pattern, value, states + [(p, v)])
  {
    var next := Successors(pattern, value, p, v);
    SuccessorsDecide(pattern, value, p, v);
    SuccessorsCost(pattern, value, p, v);
    SomeMatchesAppend(pattern, value, states, next);
    SomeMatchesAppend(pattern, value, states, [(p, v)]);
    TotalAppend(pattern, value, states, next);
    TotalAppend(pattern, value, states, [(p, v)]);
    assert SomeMatches(pattern, value, [(p, v)]) <==> MatchesFrom(pattern, value, [(p, v)][0]);
  }

  /** The command-line tool's matcher: a stack of positions still to try. */
  method SegmentMatches(pattern: Segment, value: Segment) returns (r: bool)
    ensures r <==> Matches(BYTES, pattern, value)
  {
    var states: seq<(nat, nat)> := [(0, 0)];
    assert MatchesFrom(pattern, value, states[0]) <==> Matches(BYTES, pattern, value) by {
      assert pattern[0..] == pattern && value[0..] == value;
    }
    while states != []
      invariant StatesOk(pattern, value, states)
      invariant Matches(BYTES, pattern, value) <==> SomeMatches(pattern, value, states)
      decreases Total(pattern, value, states)
    {
      var (p, v) := states[|states| - 1];
      ghost var before := states;
      states := states[..|states| - 1];
      assert before == states + [(p, v)];
      if p == |pattern| {
        if v == |value| {
          EmptyMatches(pattern, value, before);
          return true;
        }
        Replace(pattern, value, states, p, v);
        assert states + [] == states;
      } else {
        Replace(pattern, value, states, p, v);
        if pattern[p] == STAR {
          if v < |value| {
            states := states + [(p + 1, v), (p, v + 1)];
          } else {
            states := states + [(p + 1, v)];
          }
        } else if v < |value| && (pattern[p] == QUESTION || pattern[p] == value[v]) {
          states := states + [(p + 1, v + 1)];
        } else {
          assert states + [] == states;
        }
      }
    }
    return false;
  }

  /** The state behind both ends is a match. */
  lemma EmptyMatches(pattern: Segment, value: Segment, states: seq<(nat, nat)>)
    requires StatesOk(pattern, value, states) && states != [] && states[|states| - 1] == (|pattern|, |value|)
    ensures SomeMatches(pattern, value, states)
  {
    MatchesEmpty(BYTES, value[|value|..]);
    assert pattern[|pattern|..] == [];
    assert MatchesFrom(pattern, value, states[|states| - 1]);
  }

  /** The file system module's matcher: which prefixes of the value the pattern so far matches. */
  method SegmentMatch(pattern: Segment, value: Segment) returns (r: bool)
    ensures r <==> Matches(BYTES, pattern, value)
  {
    var n := |value|;
    var states := new bool[n + 1](_ => false);
    states[0] := true;
    MatchesEmptyPrefixes(value);
    var done := 0;
    assert pattern[..0] == [];
    while done < |pattern|
      invariant 0 <= done <= |pattern| && states.Length == n + 1
      invariant forall j :: 0 <= j <= n ==> (states[j] <==> Matches(BYTES, pattern[..done], value[..j]))
    {
      var symbol := pattern[done];
      assert pattern[..done + 1] == pattern[..done] + [symbol];
      var next := new bool[n + 1](_ => false);
      BackRule(pattern[..done], symbol, value, 0);
      if symbol == STAR {
        next[0] := states[0];
      }
      for index := 1 to n + 1
        invariant forall j :: 0 <= j < index ==> (next[j] <==> Matches(BYTES, pattern[..done + 1], value[..j]))
        invariant forall j :: 0 <= j <= n ==> (states[j] <==> Matches(BYTES, pattern[..done], value[..j]))
      {
        BackRule(pattern[..done], symbol, value, index);
        if symbol == STAR {
          next[index] := states[index] || next[index - 1];
        } else {
          next[index] := states[index - 1] && (symbol == QUESTION || symbol == value[index - 1]);
        }
      }
      states := next;
      done := done + 1;
    }
    assert pattern[..|pattern|] == pattern && value[..n] == value;
    return states[n];
  }

  lemma MatchesEmptyPrefixes(value: Segment)
    ensures forall j :: 0 <= j <= |value| ==> (Matches(BYTES, [], value[..j]) <==> j == 0)
  {
    forall j | 0 <= j <= |value|
      ensures Matches(BYTES, [], value[..j]) <==> j == 0
    {
      MatchesEmpty(BYTES, value[..j]);
    }
  }

  /** One cell of the table from its neighbours. */
  lemma BackRule(pattern: Segment, symbol: bv8, value: Segment, j: nat)
    requires j <= |value|
    ensures symbol == STAR ==>
              (Matches(BYTES, pattern + [symbol], value[..j])
               <==> Matches(BYTES, pattern, value[..j])
                    || (j > 0 && Matches(BYTES, pattern + [symbol], value[..j - 1])))
    ensures symbol != STAR ==>
              (Matches(BYTES, pattern + [symbol], value[..j])
               <==> j > 0 && (symbol == QUESTION || symbol == value[j - 1]) && Matches(BYTES, pattern, value[..j - 1]))
  {
    if j > 0 {
      assert value[..j][..j - 1] == value[..j - 1];
    }
    if symbol == STAR {
      MatchesStarBack(BYTES, pattern, symbol, value[..j]);
    } else {
      MatchesOneBack(BYTES, pattern, symbol, value[..j]);
    }
  }

  // ---- Whole paths, as segments ----

  const DOUBLE_STAR: Segment := [STAR, STAR]

  /** `**` stands for any run of segments; every other segment pattern matches one. */
  ghost const PATHS := Language((symbol: Segment) => symbol == DOUBLE_STAR,
                                (symbol: Segment, segment: Segment) => Matches(BYTES, symbol, segment))

  /** The command-line tool's path matcher, over the worklist. */
  method ToolGlobSegments(pattern: seq<Segment>, path: seq<Segment>) returns (r: bool)
    ensures r <==> Matches(PATHS, pattern, path)
    decreases |pattern| + |path|
  {
    if pattern == [] {
      MatchesEmpty(PATHS, path);
      return path == [];
    }
    if pattern[0] == DOUBLE_STAR {
      MatchesStar(PATHS, pattern, path);
      r := ToolGlobSegments(pattern[1..], path);
      if !r && path != [] {
        r := ToolGlobSegments(pattern, path[1..]);
      }
      return;
    }
    MatchesOne(PATHS, pattern, path);
    if path == [] {
      return false;
    }
    r := SegmentMatches(pattern[0], path[0]);
    if r {
      r := ToolGlobSegments(pattern[1..], path[1..]);
    }
  }

  /** The file system module's path matcher, over the table. */
  method NodeGlobSegments(pattern: seq<Segment>, path: seq<Segment>) returns (r: bool)
    ensures r <==> Matches(PATHS, pattern, path)
    decreases |pattern| + |path|
  {
    if pattern == [] {
      MatchesEmpty(PATHS, path);
      return path == [];
    }
    if pattern[0] == DOUBLE_STAR {
      MatchesStar(PATHS, pattern, path);
      r := NodeGlobSegments(pattern[1..], path);
      if !r && path != [] {
        r := NodeGlobSegments(pattern, path[1..]);
      }
      return;
    }
    MatchesOne(PATHS, pattern, path);
    if path == [] {
      return false;
    }
    r := SegmentMatch(pattern[0], path[0]);
    if r {
      r := NodeGlobSegments(pattern[1..], path[1..]);
    }
  }

  // ---- What patterns mean, by example and rule ----

  /** Without `*` and `?` a segment matches itself and nothing else. */
  lemma {:induction false} PlainSegment(pattern: Segment, value: Segment)
    requires 42 !in pattern && 63 !in pattern
    ensures Matches(BYTES, pattern, value) <==> pattern == value
  {
    if pattern == [] {
      MatchesEmpty(BYTES, value);
    } else {
      MatchesOne(BYTES, pattern, value);
      if value != [] {
        PlainSegment(pattern[1..], value[1..]);
        assert pattern == [pattern[0]] + pattern[1..] && value == [value[0]] + value[1..];
      }
    }
  }

  /** `*` matches every segment, `?` every byte, and `**` every path. */
  lemma WildcardsMean(value: Segment, path: seq<Segment>)
    ensures Matches(BYTES, [42], value)
    ensures Matches(BYTES, [63], value) <==> |value| == 1
    ensures Matches(PATHS, [[42, 42]], path)
    ensures Matches(PATHS, [[42]], path) <==> |path| == 1
  {
    var whole: seq<Segment> := [value];
    assert whole[1..] == [] && Flatten(whole) == value + [] == value;
    assert Covers(BYTES, [42], value, whole);
    MatchesOne(BYTES, [63], value);
    assert [63 as bv8][1..] == [];
    if value != [] {
      MatchesEmpty(BYTES, value[1..]);
    }
    var paths: seq<seq<Segment>> := [path];
    assert paths[1..] == [] && Flatten(paths) == path + [] == path;
    assert Covers(PATHS, [[42, 42]], path, paths);
    OneSegment(path);
  }

  lemma OneSegment(path: seq<Segment>)
    ensures Matches(PATHS, [[42]], path) <==> |path| == 1
  {
    var pattern: seq<Segment> := [[42]];
    MatchesOne(PATHS, pattern, path);
    assert pattern[1..] == [];
    if path != [] {
      var whole: seq<Segment> := [path[0]];
      assert whole[1..] == [] && Flatten(whole) == path[0] + [] == path[0];
      assert Covers(BYTES, [42], path[0], whole);
      MatchesEmpty(PATHS, path[1..]);
    }
  }
}
