/** Brace expansion of glob patterns. */
module Braces {
  import opened Wrappers
  import opened Strings

  function Find(text: string, c: char): (r: Option<nat>)
    ensures match r {
              case Some(i) => i < |text| && text[i] == c && c !in text[..i]
              case None => c !in text
            }
  {
    if text == "" then None
    else if text[0] == c then Some(0)
    else
      match Find(text[1..], c)
      case None => None
      case Some(i) => assert text[..i + 1] == [text[0]] + text[1..][..i]; Some(i + 1)
  }

  function Count(text: string, c: char): nat {
    if text == "" then 0 else (if text[0] == c then 1 else 0) + Count(text[1..], c)
  }

  lemma {:induction false} CountConcat(a: string, b: string, c: char)
    ensures Count(a + b, c) == Count(a, c) + Count(b, c)
  {
    if a == "" {
      assert a + b == b;
    } else {
      assert (a + b)[1..] == a[1..] + b;
      CountConcat(a[1..], b, c);
    }
  }

  lemma {:induction false} CountNone(text: string, c: char)
    requires c !in text
    ensures Count(text, c) == 0
  {
    if text != "" {
      CountNone(text[1..], c);
    }
  }

  lemma SplitFree(text: string, separator: char, c: char)
    requires c !in text
    ensures forall part :: part in Split(text, separator) ==> c !in part
  {
    SplitParts(text, separator);
  }

  lemma CutAt(pattern: string, start: nat, end: nat)
    requires start < end < |pattern|
    ensures pattern[start + 1..end] == pattern[start + 1..][..end - start - 1]
    ensures pattern
         == pattern[..start] + [pattern[start]] + pattern[start + 1..end] + [pattern[end]] + pattern[end + 1..]
  {
    var head, middle, tail := pattern[..start + 1], pattern[start + 1..end], pattern[end..];
    assert pattern == head + middle + tail;
    assert head == pattern[..start] + [pattern[start]] && tail == [pattern[end]] + pattern[end + 1..];
  }

  /** The text of the first group, between the pieces before and after it. */
  function FirstGroup(pattern: string): (r: Option<(string, string, string)>)
    ensures r.Some? ==>
              && pattern == r.value.0 + ['{'] + r.value.1 + ['}'] + r.value.2
              && '{' !in r.value.0 && '}' !in r.value.1
    ensures r.None? <==> NoGroup(pattern)
  {
    match Find(pattern, '{')
    case None => None
    case Some(start) =>
      match Find(pattern[start + 1..], '}')
      case None => assert NoGroup(pattern) by { NoGroupAfter(pattern, start); } None
      case Some(length) =>
        var end := start + 1 + length;
        CutAt(pattern, start, end);
        Some((pattern[..start], pattern[start + 1..end], pattern[end + 1..]))
  }

  /** No opening brace has a closing one after it. */
  predicate NoGroup(pattern: string) {
    forall i, j :: 0 <= i < j < |pattern| ==> !(pattern[i] == '{' && pattern[j] == '}')
  }

  lemma NoGroupAfter(pattern: string, start: nat)
    requires start < |pattern| && '{' !in pattern[..start] && '}' !in pattern[start + 1..]
    ensures NoGroup(pattern)
  {
    forall i, j | 0 <= i < j < |pattern|
      ensures !(pattern[i] == '{' && pattern[j] == '}')
    {
      if i < start {
        assert pattern[i] == pattern[..start][i];
      } else {
        assert pattern[j] == pattern[start + 1..][j - start - 1];
      }
    }
  }

  /** Each expansion step uses up a closing brace. */
  function ExpandBraces(pattern: string): seq<string>
    decreases Count(pattern, '}'), 0
  {
    match FirstGroup(pattern)
    case None => [pattern]
    case Some((prefix, options, suffix)) =>
      CountConcat(prefix + ['{'] + options + ['}'], suffix, '}');
      CountConcat(prefix + ['{'] + options, ['}'], '}');
      CountConcat(prefix + ['{'], options, '}');
      CountConcat(prefix, ['{'], '}');
      SplitFree(options, ',', '}');
      ExpandEach(prefix, Split(options, ','), suffix)
  }

  function ExpandEach(prefix: string, parts: seq<string>, suffix: string): seq<string>
    requires forall part :: part in parts ==> '}' !in part
    decreases Count(prefix, '}') + Count(suffix, '}'), 1 + |parts|
  {
    if parts == [] then []
    else
      CountConcat(prefix + parts[0], suffix, '}');
      CountConcat(prefix, parts[0], '}');
      CountNone(parts[0], '}');
      ExpandBraces(prefix + parts[0] + suffix) + ExpandEach(prefix, parts[1..], suffix)
  }

  /** Expansion goes on until no group is left, and yields at least one pattern. */
  lemma {:induction false} ExpandedHasNoGroup(pattern: string)
    ensures |ExpandBraces(pattern)| >= 1
    ensures forall expanded :: expanded in ExpandBraces(pattern) ==> NoGroup(expanded)
    decreases Count(pattern, '}'), 0
  {
    if FirstGroup(pattern).Some? {
      var (prefix, options, suffix) := FirstGroup(pattern).value;
      CountConcat(prefix + ['{'] + options + ['}'], suffix, '}');
      CountConcat(prefix + ['{'] + options, ['}'], '}');
      CountConcat(prefix + ['{'], options, '}');
      CountConcat(prefix, ['{'], '}');
      SplitFree(options, ',', '}');
      EachHasNoGroup(prefix, Split(options, ','), suffix);
    }
  }

  lemma {:induction false} EachHasNoGroup(prefix: string, parts: seq<string>, suffix: string)
    requires forall part :: part in parts ==> '}' !in part
    ensures parts != [] ==> |ExpandEach(prefix, parts, suffix)| >= 1
    ensures forall expanded :: expanded in ExpandEach(prefix, parts, suffix) ==> NoGroup(expanded)
    decreases Count(prefix, '}') + Count(suffix, '}'), 1 + |parts|
  {
    if parts != [] {
      CountConcat(prefix + parts[0], suffix, '}');
      CountConcat(prefix, parts[0], '}');
      CountNone(parts[0], '}');
      ExpandedHasNoGroup(prefix + parts[0] + suffix);
      EachHasNoGroup(prefix, parts[1..], suffix);
    }
  }

  // ---- Choices in order ----

  function Prefixed(prefix: string, texts: seq<string>): seq<string> {
    if texts == [] then [] else [prefix + texts[0]] + Prefixed(prefix, texts[1..])
  }

  function PrefixedEach(prefix: string, options: seq<string>, texts: seq<string>): seq<string> {
    if options == [] then [] else Prefixed(prefix + options[0], texts) + PrefixedEach(prefix, options[1..], texts)
  }

  lemma FirstGroupAt(prefix: string, options: string, suffix: string)
    requires '{' !in prefix && '}' !in options
    ensures FirstGroup(prefix + ['{'] + options + ['}'] + suffix) == Some((prefix, options, suffix))
  {
    var pattern := prefix + ['{'] + options + ['}'] + suffix;
    var start := |prefix|;
    assert pattern[start] == '{' && pattern[..start] == prefix;
    FindAt(pattern, '{', start);
    var after := pattern[start + 1..];
    assert after[..|options|] == options && after[|options|] == '}';
    FindAt(after, '}', |options|);
    assert pattern[start + 1..start + 1 + |options|] == options;
    assert pattern[start + 1 + |options| + 1..] == suffix;
  }

  lemma FindAt(text: string, c: char, i: nat)
    requires i < |text| && text[i] == c && c !in text[..i]
    ensures Find(text, c) == Some(i)
  {
    assert c in text;
    var found := Find(text, c).value;
    assert forall k :: 0 <= k < i ==> text[..i][k] == text[k];
    assert forall k :: 0 <= k < found ==> text[..found][k] == text[k];
  }

  lemma {:induction false} PrefixedTwice(a: string, b: string, texts: seq<string>)
    ensures Prefixed(a, Prefixed(b, texts)) == Prefixed(a + b, texts)
  {
    if texts != [] {
      PrefixedTwice(a, b, texts[1..]);
      assert a + (b + texts[0]) == a + b + texts[0];
    }
  }

  lemma {:induction false} PrefixedConcat(prefix: string, a: seq<string>, b: seq<string>)
    ensures Prefixed(prefix, a + b) == Prefixed(prefix, a) + Prefixed(prefix, b)
  {
    if a == [] {
      assert a + b == b;
    } else {
      assert (a + b)[1..] == a[1..] + b;
      PrefixedConcat(prefix, a[1..], b);
    }
  }

  lemma {:induction false} PrefixedChoice(prefix: string, options: seq<string>, texts: seq<string>)
    ensures Prefixed(prefix, PrefixedEach("", options, texts)) == PrefixedEach(prefix, options, texts)
  {
    if options != [] {
      assert "" + options[0] == options[0];
      PrefixedConcat(prefix, Prefixed(options[0], texts), PrefixedEach("", options[1..], texts));
      PrefixedTwice(prefix, options[0], texts);
      PrefixedChoice(prefix, options[1..], texts);
    }
  }

  lemma {:induction false} PrefixedNone(texts: seq<string>)
    ensures Prefixed("", texts) == texts
  {
    if texts != [] {
      PrefixedNone(texts[1..]);
      assert "" + texts[0] == texts[0] && [texts[0]] + texts[1..] == texts;
    }
  }

  lemma Reassociate(a: string, b: string, c: string)
    ensures a + (b + c) == (a + b) + c
  {
  }

  // ---- Nested groups ----

  predicate Plain(text: string) {
    '{' !in text && '}' !in text && ',' !in text
  }

  lemma ExpandPlain(text: string)
    requires '{' !in text
    ensures ExpandBraces(text) == [text]
  {
    assert forall i :: 0 <= i < |text| ==> text[i] in text;
    assert NoGroup(text);
  }

  /** The first group ends at the first closing brace, whatever opening braces stand in it. */
  lemma ExpandFirst(prefix: string, options: string, suffix: string)
    requires '{' !in prefix && '}' !in options
    ensures forall part :: part in Split(options, ',') ==> '}' !in part
    ensures ExpandBraces(prefix + ['{'] + options + ['}'] + suffix) == ExpandEach(prefix, Split(options, ','), suffix)
  {
    FirstGroupAt(prefix, options, suffix);
    SplitFree(options, ',', '}');
  }

  lemma SplitNested(a: string, b: string, c: string)
    requires ',' !in a && ',' !in b && ',' !in c
    ensures Split(a + [','] + (['{'] + b + [','] + c), ',') == [a, ['{'] + b, c]
  {
    SplitWhole(a, ',');
    SplitWhole(['{'] + b, ',');
    SplitWhole(c, ',');
    SplitConcat(['{'] + b, c, ',');
    SplitConcat(a, ['{'] + b + [','] + c, ',');
    assert [a] + ([['{'] + b] + [c]) == [a, ['{'] + b, c];
  }

  lemma InnerGroup(b: string)
    requires Plain(b)
    ensures ExpandBraces(['{'] + b + ['}']) == [b]
  {
    SplitWhole(b, ',');
    var group := ['{'] + b + ['}'];
    assert group + [] == group && [b] + [] == [b] && b + [] == b;
    ExpandPlain(b);
    GroupFirst(b, []);
    EachStep(b, [], []);
  }

  lemma EachStep(part: string, parts: seq<string>, suffix: string)
    requires '}' !in part && forall other :: other in parts ==> '}' !in other
    ensures forall other :: other in [part] + parts ==> '}' !in other
    ensures ExpandEach([], [part] + parts, suffix) == ExpandBraces(part + suffix) + ExpandEach([], parts, suffix)
  {
    assert ([part] + parts)[1..] == parts && [] + part == part;
  }

  lemma EachOfThree(x: string, y: string, z: string, suffix: string)
    requires '}' !in x && '}' !in y && '}' !in z
    ensures forall part :: part in [x, y, z] ==> '}' !in part
    ensures ExpandEach([], [x, y, z], suffix)
         == ExpandBraces(x + suffix) + (ExpandBraces(y + suffix) + ExpandBraces(z + suffix))
  {
    assert [x] + [y, z] == [x, y, z] && [y] + [z] == [y, z] && [z] + [] == [z];
    EachStep(z, [], suffix);
    EachStep(y, [z], suffix);
    EachStep(x, [y, z], suffix);
    assert ExpandBraces(z + suffix) + [] == ExpandBraces(z + suffix);
  }

  /** The three pieces that a nested group's options expand to. */
  lemma NestedPieces(a: string, b: string, c: string)
    requires Plain(a) && Plain(b) && Plain(c)
    ensures forall part :: part in [a, ['{'] + b, c] ==> '}' !in part
    ensures ExpandEach([], [a, ['{'] + b, c], ['}']) == [a + ['}'], b, c + ['}']]
  {
    EachOfThree(a, ['{'] + b, c, ['}']);
    ExpandPlain(a + ['}']);
    ExpandPlain(c + ['}']);
    InnerGroup(b);
  }

  /**
   * An instance: the inner closing brace ends the outer group, so `{a,{b,c}}` expands to
   * `a}`, `b` and `c}`, for any plain texts.
   */
  lemma NestedGroups(a: string, b: string, c: string)
    requires Plain(a) && Plain(b) && Plain(c)
    ensures ExpandBraces(['{'] + (a + [','] + (['{'] + b + [','] + c)) + ['}'] + ['}'])
         == [a + ['}'], b, c + ['}']]
  {
    var options := a + [','] + (['{'] + b + [','] + c);
    NestedPieces(a, b, c);
    SplitNested(a, b, c);
    GroupFirst(options, ['}']);
  }

  lemma GroupFirst(options: string, suffix: string)
    requires '}' !in options
    ensures forall part :: part in Split(options, ',') ==> '}' !in part
    ensures ExpandBraces(['{'] + options + ['}'] + suffix) == ExpandEach([], Split(options, ','), suffix)
  {
    assert [] + ['{'] + options + ['}'] + suffix == ['{'] + options + ['}'] + suffix;
    ExpandFirst([], options, suffix);
  }
}
