/** Brace expansion of patterns with groups inside groups. */
module NestedBraces {
  import opened Strings
  import opened Wrappers
  import opened Braces

  // ---- Balanced patterns ----

  /** Every closing brace closes an open group, and with `depth` groups open at the start all get closed. */
  predicate Balanced(text: string, depth: nat)
    decreases |text|
  {
    if text == "" then depth == 0
    else if text[0] == '{' then Balanced(text[1..], depth + 1)
    else if text[0] == '}' then depth > 0 && Balanced(text[1..], depth - 1)
    else Balanced(text[1..], depth)
  }

  predicate Clean(text: string) {
    '{' !in text && '}' !in text
  }

  lemma {:induction false} BalancedCounts(text: string, depth: nat)
    requires Balanced(text, depth)
    ensures Count(text, '}') == Count(text, '{') + depth
    decreases |text|
  {
    if text != "" {
      BalancedCounts(text[1..], if text[0] == '{' then depth + 1 else if text[0] == '}' then depth - 1 else depth);
    }
  }

  /** Opening braces alone only raise the depth of what follows. */
  lemma {:induction false} BalancedAfter(text: string, rest: string, depth: nat)
    requires '}' !in text
    ensures Balanced(text + rest, depth) <==> Balanced(rest, depth + Count(text, '{'))
  {
    if text == "" {
      assert text + rest == rest;
    } else {
      assert (text + rest)[0] == text[0] && (text + rest)[1..] == text[1..] + rest;
      BalancedAfter(text[1..], rest, if text[0] == '{' then depth + 1 else depth);
    }
  }

  /** Before the first opening brace of a balanced text there is no closing one. */
  lemma {:induction false} PrefixClean(prefix: string, rest: string)
    requires '{' !in prefix && Balanced(prefix + rest, 0)
    ensures '}' !in prefix && Balanced(rest, 0)
  {
    if prefix == "" {
      assert prefix + rest == rest;
    } else {
      assert (prefix + rest)[0] == prefix[0] && (prefix + rest)[1..] == prefix[1..] + rest;
      PrefixClean(prefix[1..], rest);
    }
  }

  lemma {:induction false} CountIn(text: string, c: char)
    ensures Count(text, c) > 0 <==> c in text
  {
    if text != "" {
      CountIn(text[1..], c);
    }
  }

  lemma GroupCount(prefix: string, options: string, suffix: string, c: char)
    ensures Count(prefix + ['{'] + options + ['}'] + suffix, c)
         == Count(prefix, c) + Count(['{'], c) + Count(options, c) + Count(['}'], c) + Count(suffix, c)
  {
    CountConcat(prefix + ['{'] + options + ['}'], suffix, c);
    CountConcat(prefix + ['{'] + options, ['}'], c);
    CountConcat(prefix + ['{'], options, c);
    CountConcat(prefix, ['{'], c);
  }

  lemma BalancedBehind(prefix: string, rest: string)
    requires '{' !in prefix
    ensures Balanced(prefix + rest, 0) <==> '}' !in prefix && Balanced(rest, 0)
  {
    if '}' !in prefix {
      BalancedAfter(prefix, rest, 0);
      CountNone(prefix, '{');
    } else if Balanced(prefix + rest, 0) {
      PrefixClean(prefix, rest);
    }
  }

  lemma BalancedStep(rest: string, depth: nat)
    ensures Balanced(['{'] + rest, depth) <==> Balanced(rest, depth + 1)
    ensures Balanced(['}'] + rest, depth + 1) <==> Balanced(rest, depth)
  {
    assert (['{'] + rest)[1..] == rest && (['}'] + rest)[1..] == rest;
  }

  lemma GroupPieces(options: string, suffix: string)
    ensures ['{'] + options + ['}'] + suffix == ['{'] + (options + (['}'] + suffix))
  {
  }

  lemma GroupBalanced(options: string, suffix: string)
    requires '}' !in options
    ensures Balanced(['{'] + options + ['}'] + suffix, 0) <==> Balanced(suffix, Count(options, '{'))
  {
    var closed := ['}'] + suffix;
    BalancedStep(options + closed, 0);
    BalancedAfter(options, closed, 1);
    BalancedStep(suffix, Count(options, '{'));
    GroupPieces(options, suffix);
  }

  lemma FourPieces(prefix: string, options: string, suffix: string)
    ensures prefix + ['{'] + options + ['}'] + suffix == prefix + (['{'] + options + ['}'] + suffix)
  {
  }

  /** The first group of a balanced pattern: nothing is open or closed before it. */
  lemma GroupSplits(prefix: string, options: string, suffix: string)
    requires '{' !in prefix && '}' !in options
    ensures Balanced(prefix + ['{'] + options + ['}'] + suffix, 0)
            <==> '}' !in prefix && Balanced(suffix, Count(options, '{'))
  {
    FourPieces(prefix, options, suffix);
    GroupBalanced(options, suffix);
    BalancedBehind(prefix, ['{'] + options + ['}'] + suffix);
  }

  /** Putting a part with as many opening braces in the group's place keeps the balance. */
  lemma PartBalanced(prefix: string, part: string, suffix: string)
    requires Clean(prefix) && '}' !in part && Balanced(suffix, Count(part, '{'))
    ensures Balanced(prefix + part + suffix, 0)
  {
    CountConcat(prefix, part, '{');
    CountNone(prefix, '{');
    BalancedAfter(prefix + part, suffix, 0);
  }

  lemma BalancedWithoutGroup(pattern: string)
    requires Balanced(pattern, 0) && NoGroup(pattern)
    ensures Clean(pattern)
  {
    match Find(pattern, '{')
    case None =>
      assert pattern + "" == pattern;
      PrefixClean(pattern, "");
    case Some(start) =>
      var after := pattern[start + 1..];
      assert pattern == pattern[..start] + (['{'] + after);
      PrefixClean(pattern[..start], ['{'] + after);
      assert (['{'] + after)[1..] == after;
      BalancedCounts(after, 1);
      assert forall k :: 0 <= k < |after| ==> after[k] == pattern[start + 1 + k];
      CountIn(after, '}');
  }

  // ---- Which patterns keep a brace ----

  /**
   * Read from the left, some group text, which ends at the first closing brace, holds both an inner
   * opening brace and a comma.
   */
  predicate Mixed(pattern: string)
    decreases Count(pattern, '}')
  {
    match FirstGroup(pattern)
    case None => false
    case Some((prefix, options, suffix)) =>
      GroupCount(prefix, options, suffix, '}');
      CountConcat(options, suffix, '}');
      ('{' in options && ',' in options) || Mixed(options + suffix)
  }

  lemma MixedAt(prefix: string, options: string, suffix: string)
    requires '{' !in prefix && '}' !in options
    ensures Mixed(prefix + ['{'] + options + ['}'] + suffix)
            <==> ('{' in options && ',' in options) || Mixed(options + suffix)
  {
    FirstGroupAt(prefix, options, suffix);
  }

  lemma NoGroupBehind(text: string, pattern: string)
    requires Clean(text) && NoGroup(pattern)
    ensures NoGroup(text + pattern)
  {
    var whole := text + pattern;
    forall i, j | 0 <= i < j < |whole|
      ensures !(whole[i] == '{' && whole[j] == '}')
    {
      if i >= |text| {
        assert pattern[i - |text|] == whole[i] && pattern[j - |text|] == whole[j];
      } else {
        assert whole[i] == text[i];
      }
    }
  }

  /** Text without braces in front changes nothing. */
  lemma MixedBehind(text: string, pattern: string)
    requires Clean(text)
    ensures Mixed(text + pattern) <==> Mixed(pattern)
  {
    match FirstGroup(pattern)
    case None =>
      NoGroupBehind(text, pattern);
    case Some((prefix, options, suffix)) =>
      MixedAt(prefix, options, suffix);
      MixedAt(text + prefix, options, suffix);
      FourPieces(prefix, options, suffix);
      FourPieces(text + prefix, options, suffix);
      Reassociate(text, prefix, ['{'] + options + ['}'] + suffix);
  }

  lemma {:induction false} EachExactly(prefix: string, parts: seq<string>, suffix: string, expanded: string)
    requires forall part :: part in parts ==> '}' !in part
    ensures expanded in ExpandEach(prefix, parts, suffix)
            <==> exists part :: part in parts && expanded in ExpandBraces(prefix + part + suffix)
    decreases |parts|
  {
    if parts != [] {
      EachExactly(prefix, parts[1..], suffix, expanded);
      assert parts == [parts[0]] + parts[1..];
    }
  }

  function Surplus(text: string): int {
    Count(text, '}') - Count(text, '{')
  }

  lemma {:induction false} SplitCounts(text: string, c: char)
    requires c != ','
    ensures forall i :: 0 <= i < |Split(text, ',')| ==> Count(Split(text, ',')[i], c) <= Count(text, c)
    ensures forall i, j :: 0 <= i < j < |Split(text, ',')| ==>
              Count(Split(text, ',')[i], c) + Count(Split(text, ',')[j], c) <= Count(text, c)
  {
    if text != "" {
      var rest := Split(text[1..], ',');
      SplitCounts(text[1..], c);
      if text[0] != ',' {
        var first := [text[0]] + rest[0];
        assert first[1..] == rest[0];
        assert Count(first, c) == (if text[0] == c then 1 else 0) + Count(rest[0], c);
      }
    }
  }

  lemma {:induction false} SplitTwo(text: string)
    requires ',' in text
    ensures |Split(text, ',')| >= 2
  {
    if text[0] != ',' {
      SplitTwo(text[1..]);
    }
  }

  /** What a group's part brings: no fewer surplus closing braces than the whole. */
  lemma PartSurplus(prefix: string, options: string, suffix: string, part: string)
    requires part in Split(options, ',') && '}' !in options
    ensures Surplus(prefix + part + suffix)
         == Surplus(prefix + ['{'] + options + ['}'] + suffix) + Count(options, '{') - Count(part, '{')
    ensures Count(part, '{') <= Count(options, '{')
  {
    SplitFree(options, ',', '}');
    SplitCounts(options, '{');
    forall c | c == '{' || c == '}'
      ensures Count(prefix + part + suffix, c) == Count(prefix, c) + Count(part, c) + Count(suffix, c)
    {
      CountConcat(prefix + part, suffix, c);
      CountConcat(prefix, part, c);
    }
    GroupCount(prefix, options, suffix, '{');
    GroupCount(prefix, options, suffix, '}');
    CountNone(options, '}');
    CountNone(part, '}');
  }

  lemma {:induction false} SurplusKept(pattern: string, expanded: string)
    requires expanded in ExpandBraces(pattern)
    ensures Surplus(expanded) >= Surplus(pattern)
    decreases Count(pattern, '}')
  {
    if FirstGroup(pattern).Some? {
      var (prefix, options, suffix) := FirstGroup(pattern).value;
      ExpandFirst(prefix, options, suffix);
      EachExactly(prefix, Split(options, ','), suffix, expanded);
      var part :| part in Split(options, ',') && expanded in ExpandBraces(prefix + part + suffix);
      PartSurplus(prefix, options, suffix, part);
      PartSmaller(prefix, options, suffix, part);
      SurplusKept(prefix + part + suffix, expanded);
    }
  }

  lemma PartSmaller(prefix: string, options: string, suffix: string, part: string)
    requires '}' !in part
    ensures Count(prefix + part + suffix, '}') < Count(prefix + ['{'] + options + ['}'] + suffix, '}')
  {
    GroupCount(prefix, options, suffix, '}');
    CountConcat(prefix + part, suffix, '}');
    CountConcat(prefix, part, '}');
    CountNone(part, '}');
  }

  /** A group text with an inner brace and a comma leaves a closing brace over in some expansion. */
  lemma MixedGroupStrays(prefix: string, options: string, suffix: string) returns (expanded: string)
    requires '{' !in prefix && '}' !in options && '{' in options && ',' in options
    requires Surplus(prefix + ['{'] + options + ['}'] + suffix) >= 0
    ensures expanded in ExpandBraces(prefix + ['{'] + options + ['}'] + suffix) && '}' in expanded
  {
    var parts := Split(options, ',');
    SplitTwo(options);
    SplitCounts(options, '{');
    CountIn(options, '{');
    var part := if Count(parts[0], '{') < Count(options, '{') then parts[0] else parts[1];
    assert part in parts;
    PartSurplus(prefix, options, suffix, part);
    ExpandedHasNoGroup(prefix + part + suffix);
    expanded := ExpandBraces(prefix + part + suffix)[0];
    SurplusKept(prefix + part + suffix, expanded);
    CountIn(expanded, '}');
    ExpandFirst(prefix, options, suffix);
    EachExactly(prefix, parts, suffix, expanded);
  }

  /** In the other case every part keeps the balance and is as mixed as what remains. */
  lemma UnmixedPart(prefix: string, options: string, suffix: string, part: string)
    requires '{' !in prefix && '}' !in options && !('{' in options && ',' in options)
    requires Balanced(prefix + ['{'] + options + ['}'] + suffix, 0) && part in Split(options, ',')
    ensures '}' !in part && Balanced(prefix + part + suffix, 0)
    ensures Mixed(prefix + part + suffix) <==> Mixed(options + suffix)
  {
    GroupSplits(prefix, options, suffix);
    SplitFree(options, ',', '}');
    assert prefix + part + suffix == prefix + (part + suffix);
    MixedBehind(prefix, part + suffix);
    if '{' in options {
      SplitWhole(options, ',');
    } else {
      SplitFree(options, ',', '{');
      CountNone(options, '{');
      CountNone(part, '{');
      MixedBehind(options, suffix);
      MixedBehind(part, suffix);
    }
    PartBalanced(prefix, part, suffix);
  }

  /**
   * When braces are left over: every expansion of a balanced pattern is free of braces if and only
   * if no group text, read from the left, has both an inner opening brace and a comma.
   */
  lemma {:induction false} NoStrayBraceIff(pattern: string)
    requires Balanced(pattern, 0)
    ensures (forall expanded :: expanded in ExpandBraces(pattern) ==> Clean(expanded)) <==> !Mixed(pattern)
    decreases Count(pattern, '}')
  {
    match FirstGroup(pattern)
    case None =>
      BalancedWithoutGroup(pattern);
    case Some((prefix, options, suffix)) =>
      if '{' in options && ',' in options {
        BalancedCounts(pattern, 0);
        var expanded := MixedGroupStrays(prefix, options, suffix);
        assert expanded in ExpandBraces(pattern) && !Clean(expanded);
      } else {
        NoStrayInParts(prefix, options, suffix);
      }
  }

  lemma {:induction false} NoStrayInParts(prefix: string, options: string, suffix: string)
    requires '{' !in prefix && '}' !in options && !('{' in options && ',' in options)
    requires Balanced(prefix + ['{'] + options + ['}'] + suffix, 0)
    ensures (forall expanded :: expanded in ExpandBraces(prefix + ['{'] + options + ['}'] + suffix) ==> Clean(expanded))
            <==> !Mixed(prefix + ['{'] + options + ['}'] + suffix)
    decreases Count(prefix + ['{'] + options + ['}'] + suffix, '}'), 0
  {
    var pattern, parts := prefix + ['{'] + options + ['}'] + suffix, Split(options, ',');
    MixedAt(prefix, options, suffix);
    ExpandFirst(prefix, options, suffix);
    forall part | part in parts
      ensures (forall expanded :: expanded in ExpandBraces(prefix + part + suffix) ==> Clean(expanded))
              <==> !Mixed(options + suffix)
    {
      UnmixedPart(prefix, options, suffix, part);
      PartSmaller(prefix, options, suffix, part);
      NoStrayBraceIff(prefix + part + suffix);
    }
    if Mixed(options + suffix) {
      var part := parts[0];
      var expanded :| expanded in ExpandBraces(prefix + part + suffix) && !Clean(expanded);
      EachExactly(prefix, parts, suffix, expanded);
    } else {
      forall expanded | expanded in ExpandBraces(pattern)
        ensures Clean(expanded)
      {
        EachExactly(prefix, parts, suffix, expanded);
      }
    }
  }
}
