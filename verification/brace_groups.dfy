/** When a pattern's groups are expanded as the units that their matching braces make. */
module BraceGroups {
  import opened Strings
  import opened Wrappers
  import opened Braces
  import opened NestedBraces

  // ---- Patterns as their matching braces read ----

  datatype Items = End | Letter(c: char, rest: Items) | Group(options: Options, rest: Items)

  datatype Options = Only(items: Items) | Or(items: Items, others: Options)

  /** Letters are no braces, and inside a group no commas. */
  predicate ItemsOk(items: Items, inside: bool) {
    match items
    case End => true
    case Letter(c, rest) => c != '{' && c != '}' && !(inside && c == ',') && ItemsOk(rest, inside)
    case Group(options, rest) => OptionsOk(options) && ItemsOk(rest, inside)
  }

  predicate OptionsOk(options: Options) {
    ItemsOk(options.items, true) && (options.Or? ==> OptionsOk(options.others))
  }

  function Render(items: Items): string {
    match items
    case End => ""
    case Letter(c, rest) => [c] + Render(rest)
    case Group(options, rest) => ['{'] + Body(options) + ['}'] + Render(rest)
  }

  function Body(options: Options): string {
    match options
    case Only(items) => Render(items)
    case Or(items, others) => Render(items) + [','] + Body(others)
  }

  /** Every way of picking one option per group, groups in options included, earlier choices varying slower. */
  function Choices(items: Items): seq<string> {
    match items
    case End => [""]
    case Letter(c, rest) => Prefixed([c], Choices(rest))
    case Group(options, rest) => PrefixedEach("", OptionChoices(options), Choices(rest))
  }

  function OptionChoices(options: Options): seq<string> {
    match options
    case Only(items) => Choices(items)
    case Or(items, others) => Choices(items) + OptionChoices(others)
  }

  // ---- Every balanced pattern reads so ----

  function WithLetter(c: char, options: Options): Options {
    options.(items := Letter(c, options.items))
  }

  function WithGroup(group: Options, options: Options): Options {
    options.(items := Group(group, options.items))
  }

  /** The open groups' remaining options, the innermost first, and what follows them all. */
  function Parse(text: string, depth: nat): (r: (seq<Options>, Items))
    requires Balanced(text, depth)
    ensures |r.0| == depth
    decreases |text|
  {
    if text == "" then ([], End)
    else if text[0] == '{' then
      var (groups, items) := Parse(text[1..], depth + 1);
      if depth == 0 then ([], Group(groups[0], items))
      else ([WithGroup(groups[0], groups[1])] + groups[2..], items)
    else if text[0] == '}' then
      var (groups, items) := Parse(text[1..], depth - 1);
      ([Only(End)] + groups, items)
    else
      var (groups, items) := Parse(text[1..], depth);
      if depth == 0 then ([], Letter(text[0], items))
      else if text[0] == ',' then ([Or(End, groups[0])] + groups[1..], items)
      else ([WithLetter(text[0], groups[0])] + groups[1..], items)
  }

  function Closing(groups: seq<Options>, items: Items): string {
    if groups == [] then Render(items) else Body(groups[0]) + ['}'] + Closing(groups[1..], items)
  }

  lemma BodyWith(c: char, group: Options, options: Options)
    ensures Body(WithLetter(c, options)) == [c] + Body(options)
    ensures Body(WithGroup(group, options)) == ['{'] + Body(group) + ['}'] + Body(options)
  {
  }

  /** A balanced pattern is what its reading renders to. */
  lemma {:induction false} ParseRenders(text: string, depth: nat)
    requires Balanced(text, depth)
    ensures ItemsOk(Parse(text, depth).1, false)
    ensures forall group :: group in Parse(text, depth).0 ==> OptionsOk(group)
    ensures Closing(Parse(text, depth).0, Parse(text, depth).1) == text
    decreases |text|
  {
    if text != "" {
      var next := if text[0] == '{' then depth + 1 else if text[0] == '}' then depth - 1 else depth;
      var (groups, items) := Parse(text[1..], next);
      ParseRenders(text[1..], next);
      assert text == [text[0]] + text[1..];
      assert forall k :: 0 <= k < |groups| ==> groups[k] in groups;
      if text[0] == '{' {
        ClosingOpened(groups, items);
      } else if text[0] == '}' {
        assert ([Only(End)] + groups)[1..] == groups;
      } else if depth > 0 {
        ClosingLetter(text[0], groups, items);
      }
    }
  }

  lemma ClosingFirst(group: Options, groups: seq<Options>, items: Items)
    ensures Closing([group] + groups, items) == Body(group) + ['}'] + Closing(groups, items)
  {
    assert ([group] + groups)[1..] == groups;
  }

  lemma MergedText(inner: string, outer: string, after: string)
    ensures ['{'] + inner + ['}'] + outer + ['}'] + after == ['{'] + (inner + ['}'] + (outer + ['}'] + after))
  {
  }

  lemma ClosingOpened(groups: seq<Options>, items: Items)
    requires groups != []
    ensures if |groups| == 1 then Render(Group(groups[0], items)) == ['{'] + Closing(groups, items)
            else Closing([WithGroup(groups[0], groups[1])] + groups[2..], items) == ['{'] + Closing(groups, items)
  {
    if |groups| == 1 {
      assert Closing(groups[1..], items) == Render(items);
    } else {
      var after := Closing(groups[2..], items);
      BodyWith('x', groups[0], groups[1]);
      ClosingFirst(WithGroup(groups[0], groups[1]), groups[2..], items);
      ClosingFirst(groups[1], groups[2..], items);
      ClosingFirst(groups[0], groups[1..], items);
      assert [groups[0]] + groups[1..] == groups && [groups[1]] + groups[2..] == groups[1..];
      MergedText(Body(groups[0]), Body(groups[1]), after);
    }
  }

  lemma ClosingLetter(c: char, groups: seq<Options>, items: Items)
    requires groups != []
    ensures Closing([WithLetter(c, groups[0])] + groups[1..], items) == [c] + Closing(groups, items)
    ensures Closing([Or(End, groups[0])] + groups[1..], items) == [','] + Closing(groups, items)
  {
    BodyWith(c, groups[0], groups[0]);
    assert Body(Or(End, groups[0])) == [','] + Body(groups[0]);
    assert ([WithLetter(c, groups[0])] + groups[1..])[1..] == groups[1..];
    assert ([Or(End, groups[0])] + groups[1..])[1..] == groups[1..];
  }

  /** The other way round: what is rendered is balanced. */
  lemma {:induction false} RenderBalanced(items: Items, inside: bool, rest: string, depth: nat)
    requires ItemsOk(items, inside)
    ensures Balanced(Render(items) + rest, depth) <==> Balanced(rest, depth)
    decreases items
  {
    match items
    case End => assert "" + rest == rest;
    case Letter(c, more) =>
      var whole := Render(items) + rest;
      assert whole[0] == c && whole[1..] == Render(more) + rest;
      RenderBalanced(more, inside, rest, depth);
    case Group(options, more) =>
      var whole, after := Render(items) + rest, ['}'] + (Render(more) + rest);
      assert whole[0] == '{' && whole[1..] == Body(options) + after;
      BodyBalanced(options, after, depth + 1);
      assert after[1..] == Render(more) + rest;
      RenderBalanced(more, inside, rest, depth);
  }

  lemma {:induction false} BodyBalanced(options: Options, rest: string, depth: nat)
    requires OptionsOk(options)
    ensures Balanced(Body(options) + rest, depth) <==> Balanced(rest, depth)
    decreases options
  {
    match options
    case Only(items) => RenderBalanced(items, true, rest, depth);
    case Or(items, others) =>
      var after := [','] + (Body(others) + rest);
      assert Body(options) + rest == Render(items) + after;
      RenderBalanced(items, true, after, depth);
      assert after[1..] == Body(others) + rest;
      BodyBalanced(others, rest, depth);
  }

  function Append(items: Items, tail: Items): Items {
    match items
    case End => tail
    case Letter(c, rest) => Letter(c, Append(rest, tail))
    case Group(options, rest) => Group(options, Append(rest, tail))
  }

  lemma {:induction false} AppendEnd(items: Items)
    ensures Append(items, End) == items
  {
    match items
    case End =>
    case Letter(_, rest) => AppendEnd(rest);
    case Group(_, rest) => AppendEnd(rest);
  }

  /** What parsing gives when `items` are rendered in front of a text. */
  function Before(items: Items, parsed: (seq<Options>, Items)): (seq<Options>, Items) {
    if parsed.0 == [] then ([], Append(items, parsed.1))
    else ([parsed.0[0].(items := Append(items, parsed.0[0].items))] + parsed.0[1..], parsed.1)
  }

  lemma ParseOpen(text: string, depth: nat, group: Options, groups: seq<Options>, items: Items)
    requires Balanced(text, depth + 1) && Parse(text, depth + 1) == ([group] + groups, items)
    ensures Balanced(['{'] + text, depth) && |groups| == depth
    ensures Parse(['{'] + text, depth)
         == if depth == 0 then ([], Group(group, items)) else ([WithGroup(group, groups[0])] + groups[1..], items)
  {
    assert (['{'] + text)[1..] == text;
    assert depth > 0 ==> ([group] + groups)[1] == groups[0] && ([group] + groups)[2..] == groups[1..];
  }

  lemma ParseClose(text: string, depth: nat, groups: seq<Options>, items: Items)
    requires depth > 0 && Balanced(text, depth - 1) && Parse(text, depth - 1) == (groups, items)
    ensures Balanced(['}'] + text, depth) && Parse(['}'] + text, depth) == ([Only(End)] + groups, items)
  {
    assert (['}'] + text)[1..] == text;
  }

  lemma ParseComma(text: string, depth: nat, group: Options, groups: seq<Options>, items: Items)
    requires depth > 0 && Balanced(text, depth) && Parse(text, depth) == ([group] + groups, items)
    ensures Balanced([','] + text, depth) && Parse([','] + text, depth) == ([Or(End, group)] + groups, items)
  {
    assert ([','] + text)[1..] == text && ([group] + groups)[1..] == groups;
  }

  lemma OrText(first: Items, others: Options, close: string)
    ensures Body(Or(first, others)) + close == Render(first) + ([','] + (Body(others) + close))
  {
  }

  lemma GroupText(options: Options, more: Items, rest: string)
    ensures Render(Group(options, more)) + rest == ['{'] + (Body(options) + (['}'] + (Render(more) + rest)))
  {
  }

  lemma {:induction false} ParseItems(items: Items, rest: string, depth: nat)
    requires ItemsOk(items, depth > 0) && Balanced(rest, depth)
    ensures Balanced(Render(items) + rest, depth)
    ensures Parse(Render(items) + rest, depth) == Before(items, Parse(rest, depth))
    decreases items
  {
    RenderBalanced(items, depth > 0, rest, depth);
    match items
    case End =>
      assert "" + rest == rest;
      var parsed := Parse(rest, depth);
      assert parsed.0 != [] ==> [parsed.0[0]] + parsed.0[1..] == parsed.0;
    case Letter(c, more) =>
      var whole := Render(items) + rest;
      assert whole[0] == c && whole[1..] == Render(more) + rest;
      ParseItems(more, rest, depth);
    case Group(options, more) =>
      var tail := Render(more) + rest;
      ParseItems(more, rest, depth);
      ParseBody(options, tail, depth + 1);
      var (groups, last) := Parse(tail, depth);
      ParseOpen(Body(options) + (['}'] + tail), depth, options, groups, last);
      GroupText(options, more, rest);
  }

  lemma {:induction false} ParseBody(options: Options, tail: string, depth: nat)
    requires OptionsOk(options) && depth > 0 && Balanced(tail, depth - 1)
    ensures Balanced(Body(options) + (['}'] + tail), depth)
    ensures var (groups, items) := Parse(tail, depth - 1);
            Parse(Body(options) + (['}'] + tail), depth) == ([options] + groups, items)
    decreases options
  {
    var (groups, items) := Parse(tail, depth - 1);
    var close := ['}'] + tail;
    ParseClose(tail, depth, groups, items);
    AppendEnd(options.items);
    match options
    case Only(first) =>
      ParseItems(first, close, depth);
      assert ([Only(End)] + groups)[1..] == groups;
    case Or(first, others) =>
      ParseBody(others, tail, depth);
      var comma := [','] + (Body(others) + close);
      ParseComma(Body(others) + close, depth, others, groups, items);
      ParseItems(first, comma, depth);
      assert ([Or(End, others)] + groups)[1..] == groups;
      OrText(first, others, close);
  }

  /** Patterns and readings are one to one: parsing undoes rendering, and rendering undoes parsing. */
  lemma ParseIsInverse(items: Items)
    requires ItemsOk(items, false)
    ensures Balanced(Render(items), 0) && Parse(Render(items), 0) == ([], items)
  {
    ParseItems(items, "", 0);
    AppendEnd(items);
    assert Render(items) + "" == Render(items);
  }

  // ---- The condition ----

  predicate Brace(c: char) {
    c == '{' || c == '}'
  }

  /** Inside a group, no comma has a closing brace after it. */
  predicate CommasLast(body: string) {
    forall i, j :: 0 <= i < j < |body| ==> !(body[i] == ',' && body[j] == '}')
  }

  /** No letter has an opening brace after it. */
  predicate OpensFirst(body: string) {
    forall i, j :: 0 <= i < j < |body| ==> !(!Brace(body[i]) && body[j] == '{')
  }

  predicate UnitBody(body: string) {
    CommasLast(body) && (',' in body ==> OpensFirst(body))
  }

  /** A condition on every outermost group's text. */
  predicate AllBodies(items: Items, good: string -> bool) {
    match items
    case End => true
    case Letter(_, rest) => AllBodies(rest, good)
    case Group(options, rest) => good(Body(options)) && AllBodies(rest, good)
  }

  // ---- A group read from the left ----

  function Letters(text: string): string {
    if text == "" then "" else (if Brace(text[0]) then "" else [text[0]]) + Letters(text[1..])
  }

  lemma {:induction false} LettersConcat(a: string, b: string)
    ensures Letters(a + b) == Letters(a) + Letters(b)
  {
    if a == "" {
      assert a + b == b;
    } else {
      assert (a + b)[0] == a[0] && (a + b)[1..] == a[1..] + b;
      LettersConcat(a[1..], b);
    }
  }

  lemma LettersBehind(brace: char, text: string)
    requires Brace(brace)
    ensures Letters([brace] + text) == Letters(text)
  {
    assert ([brace] + text)[1..] == text;
  }

  lemma {:induction false} LettersClean(text: string)
    ensures Clean(Letters(text))
    ensures Clean(text) ==> Letters(text) == text
    ensures ',' in Letters(text) <==> ',' in text
  {
    if text != "" {
      LettersClean(text[1..]);
      assert text == [text[0]] + text[1..];
    }
  }

  /** A group around a body with groups: the first step takes the opening brace and the first closing one away. */
  lemma BodySplits(body: string, before: string, inner: string, after: string)
    requires '{' !in before && '}' !in inner && body == before + ['{'] + inner + ['}'] + after && Balanced(body, 0)
    ensures Clean(before) && Balanced(inner + after, 0)
    ensures Count(inner + after, '}') < Count(body, '}')
    ensures Letters(body) == before + Letters(inner + after)
    ensures CommasLast(body) <==> ',' !in before + ['{'] + inner && CommasLast(inner + after)
    ensures OpensFirst(body) <==> before == "" && OpensFirst(inner + after)
  {
    GroupSplits(before, inner, after);
    PartBalanced("", inner, after);
    assert "" + inner + after == inner + after;
    GroupCount(before, inner, after, '}');
    CountConcat(inner, after, '}');
    SplitLetters(before, inner, after);
    SplitCommasLast(before, inner, after);
    SplitOpensFirst(before, inner, after);
  }

  lemma GroupLetters(inner: string, after: string)
    ensures Letters(['{'] + inner + ['}'] + after) == Letters(inner + after)
  {
    var closed := ['}'] + after;
    LettersBehind('}', after);
    LettersBehind('{', inner + closed);
    LettersConcat(inner, after);
    LettersConcat(inner, closed);
    assert ['{'] + inner + ['}'] + after == ['{'] + (inner + closed);
  }

  lemma SplitLetters(before: string, inner: string, after: string)
    requires Clean(before)
    ensures Letters(before + ['{'] + inner + ['}'] + after) == before + Letters(inner + after)
  {
    FourPieces(before, inner, after);
    LettersClean(before);
    LettersConcat(before, ['{'] + inner + ['}'] + after);
    GroupLetters(inner, after);
  }

  lemma SplitCommasLast(before: string, inner: string, after: string)
    requires Clean(before) && '}' !in inner
    ensures CommasLast(before + ['{'] + inner + ['}'] + after)
            <==> ',' !in before + ['{'] + inner && CommasLast(inner + after)
  {
    var body, rest, head := before + ['{'] + inner + ['}'] + after, inner + after, before + ['{'] + inner;
    var end := |head|;
    assert body[end] == '}' && body[..end] == head && body[end + 1..] == after;
    assert forall k :: end < k < |body| ==> body[k] == rest[|inner| + k - end - 1];
    if CommasLast(body) {
      assert forall k :: 0 <= k < end ==> head[k] == body[k];
      forall i, j | 0 <= i < j < |rest|
        ensures !(rest[i] == ',' && rest[j] == '}')
      {
        if j >= |inner| && i >= |inner| {
          assert body[end + 1 + (i - |inner|)] == rest[i] && body[end + 1 + (j - |inner|)] == rest[j];
        } else if i < |inner| {
          assert body[|before| + 1 + i] == rest[i] == head[|before| + 1 + i];
        }
      }
    }
    if ',' !in head && CommasLast(rest) {
      forall i, j | 0 <= i < j < |body|
        ensures !(body[i] == ',' && body[j] == '}')
      {
        if i < end {
          assert body[i] == head[i];
        } else if i > end {
          assert body[i] == rest[|inner| + (i - end - 1)] && body[j] == rest[|inner| + (j - end - 1)];
        }
      }
    }
  }

  lemma SplitOpensFirst(before: string, inner: string, after: string)
    requires Clean(before) && '}' !in inner
    ensures OpensFirst(before + ['{'] + inner + ['}'] + after) <==> before == "" && OpensFirst(inner + after)
  {
    var body, rest := before + ['{'] + inner + ['}'] + after, inner + after;
    var start, end := |before|, |before| + 1 + |inner|;
    assert body[start] == '{' && body[end] == '}';
    assert forall k :: 0 <= k < |inner| ==> body[start + 1 + k] == rest[k];
    assert forall k :: end < k < |body| ==> body[k] == rest[|inner| + k - end - 1];
    if before != "" {
      assert body[0] == before[0];
      assert !Brace(body[0]) && body[start] == '{';
    } else if OpensFirst(body) {
      forall i, j | 0 <= i < j < |rest|
        ensures !(!Brace(rest[i]) && rest[j] == '{')
      {
        var x := if i < |inner| then start + 1 + i else end + 1 + (i - |inner|);
        var y := if j < |inner| then start + 1 + j else end + 1 + (j - |inner|);
        assert body[x] == rest[i] && body[y] == rest[j];
      }
    }
    if before == "" && OpensFirst(rest) {
      forall i, j | 0 <= i < j < |body|
        ensures !(!Brace(body[i]) && body[j] == '{')
      {
        if i != start && i != end && j != end {
          var x := if i < end then i - 1 else i - 2;
          var y := if j < end then j - 1 else j - 2;
          assert body[i] == rest[x] && body[j] == rest[y];
        }
      }
    }
  }

  /** What ends up before the group, and the text of the group that remains. */
  function Shift(body: string): (string, string)
    requires Balanced(body, 0)
    decreases Count(body, '}')
  {
    match FirstGroup(body)
    case None => ("", body)
    case Some((before, inner, after)) =>
      BodySplits(body, before, inner, after);
      var (moved, rest) := Shift(inner + after);
      (before + moved, rest)
  }

  lemma {:induction false} ShiftIs(body: string)
    requires Balanced(body, 0)
    ensures Shift(body).0 + Shift(body).1 == Letters(body)
    ensures Clean(Shift(body).0) && Clean(Shift(body).1)
    ensures CommasLast(body) ==> ',' !in Shift(body).0
    ensures Shift(body).0 == "" <==> OpensFirst(body)
    decreases Count(body, '}')
  {
    match FirstGroup(body)
    case None =>
      BalancedWithoutGroup(body);
      LettersClean(body);
      assert forall k :: 0 <= k < |body| ==> body[k] in body;
    case Some((before, inner, after)) =>
      BodySplits(body, before, inner, after);
      ShiftIs(inner + after);
      Reassociate(before, Shift(inner + after).0, Shift(inner + after).1);
  }

  /** A group whose commas come last expands, in the end, as a flat group behind the letters moved out of it. */
  lemma {:induction false} GroupExpands(prefix: string, body: string, suffix: string)
    requires Clean(prefix) && Balanced(body, 0) && CommasLast(body)
    ensures forall part :: part in Split(Shift(body).1, ',') ==> '}' !in part
    ensures ExpandBraces(prefix + ['{'] + body + ['}'] + suffix)
         == ExpandEach(prefix + Shift(body).0, Split(Shift(body).1, ','), suffix)
    decreases Count(body, '}')
  {
    ShiftIs(body);
    SplitFree(Shift(body).1, ',', '}');
    match FirstGroup(body)
    case None =>
      BalancedWithoutGroup(body);
      assert prefix + "" == prefix;
      ExpandFirst(prefix, body, suffix);
    case Some((before, inner, after)) =>
      BodySplits(body, before, inner, after);
      GroupStep(prefix, before, inner, after, suffix);
      assert forall k :: 0 <= k < |before| ==> before[k] in before + ['{'] + inner;
      GroupExpands(prefix + before, inner + after, suffix);
      Reassociate(prefix, before, Shift(inner + after).0);
  }

  lemma NestedPieces(prefix: string, before: string, inner: string, after: string, suffix: string)
    ensures prefix + ['{'] + (before + ['{'] + inner + ['}'] + after) + ['}'] + suffix
         == prefix + ['{'] + (before + ['{'] + inner) + ['}'] + (after + ['}'] + suffix)
    ensures prefix + (before + ['{'] + inner) + (after + ['}'] + suffix)
         == prefix + before + ['{'] + (inner + after) + ['}'] + suffix
  {
    assert before + ['{'] + inner + ['}'] + after == (before + ['{'] + inner) + (['}'] + after);
  }

  /** One step on a nested group: its text up to the first closing brace has no comma, so nothing is picked. */
  lemma GroupStep(prefix: string, before: string, inner: string, after: string, suffix: string)
    requires Clean(prefix) && Clean(before) && '}' !in inner && ',' !in before + ['{'] + inner
    ensures ExpandBraces(prefix + ['{'] + (before + ['{'] + inner + ['}'] + after) + ['}'] + suffix)
         == ExpandBraces(prefix + before + ['{'] + (inner + after) + ['}'] + suffix)
  {
    var options, rest := before + ['{'] + inner, after + ['}'] + suffix;
    NestedPieces(prefix, before, inner, after, suffix);
    ExpandFirst(prefix, options, rest);
    SplitWhole(options, ',');
    OnePart(prefix, options, rest);
  }

  lemma OnePart(prefix: string, part: string, suffix: string)
    requires '}' !in part
    ensures ExpandEach(prefix, [part], suffix) == ExpandBraces(prefix + part + suffix)
  {
    assert [part][1..] == [];
    assert ExpandBraces(prefix + part + suffix) + [] == ExpandBraces(prefix + part + suffix);
  }

  // ---- What the options of a group with its commas last are ----

  lemma BodyParts(items: Items, others: Options)
    ensures Body(Or(items, others)) == Render(items) + ([','] + Body(others))
  {
  }

  lemma {:induction false} ItemsBalanced(items: Items, inside: bool)
    requires ItemsOk(items, inside)
    ensures Balanced(Render(items), 0)
  {
    RenderBalanced(items, inside, "", 0);
    assert Render(items) + "" == Render(items);
  }

  lemma {:induction false} OptionsBalanced(options: Options)
    requires OptionsOk(options)
    ensures Balanced(Body(options), 0)
  {
    BodyBalanced(options, "", 0);
    assert Body(options) + "" == Body(options);
  }

  /** Inside a group a comma stands in an inner group, whose closing brace comes after it. */
  lemma {:induction false} InnerComma(items: Items)
    requires ItemsOk(items, true) && CommasLast(Render(items))
    ensures ',' !in Render(items)
  {
    match items
    case End =>
    case Letter(c, rest) =>
      assert forall k :: 0 <= k < |Render(rest)| ==> Render(rest)[k] == Render(items)[k + 1];
      InnerComma(rest);
    case Group(options, rest) =>
      var body, text := Body(options), Render(items);
      assert forall k :: 0 <= k < |body| ==> body[k] == text[k + 1];
      assert text[|body| + 1] == '}';
      assert forall k :: |body| + 2 <= k < |text| ==> text[k] == Render(rest)[k - |body| - 2];
      assert Render(rest) == text[|body| + 2..];
      InnerComma(rest);
  }

  lemma {:induction false} OneChoice(items: Items)
    requires ItemsOk(items, true) && ',' !in Render(items)
    ensures Choices(items) == [Letters(Render(items))]
    decreases items
  {
    match items
    case End =>
    case Letter(c, rest) =>
      OneChoice(rest);
      LettersConcat([c], Render(rest));
      assert [c][1..] == "" && Letters([c]) == [c];
      assert Prefixed([c], [Letters(Render(rest))]) == [[c] + Letters(Render(rest))];
    case Group(options, rest) =>
      assert options.Only?;
      OneChoice(options.items);
      OneChoice(rest);
      GroupLetters(Body(options), Render(rest));
      LettersConcat(Body(options), Render(rest));
      var letters := Letters(Body(options));
      assert "" + letters == letters;
      assert PrefixedEach("", [letters], Choices(rest))
          == Prefixed(letters, Choices(rest)) + PrefixedEach("", [], Choices(rest));
  }

  lemma CommasLastParts(first: string, rest: string)
    requires CommasLast(first + [','] + rest)
    ensures CommasLast(first) && CommasLast(rest)
  {
    var body := first + [','] + rest;
    assert forall k :: 0 <= k < |first| ==> body[k] == first[k];
    assert body[|first| + 1..] == rest;
  }

  lemma {:induction false} OptionsSplit(options: Options)
    requires OptionsOk(options) && CommasLast(Body(options))
    ensures OptionChoices(options) == Split(Letters(Body(options)), ',')
    decreases options
  {
    var body := Body(options);
    match options
    case Only(items) =>
      InnerComma(items);
      OneChoice(items);
      LettersClean(body);
      SplitWhole(Letters(body), ',');
    case Or(items, others) =>
      var first, rest := Render(items), Body(others);
      CommasLastParts(first, rest);
      InnerComma(items);
      OneChoice(items);
      OptionsSplit(others);
      BodyParts(items, others);
      LettersConcat(first, [','] + rest);
      LettersConcat([','], rest);
      LettersClean(first);
      SplitWhole(Letters(first), ',');
      SplitConcat(Letters(first), Letters(rest), ',');
      assert Letters([',']) == [','];
      Reassociate(Letters(first), [','], Letters(rest));
  }

  // ---- Groups that are units ----

  lemma LetterMoves(prefix: string, c: char, rest: string)
    ensures prefix + ([c] + rest) == (prefix + [c]) + rest
  {
  }

  lemma {:induction false} UnitsExpand(prefix: string, items: Items)
    requires Clean(prefix) && ItemsOk(items, false) && AllBodies(items, UnitBody)
    ensures ExpandBraces(prefix + Render(items)) == Prefixed(prefix, Choices(items))
    decreases items, 0
  {
    match items
    case End =>
      assert prefix + "" == prefix;
      ExpandPlain(prefix);
    case Letter(c, rest) =>
      LetterMoves(prefix, c, Render(rest));
      UnitsExpand(prefix + [c], rest);
      PrefixedTwice(prefix, [c], Choices(rest));
    case Group(options, rest) =>
      var body := Body(options);
      OptionsBalanced(options);
      var (moved, text) := Shift(body);
      ShiftIs(body);
      LettersClean(body);
      FourPieces(prefix, body, Render(rest));
      GroupExpands(prefix, body, Render(rest));
      OptionsSplit(options);
      SplitFree(text, ',', '{');
      PartsExpand(prefix + moved, Split(text, ','), rest);
      if ',' in body {
        assert prefix + "" == prefix && "" + text == text;
      } else {
        SplitWhole(text, ',');
        SplitWhole(moved + text, ',');
        OnePrefixed(prefix, moved, text, Choices(rest));
      }
      PrefixedChoice(prefix, OptionChoices(options), Choices(rest));
  }

  lemma OnePrefixed(prefix: string, moved: string, text: string, texts: seq<string>)
    ensures PrefixedEach(prefix + moved, [text], texts) == PrefixedEach(prefix, [moved + text], texts)
  {
    Reassociate(prefix, moved, text);
    assert [text][1..] == [] && [moved + text][1..] == [];
  }

  lemma {:induction false} PartsExpand(prefix: string, parts: seq<string>, rest: Items)
    requires Clean(prefix) && ItemsOk(rest, false) && AllBodies(rest, UnitBody)
    requires forall part :: part in parts ==> '{' !in part && '}' !in part
    ensures ExpandEach(prefix, parts, Render(rest)) == PrefixedEach(prefix, parts, Choices(rest))
    decreases rest, 1 + |parts|
  {
    if parts != [] {
      UnitsExpand(prefix + parts[0], rest);
      PartsExpand(prefix, parts[1..], rest);
    }
  }

  // ---- Groups that are not ----

  lemma {:induction false} MixedGroup(body: string, suffix: string)
    requires Balanced(body, 0)
    ensures Mixed(['{'] + body + ['}'] + suffix) <==> !CommasLast(body) || Mixed(suffix)
    decreases Count(body, '}')
  {
    match FirstGroup(body)
    case None =>
      BalancedWithoutGroup(body);
      MixedAt("", body, suffix);
      assert "" + ['{'] + body + ['}'] + suffix == ['{'] + body + ['}'] + suffix;
      MixedBehind(body, suffix);
    case Some((before, inner, after)) =>
      BodySplits(body, before, inner, after);
      MixedGroup(inner + after, suffix);
      MixedStep(before, inner, after, suffix);
      assert '{' in before + ['{'] + inner;
  }

  lemma MixedStep(before: string, inner: string, after: string, suffix: string)
    requires Clean(before) && '}' !in inner
    ensures Mixed(['{'] + (before + ['{'] + inner + ['}'] + after) + ['}'] + suffix)
            <==> ',' in before + ['{'] + inner || Mixed(['{'] + (inner + after) + ['}'] + suffix)
  {
    var options, rest := before + ['{'] + inner, after + ['}'] + suffix;
    NestedPieces("", before, inner, after, suffix);
    MixedAt("", options, rest);
    MixedBehind(before, ['{'] + (inner + after) + ['}'] + suffix);
    FourPieces(before, inner + after, suffix);
    NothingBefore(['{'] + (before + ['{'] + inner + ['}'] + after) + ['}'] + suffix);
    MixedPieces(before, inner, after, suffix);
    assert '{' in options;
  }

  lemma NothingBefore(text: string)
    ensures "" + text == text
  {
  }

  lemma MixedPieces(before: string, inner: string, after: string, suffix: string)
    ensures "" + ['{'] + (before + ['{'] + inner + ['}'] + after) + ['}'] + suffix
         == ['{'] + (before + ['{'] + inner + ['}'] + after) + ['}'] + suffix
    ensures (before + ['{'] + inner) + (after + ['}'] + suffix)
         == before + (['{'] + (inner + after) + ['}'] + suffix)
  {
  }

  /** A pattern is mixed exactly when an outermost group has a closing brace after a comma. */
  lemma {:induction false} MixedIff(items: Items)
    requires ItemsOk(items, false)
    ensures Mixed(Render(items)) <==> !AllBodies(items, CommasLast)
  {
    match items
    case End =>
    case Letter(c, rest) =>
      MixedBehind([c], Render(rest));
      MixedIff(rest);
    case Group(options, rest) =>
      OptionsBalanced(options);
      MixedGroup(Body(options), Render(rest));
      MixedIff(rest);
  }

  lemma {:induction false} PrefixedChoicesClean(prefix: string, texts: seq<string>)
    requires Clean(prefix) && forall text :: text in texts ==> '{' !in text && '}' !in text
    ensures forall text :: text in Prefixed(prefix, texts) ==> '{' !in text && '}' !in text
  {
    if texts != [] {
      PrefixedChoicesClean(prefix, texts[1..]);
    }
  }

  lemma {:induction false} CrossClean(options: seq<string>, texts: seq<string>)
    requires forall option :: option in options ==> '{' !in option && '}' !in option
    requires forall text :: text in texts ==> '{' !in text && '}' !in text
    ensures forall text :: text in PrefixedEach("", options, texts) ==> '{' !in text && '}' !in text
  {
    if options != [] {
      assert "" + options[0] == options[0];
      PrefixedChoicesClean(options[0], texts);
      CrossClean(options[1..], texts);
    }
  }

  lemma {:induction false} ChoicesClean(items: Items, inside: bool)
    requires ItemsOk(items, inside)
    ensures forall text :: text in Choices(items) ==> '{' !in text && '}' !in text
    decreases items
  {
    match items
    case End =>
    case Letter(c, rest) =>
      ChoicesClean(rest, inside);
      PrefixedChoicesClean([c], Choices(rest));
    case Group(options, rest) =>
      OptionsClean(options);
      ChoicesClean(rest, inside);
      CrossClean(OptionChoices(options), Choices(rest));
  }

  lemma {:induction false} OptionsClean(options: Options)
    requires OptionsOk(options)
    ensures forall text :: text in OptionChoices(options) ==> '{' !in text && '}' !in text
    decreases options
  {
    ChoicesClean(options.items, true);
    if options.Or? {
      OptionsClean(options.others);
    }
  }

  // ---- Letters moved out of a group lengthen the last expansion ----

  function Last(texts: seq<string>): string
    requires texts != []
  {
    texts[|texts| - 1]
  }

  lemma {:induction false} LastPrefixed(prefix: string, texts: seq<string>)
    requires texts != []
    ensures Prefixed(prefix, texts) != [] && Last(Prefixed(prefix, texts)) == prefix + Last(texts)
  {
    if |texts| > 1 {
      LastPrefixed(prefix, texts[1..]);
    }
  }

  lemma {:induction false} LastCross(options: seq<string>, texts: seq<string>)
    requires options != [] && texts != []
    ensures PrefixedEach("", options, texts) != []
    ensures Last(PrefixedEach("", options, texts)) == Last(options) + Last(texts)
  {
    assert "" + options[0] == options[0];
    LastPrefixed(options[0], texts);
    if |options| > 1 {
      LastCross(options[1..], texts);
    }
  }

  lemma LastConcat(a: seq<string>, b: seq<string>)
    requires b != []
    ensures a + b != [] && Last(a + b) == Last(b)
  {
  }

  lemma {:induction false} LastEach(prefix: string, parts: seq<string>, suffix: string)
    requires parts != [] && forall part :: part in parts ==> '}' !in part
    ensures ExpandBraces(prefix + Last(parts) + suffix) != [] && ExpandEach(prefix, parts, suffix) != []
    ensures Last(ExpandEach(prefix, parts, suffix)) == Last(ExpandBraces(prefix + Last(parts) + suffix))
    decreases |parts|
  {
    ExpandedHasNoGroup(prefix + Last(parts) + suffix);
    if |parts| == 1 {
      assert parts == [parts[0]];
      OnePart(prefix, parts[0], suffix);
    } else {
      LastEach(prefix, parts[1..], suffix);
      assert Last(parts[1..]) == Last(parts);
      LastConcat(ExpandBraces(prefix + parts[0] + suffix), ExpandEach(prefix, parts[1..], suffix));
    }
  }

  /** Letters without a comma in front of a text go to its first part, which is the last one only if it has no comma. */
  lemma LastSplit(moved: string, text: string)
    requires ',' !in moved
    ensures |Last(Split(text, ','))| + |moved|
         == |Last(Split(moved + text, ','))| + (if ',' in text then |moved| else 0)
  {
    SplitBehind(moved, text);
    if ',' in text {
      SplitTwo(text);
    } else {
      SplitWhole(text, ',');
      SplitWhole(moved + text, ',');
    }
  }

  lemma {:induction false} SplitBehind(moved: string, text: string)
    requires ',' !in moved
    ensures Split(moved + text, ',') == [moved + Split(text, ',')[0]] + Split(text, ',')[1..]
  {
    if moved == "" {
      assert moved + text == text;
      assert "" + Split(text, ',')[0] == Split(text, ',')[0];
    } else {
      assert (moved + text)[0] == moved[0] && (moved + text)[1..] == moved[1..] + text;
      SplitBehind(moved[1..], text);
      assert [moved[0]] + (moved[1..] + Split(text, ',')[0]) == moved + Split(text, ',')[0];
    }
  }

  lemma {:induction false} SomeChoice(items: Items)
    ensures Choices(items) != []
    decreases items
  {
    match items
    case End =>
    case Letter(c, rest) =>
      SomeChoice(rest);
      LastPrefixed([c], Choices(rest));
    case Group(options, rest) =>
      SomeChoice(options.items);
      SomeChoice(rest);
      LastCross(OptionChoices(options), Choices(rest));
  }

  lemma {:induction false} LastGrows(prefix: string, items: Items)
    requires Clean(prefix) && ItemsOk(items, false) && AllBodies(items, CommasLast)
    ensures Choices(items) != [] && ExpandBraces(prefix + Render(items)) != []
    ensures |Last(ExpandBraces(prefix + Render(items)))| >= |prefix| + |Last(Choices(items))|
    ensures !AllBodies(items, UnitBody) ==>
              |Last(ExpandBraces(prefix + Render(items)))| > |prefix| + |Last(Choices(items))|
    decreases items
  {
    match items
    case End =>
      assert prefix + "" == prefix;
      ExpandPlain(prefix);
    case Letter(c, rest) =>
      LetterMoves(prefix, c, Render(rest));
      LastGrows(prefix + [c], rest);
      LastPrefixed([c], Choices(rest));
    case Group(options, rest) =>
      var body := Body(options);
      OptionsBalanced(options);
      var (moved, text) := Shift(body);
      ShiftIs(body);
      LettersClean(body);
      FourPieces(prefix, body, Render(rest));
      GroupExpands(prefix, body, Render(rest));
      OptionsSplit(options);
      SplitFree(text, ',', '{');
      LastEach(prefix + moved, Split(text, ','), Render(rest));
      LastGrows(prefix + moved + Last(Split(text, ',')), rest);
      LastCross(OptionChoices(options), Choices(rest));
      LastSplit(moved, text);
  }

  // ---- The theorem ----

  /**
   * A pattern expands to the choices its matching braces mean, in their order, if and only if in
   * every outermost group no closing brace comes after a comma and, when there is a comma, no
   * opening brace after a letter.
   */
  lemma GroupsAreUnitsIff(items: Items)
    requires ItemsOk(items, false)
    ensures ExpandBraces(Render(items)) == Choices(items) <==> AllBodies(items, UnitBody)
  {
    var pattern := Render(items);
    assert "" + pattern == pattern;
    if AllBodies(items, UnitBody) {
      UnitsExpand("", items);
      PrefixedNone(Choices(items));
    } else if AllBodies(items, CommasLast) {
      LastGrows("", items);
    } else {
      ItemsBalanced(items, false);
      MixedIff(items);
      NoStrayBraceIff(pattern);
      ChoicesClean(items, false);
    }
  }

  /** The same for every pattern with matching braces, read by its parse. */
  lemma BalancedExpandsIff(pattern: string)
    requires Balanced(pattern, 0)
    ensures var items := Parse(pattern, 0).1;
            && Render(items) == pattern
            && (ExpandBraces(pattern) == Choices(items) <==> AllBodies(items, UnitBody))
            && ((forall expanded :: expanded in ExpandBraces(pattern) ==> Clean(expanded))
                <==> AllBodies(items, CommasLast))
  {
    var items := Parse(pattern, 0).1;
    ParseRenders(pattern, 0);
    GroupsAreUnitsIff(items);
    MixedIff(items);
    NoStrayBraceIff(pattern);
  }
}
