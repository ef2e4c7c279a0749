/** The text operations header lines are taken apart with. */
module HttpText {
  import opened Wrappers
  import opened Utf8
  import opened ChunkedCoding

  // ---- Lines ----

  /** Splitting at every line end, left to right. */
  function SplitLines(text: string): (lines: seq<string>)
    ensures |lines| >= 1
  {
    if text == "" then [""]
    else if |text| >= 2 && text[0] == '\r' && text[1] == '\n' then [""] + SplitLines(text[2..])
    else
      var rest := SplitLines(text[1..]);
      [[text[0]] + rest[0]] + rest[1..]
  }

  function JoinLines(lines: seq<string>): string {
    if lines == [] then "" else lines[0] + ['\r', '\n'] + JoinLines(lines[1..])
  }

  /** No line end inside; a lone CR or LF may stand in a line. */
  predicate OneLine(text: string) {
    forall i :: 0 <= i < |text| - 1 ==> !(text[i] == '\r' && text[i + 1] == '\n')
  }

  lemma {:induction false} SplitOne(line: string, rest: string)
    requires OneLine(line)
    ensures SplitLines(line + ['\r', '\n'] + rest) == [line] + SplitLines(rest)
  {
    var text := line + ['\r', '\n'] + rest;
    if line == "" {
      assert text[2..] == rest;
    } else {
      assert forall i :: 0 <= i < |line| - 1 ==> line[1..][i] == line[i + 1];
      SplitOne(line[1..], rest);
      assert text[1..] == line[1..] + ['\r', '\n'] + rest;
      if |line| > 1 {
        assert text[1] == line[1];
      }
      assert [line[0]] + line[1..] == line;
    }
  }

  lemma JoinStep(lines: seq<string>, rest: string)
    requires lines != []
    ensures JoinLines(lines) + rest == lines[0] + ['\r', '\n'] + (JoinLines(lines[1..]) + rest)
  {
  }

  lemma FirstOf(lines: seq<string>, more: seq<string>)
    requires lines != []
    ensures lines + more == [lines[0]] + (lines[1..] + more)
  {
  }

  /** Joined lines split into the same lines again. */
  lemma {:induction false} SplitJoined(lines: seq<string>, rest: string)
    requires forall i :: 0 <= i < |lines| ==> OneLine(lines[i])
    ensures SplitLines(JoinLines(lines) + rest) == lines + SplitLines(rest)
    decreases |lines|
  {
    if lines == [] {
      assert JoinLines(lines) + rest == rest && lines + SplitLines(rest) == SplitLines(rest);
    } else {
      JoinStep(lines, rest);
      SplitOne(lines[0], JoinLines(lines[1..]) + rest);
      SplitJoined(lines[1..], rest);
      FirstOf(lines, SplitLines(rest));
    }
  }

  lemma {:induction false} SplitOneLine(text: string)
    ensures forall i :: 0 <= i < |SplitLines(text)| ==> OneLine(SplitLines(text)[i])
    ensures text != "" ==> SplitLines(text)[0] == "" || SplitLines(text)[0][0] == text[0]
  {
    if text == "" {
    } else if |text| >= 2 && text[0] == '\r' && text[1] == '\n' {
      SplitOneLine(text[2..]);
    } else {
      SplitOneLine(text[1..]);
      var rest := SplitLines(text[1..]);
      var first := [text[0]] + rest[0];
      forall i | 0 <= i < |first| - 1
        ensures !(first[i] == '\r' && first[i + 1] == '\n')
      {
        if i > 0 {
          assert first[i] == rest[0][i - 1] && first[i + 1] == rest[0][i];
        }
      }
    }
  }

  // ---- Trimming ----

  /** Nothing to trim at either end. */
  predicate Trimmed(text: string) {
    text != "" ==> !IsWhitespace(text[0]) && !IsWhitespace(text[|text| - 1])
  }

  predicate Within(part: string, whole: string) {
    exists i, j :: 0 <= i <= j <= |whole| && part == whole[i..j]
  }

  lemma TrimmedStays(text: string)
    requires Trimmed(text)
    ensures Trim(text) == text
  {
  }

  lemma {:induction false} TrimStartSuffix(text: string) returns (from: nat)
    ensures from <= |text| && TrimStart(text) == text[from..]
    ensures from < |text| ==> !IsWhitespace(text[from])
  {
    if text != "" && IsWhitespace(text[0]) {
      from := TrimStartSuffix(text[1..]);
      assert text[1..][from..] == text[from + 1..];
      from := from + 1;
    } else {
      from := 0;
    }
  }

  lemma {:induction false} TrimWithin(text: string)
    ensures Trimmed(Trim(text)) && Within(Trim(text), text)
    decreases |text|
  {
    if text != "" && IsWhitespace(text[|text| - 1]) {
      var init := text[..|text| - 1];
      TrimWithin(init);
      WithinPrefix(Trim(init), init, text);
    } else {
      var from := TrimStartSuffix(text);
      assert Trim(text) == text[from..|text|];
    }
  }

  lemma WithinPrefix(part: string, prefix: string, whole: string)
    requires Within(part, prefix) && prefix <= whole
    ensures Within(part, whole)
  {
    var i, j :| 0 <= i <= j <= |prefix| && part == prefix[i..j];
    assert part == whole[i..j];
  }

  lemma TrimSpace(value: string)
    requires Trimmed(value)
    ensures Trim([' '] + value) == value
  {
    if value == "" {
      assert ([' '] + value)[..0] == "";
    } else {
      var spaced := [' '] + value;
      assert spaced[1..] == value && spaced[|spaced| - 1] == value[|value| - 1];
      assert Trim(spaced) == TrimStart(spaced) == TrimStart(value);
    }
  }

  // ---- Case, colons and words ----

  function LowerChar(c: char): char {
    if 'A' <= c <= 'Z' then c - 'A' + 'a' else c
  }

  function Lower(text: string): (r: string)
    ensures |r| == |text|
  {
    seq(|text|, i requires 0 <= i < |text| => LowerChar(text[i]))
  }

  /** Before and after the first colon. */
  function SplitColon(line: string): Option<(string, string)> {
    if line == "" then None
    else if line[0] == ':' then Some(("", line[1..]))
    else
      match SplitColon(line[1..])
      case None => None
      case Some((name, value)) => Some(([line[0]] + name, value))
  }

  lemma {:induction false} SplitColonAt(name: string, value: string)
    requires ':' !in name
    ensures SplitColon(name + [':'] + value) == Some((name, value))
  {
    var line := name + [':'] + value;
    if name == "" {
      assert line[1..] == value;
    } else {
      assert line[1..] == name[1..] + [':'] + value;
      SplitColonAt(name[1..], value);
      assert [name[0]] + name[1..] == name;
    }
  }

  lemma {:induction false} SplitColonParts(line: string)
    requires SplitColon(line).Some?
    ensures var (name, value) := SplitColon(line).value;
            ':' !in name && line == name + [':'] + value && Within(name, line) && Within(value, line)
  {
    var (name, value) := SplitColon(line).value;
    if line[0] != ':' {
      SplitColonParts(line[1..]);
      var (tail, after) := SplitColon(line[1..]).value;
      assert line == [line[0]] + line[1..];
    }
    assert name == line[0..|name|] && value == line[|name| + 1..|line|];
  }

  /** The text up to the first whitespace. */
  function Word(text: string): (word: string)
    ensures word <= text
  {
    if text == "" || IsWhitespace(text[0]) then "" else [text[0]] + Word(text[1..])
  }

  predicate Solid(text: string) {
    forall i :: 0 <= i < |text| ==> !IsWhitespace(text[i])
  }

  lemma {:induction false} WordSolid(text: string)
    ensures Solid(Word(text))
  {
    if text != "" && !IsWhitespace(text[0]) {
      WordSolid(text[1..]);
    }
  }

  lemma {:induction false} WordBefore(word: string, rest: string)
    requires Solid(word) && rest != "" && IsWhitespace(rest[0])
    ensures Word(word + rest) == word
  {
    if word == "" {
      assert word + rest == rest;
    } else {
      assert (word + rest)[1..] == word[1..] + rest;
      WordBefore(word[1..], rest);
      assert [word[0]] + word[1..] == word;
    }
  }

  lemma WithinOneLine(part: string, whole: string)
    requires Within(part, whole) && OneLine(whole)
    ensures OneLine(part)
  {
    var i, j :| 0 <= i <= j <= |whole| && part == whole[i..j];
    forall k | 0 <= k < |part| - 1
      ensures !(part[k] == '\r' && part[k + 1] == '\n')
    {
      assert part[k] == whole[i + k] && part[k + 1] == whole[i + k + 1];
    }
  }

  lemma LowerKeeps(text: string)
    ensures Lower(Lower(text)) == Lower(text)
    ensures Trimmed(text) ==> Trimmed(Lower(text))
    ensures OneLine(text) ==> OneLine(Lower(text))
    ensures ':' !in text ==> ':' !in Lower(text)
  {
    var lower := Lower(text);
    forall i | 0 <= i < |text|
      ensures IsWhitespace(lower[i]) <==> IsWhitespace(text[i])
      ensures lower[i] == '\r' <==> text[i] == '\r'
      ensures lower[i] == '\n' <==> text[i] == '\n'
      ensures lower[i] == ':' <==> text[i] == ':'
      ensures Lower(lower)[i] == lower[i]
    {
    }
    assert forall i :: 0 <= i < |text| ==> text[i] in text;
  }

  // ---- On the wire ----

  predicate OneLineBytes(bytes: Octets) {
    forall i :: 0 <= i < |bytes| - 1 ==> !(bytes[i] == 13 && bytes[i + 1] == 10)
  }

  lemma CharBytes(c: char)
    ensures if c < 128 as char then EncodeChar(c) == [c as nat] else
              forall i :: 0 <= i < |EncodeChar(c)| ==> EncodeChar(c)[i] >= 0x80
  {
  }

  lemma {:induction false} EncodeOneLine(text: string)
    requires OneLine(text)
    ensures OneLineBytes(Encode(text))
    ensures text != "" ==> Encode(text) != [] && (Encode(text)[0] == 10 <==> text[0] == '\n')
  {
    if text != "" {
      var first, rest := EncodeChar(text[0]), Encode(text[1..]);
      CharBytes(text[0]);
      assert forall i :: 0 <= i < |text| - 1 ==> text[1..][i] == text[i + 1];
      EncodeOneLine(text[1..]);
      var bytes := first + rest;
      forall i | 0 <= i < |bytes| - 1
        ensures !(bytes[i] == 13 && bytes[i + 1] == 10)
      {
        if i >= |first| {
          assert bytes[i] == rest[i - |first|] && bytes[i + 1] == rest[i + 1 - |first|];
        } else if i == |first| - 1 {
          assert bytes[i + 1] == rest[0];
        }
      }
    }
  }

  lemma {:induction false} EncodeConcat(a: string, b: string)
    ensures Encode(a + b) == Encode(a) + Encode(b)
  {
    if a == "" {
      assert a + b == b;
    } else {
      assert (a + b)[1..] == a[1..] + b;
      EncodeConcat(a[1..], b);
    }
  }

  lemma EncodeLineEnd()
    ensures Encode(['\r', '\n']) == CRLF
  {
    assert EncodeChar('\r') == [13] && EncodeChar('\n') == [10];
    assert ['\r', '\n'][1..] == ['\n'];
    assert Encode(['\n']) == [10] + Encode("");
    assert Encode(['\r', '\n']) == [13] + Encode(['\n']);
  }
}
