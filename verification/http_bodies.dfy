/** Request heads as clients write them, and which body goes with each. */
module HttpBodies {
  import opened Wrappers
  import opened Strings
  import opened Utf8
  import opened ChunkedCoding
  import ChunkedGrammar
  import opened HttpText
  import opened HttpRequests
  import opened HttpRoundTrip

  // ---- Names and values ----

  const UPPER := "ABCDEFGHIJKLMNOPQRSTUVWXYZ"
  const LOWER := "abcdefghijklmnopqrstuvwxyz"

  /** Only the letters `A` to `Z` change, each to its small form. */
  lemma LowerSpelled(i: nat)
    requires i < 26
    ensures LowerChar(UPPER[i]) == LOWER[i]
  {
  }

  lemma LowerElsewhere(c: char)
    requires c < 'A' || 'Z' < c
    ensures LowerChar(c) == c
  {
  }

  predicate Blank(text: string) {
    forall i :: 0 <= i < |text| ==> IsWhitespace(text[i])
  }

  lemma {:induction false} StartTrimmed(pad: string, text: string)
    requires Blank(pad)
    ensures TrimStart(pad + text) == TrimStart(text)
    decreases |pad|
  {
    if pad == "" {
      assert pad + text == text;
    } else {
      assert (pad + text)[1..] == pad[1..] + text;
      StartTrimmed(pad[1..], text);
    }
  }

  /** Trimming takes off exactly the whitespace around a text. */
  lemma {:induction false} TrimPadded(before: string, text: string, after: string)
    requires Blank(before) && Blank(after) && Trimmed(text)
    ensures Trim(before + text + after) == text
    decreases |before| + |after|
  {
    var whole := before + text + after;
    if after != "" {
      var k := |after| - 1;
      assert whole[|whole| - 1] == after[k] && whole[..|whole| - 1] == before + text + after[..k];
      TrimPadded(before, text, after[..k]);
    } else if text != "" {
      assert whole == before + text && whole[|whole| - 1] == text[|text| - 1];
      StartTrimmed(before, text);
    } else if before != "" {
      var k := |before| - 1;
      assert whole[|whole| - 1] == before[k] && whole[..|whole| - 1] == before[..k] + text + after;
      TrimPadded(before[..k], text, after);
    }
  }

  /** A header line: the name and the value, each in whitespace, around the first colon. */
  lemma LineTaken(head: Head, pads: (string, string, string, string), name: string, value: string)
    requires Blank(pads.0) && Blank(pads.1) && Blank(pads.2) && Blank(pads.3) && Trimmed(name) && Trimmed(value)
    requires ':' !in name && ':' !in pads.0 && ':' !in pads.1
    ensures TakeLine(head, (pads.0 + name + pads.1) + [':'] + (pads.2 + value + pads.3))
         == Take(head, Lower(name), value)
  {
    SplitColonAt(pads.0 + name + pads.1, pads.2 + value + pads.3);
    TrimPadded(pads.0, name, pads.1);
    TrimPadded(pads.2, value, pads.3);
  }

  /** A line without a colon is passed over, and the first empty line ends the headers. */
  lemma OtherLines(head: Head, line: string, rest: seq<string>)
    requires ':' !in line
    ensures line != "" ==> TakeLines(head, [line] + rest) == TakeLines(head, rest)
    ensures line == "" ==> TakeLines(head, [line] + rest) == Ok(head)
  {
    if SplitColon(line).Some? {
      SplitColonParts(line);
    }
    assert ([line] + rest)[1..] == rest;
  }

  // ---- What a list of fields says ----

  /** The value of the last field of a name, in whatever case it was written. */
  function LastValue(fields: Fields, name: string): Option<string> {
    if fields == [] then None
    else
      var last := fields[|fields| - 1];
      if Lower(last.0) == name then Some(last.1) else LastValue(fields[..|fields| - 1], name)
  }

  /** A list of codings between commas, one of them `chunked` in any case. */
  predicate Lists(value: string) {
    exists i :: 0 <= i < |Split(value, ',')| && IsChunked(Split(value, ',')[i])
  }

  predicate IsChunked(coding: string) {
    var word := Trim(coding);
    && |word| == 7
    && word[0] in "cC" && word[1] in "hH" && word[2] in "uU" && word[3] in "nN" && word[4] in "kK"
    && word[5] in "eE" && word[6] in "dD"
  }

  lemma ChunkedWord(coding: string)
    ensures Lower(Trim(coding)) == "chunked" <==> IsChunked(coding)
  {
    var word := Trim(coding);
    var lower := Lower(word);
    if lower == "chunked" {
      assert |word| == 7;
      assert lower[0] == 'c' && lower[1] == 'h' && lower[2] == 'u' && lower[3] == 'n' && lower[4] == 'k'
          && lower[5] == 'e' && lower[6] == 'd';
    }
    if IsChunked(coding) {
      assert lower == ['c', 'h', 'u', 'n', 'k', 'e', 'd'];
    }
  }

  lemma MentionsIs(value: string)
    ensures MentionsChunked(value) <==> Lists(value)
  {
    forall i | 0 <= i < |Split(value, ',')|
      ensures Lower(Trim(Split(value, ',')[i])) == "chunked" <==> IsChunked(Split(value, ',')[i])
    {
      ChunkedWord(Split(value, ',')[i]);
    }
  }

  /** The lists behind and before a comma count alike. */
  lemma ListsApart(first: string, second: string)
    ensures Lists(first + [','] + second) <==> Lists(first) || Lists(second)
  {
    var a, b := Split(first, ','), Split(second, ',');
    SplitConcat(first, second, ',');
    assert forall i :: 0 <= i < |a| ==> (a + b)[i] == a[i];
    assert forall i :: 0 <= i < |b| ==> (a + b)[|a| + i] == b[i];
    if Lists(second) {
      var i :| 0 <= i < |b| && IsChunked(b[i]);
      assert IsChunked((a + b)[|a| + i]);
    }
    if Lists(first) {
      var i :| 0 <= i < |a| && IsChunked(a[i]);
      assert IsChunked((a + b)[i]);
    }
  }

  predicate SaysChunked(fields: Fields) {
    exists i :: 0 <= i < |fields| && Lower(fields[i].0) == TRANSFER_ENCODING && Lists(fields[i].1)
  }

  /** Every content length given is a number. */
  predicate LengthsOk(fields: Fields) {
    forall i :: 0 <= i < |fields| && Lower(fields[i].0) == CONTENT_LENGTH ==> FromRadix(fields[i].1, 10).Some?
  }

  /** The head that a list of fields makes: the last value of each name counts. */
  ghost predicate Says(head: Head, fields: Fields) {
    && (forall name :: name in head.headers <==> LastValue(fields, name).Some?)
    && (forall name :: name in head.headers ==> head.headers[name] == LastValue(fields, name).value)
    && head.length == (var length := LastValue(fields, CONTENT_LENGTH);
                       if length.Some? then FromRadix(length.value, 10) else None)
    && (head.chunked <==> SaysChunked(fields))
  }

  lemma {:induction false} TakeAllSnoc(head: Head, fields: Fields, last: (string, string))
    ensures TakeAll(head, fields + [last])
         == if TakeAll(head, fields).Err? then TakeAll(head, fields)
            else Take(TakeAll(head, fields).value, Lower(last.0), last.1)
    decreases |fields|
  {
    if fields == [] {
      assert fields + [last] == [last] && [last][1..] == [];
    } else {
      assert (fields + [last])[0] == fields[0] && (fields + [last])[1..] == fields[1..] + [last];
      var next := Take(head, Lower(fields[0].0), fields[0].1);
      if next.Ok? {
        TakeAllSnoc(next.value, fields[1..], last);
      }
    }
  }

  lemma SaysMore(head: Head, fields: Fields, last: (string, string))
    requires Says(head, fields) && Take(head, Lower(last.0), last.1).Ok?
    ensures Says(Take(head, Lower(last.0), last.1).value, fields + [last])
  {
    var all := fields + [last];
    assert all[..|fields|] == fields && all[|all| - 1] == last;
    MentionsIs(last.1);
    assert SaysChunked(all) <==> SaysChunked(fields) || (Lower(last.0) == TRANSFER_ENCODING && Lists(last.1)) by {
      if SaysChunked(fields) {
        var i :| 0 <= i < |fields| && Lower(fields[i].0) == TRANSFER_ENCODING && Lists(fields[i].1);
        assert all[i] == fields[i];
      }
    }
  }

  /** The headers of a request are the last values given, and a length that is no number refuses it. */
  lemma {:induction false} FieldsSay(fields: Fields)
    ensures var read := TakeAll(Head(map[], None, false), fields);
            && (read.Ok? <==> LengthsOk(fields)) && (read.Err? ==> read == Err(BadLength))
            && (read.Ok? ==> Says(read.value, fields))
    decreases |fields|
  {
    if fields != [] {
      var k := |fields| - 1;
      var init, last := fields[..k], fields[k];
      assert fields == init + [last];
      FieldsSay(init);
      TakeAllSnoc(Head(map[], None, false), init, last);
      assert LengthsOk(fields)
        <==> LengthsOk(init) && (Lower(last.0) == CONTENT_LENGTH ==> FromRadix(last.1, 10).Some?);
      if TakeAll(Head(map[], None, false), init).Ok? {
        var head := TakeAll(Head(map[], None, false), init).value;
        if Take(head, Lower(last.0), last.1).Ok? {
          SaysMore(head, init, last);
        }
      }
    }
  }

  // ---- Requests ----

  /** A request line and fields that can stand in a header block. */
  predicate RequestOk(verb: string, target: string, fields: Fields) {
    && verb != "" && Solid(verb) && target != "" && Solid(target) && CleanFields(fields)
  }

  function HeadOf(verb: string, target: string, fields: Fields): Octets {
    HeadBytes([verb + ([' '] + target + " HTTP/1.1")] + FieldLines(fields))
  }

  lemma HeadOfWritable(verb: string, target: string, fields: Fields)
    requires RequestOk(verb, target, fields)
    ensures var line := verb + ([' '] + target + " HTTP/1.1");
            && WritableLines([line] + FieldLines(fields)) && Verb(line) == verb && Target(line) == target
  {
    WordsRead(verb, target, " HTTP/1.1");
    NoReturns(verb, target, " HTTP/1.1");
    forall i | 0 <= i < |fields|
      ensures FieldLine(fields[i]) != "" && OneLine(FieldLine(fields[i]))
    {
      FieldLineWritable(fields[i]);
    }
  }

  lemma HeadOfReads(verb: string, target: string, fields: Fields, lossy: Octets -> string)
    requires RequestOk(verb, target, fields) && ReadsUtf8(lossy)
    ensures var split := SplitLines(lossy(HeadOf(verb, target, fields)));
            && Verb(split[0]) == verb && Target(split[0]) == target
            && TakeLines(Head(map[], None, false), split[1..]) == TakeAll(Head(map[], None, false), fields)
  {
    var line, lines := verb + ([' '] + target + " HTTP/1.1"), FieldLines(fields);
    HeadOfWritable(verb, target, fields);
    HeadText([line] + lines, lossy);
    FieldsTaken(Head(map[], None, false), fields, ["", ""]);
    FirstThenRest(line, lines);
  }

  lemma FirstThenRest(line: string, lines: seq<string>)
    ensures ([line] + lines + ["", ""])[0] == line && ([line] + lines + ["", ""])[1..] == lines + ["", ""]
  {
  }

  /** A request is its head and the body that the head calls for. */
  lemma HeadAndBody(verb: string, target: string, fields: Fields, rest: Octets, lossy: Octets -> string)
    requires RequestOk(verb, target, fields) && ReadsUtf8(lossy)
    ensures var block := HeadOf(verb, target, fields);
            var head := TakeAll(Head(map[], None, false), fields);
            ReadRequest(block + rest, lossy)
            == if |block| > 64 * 1024 then Err(HeadersTooLong)
               else if head.Err? then Err(BadLength)
               else if ReadSized(rest, head.value).Err? then Err(ReadSized(rest, head.value).error)
               else Ok((Request(verb, target, head.value.headers, Optional(ReadSized(rest, head.value).value.0)),
                        ReadSized(rest, head.value).value.1))
  {
    var lines := [verb + ([' '] + target + " HTTP/1.1")] + FieldLines(fields);
    HeadOfWritable(verb, target, fields);
    HeadStep(lines);
    BlockReads(lines, rest, 0);
    FieldsSay(fields);
    if |HeadOf(verb, target, fields)| <= MAX_HEADERS {
      HeadOfReads(verb, target, fields, lossy);
    }
  }

  // ---- Bodies ----

  /** The request with these fields and this body, and what is left behind it. */
  ghost predicate ReadAs(r: Result<(Request, Octets), RequestError>, verb: string, target: string, fields: Fields,
                         body: Octets, rest: Octets) {
    && r.Ok? && r.value.1 == rest
    && var request := r.value.0;
    && request.verb == verb && request.target == target
    && request.body == (if body == [] then None else Some(body))
    && (forall name :: name in request.headers <==> LastValue(fields, name).Some?)
    && (forall name :: name in request.headers ==> request.headers[name] == LastValue(fields, name).value)
  }

  /**
   * A request whose head announces a chunked body, in whatever header line and case, is read with the
   * data of the body's grammar and leaves exactly what follows it.
   */
  lemma ChunkedRequest(verb: string, target: string, fields: Fields,
                       pieces: seq<ChunkedGrammar.Piece>, zero: string, extension: string, trailers: seq<string>,
                       rest: Octets, lossy: Octets -> string)
    requires RequestOk(verb, target, fields) && ReadsUtf8(lossy) && |HeadOf(verb, target, fields)| <= 64 * 1024
    requires SaysChunked(fields) && LastValue(fields, CONTENT_LENGTH).None? && LengthsOk(fields)
    requires ChunkedGrammar.PiecesOk(pieces) && ChunkedGrammar.SizeText(zero, extension, 0)
    requires ChunkedGrammar.TrailerLines(trailers) && |ChunkedGrammar.TrailerBytes(trailers)| + 2 <= 64 * 1024
    ensures var body, data := ChunkedGrammar.BodyBytes(pieces, zero, extension, trailers), ChunkedGrammar.Data(pieces);
            var r := ReadRequest(HeadOf(verb, target, fields) + (body + rest), lossy);
            if |data| <= 250 * 1024 * 1024 then ReadAs(r, verb, target, fields, data, rest)
            else r == Err(BadBody(BodyTooLarge))
  {
    var body := ChunkedGrammar.BodyBytes(pieces, zero, extension, trailers);
    HeadAndBody(verb, target, fields, body + rest, lossy);
    FieldsSay(fields);
    ChunkedGrammar.GrammarRead(pieces, zero, extension, trailers, rest, Some(MAX_HTTP_BODY));
  }

  /** The same for the plain form that writers here produce. */
  lemma ChunkedWritten(verb: string, target: string, fields: Fields, chunks: seq<Octets>, rest: Octets,
                       lossy: Octets -> string)
    requires RequestOk(verb, target, fields) && ReadsUtf8(lossy) && |HeadOf(verb, target, fields)| <= 64 * 1024
    requires SaysChunked(fields) && LastValue(fields, CONTENT_LENGTH).None? && LengthsOk(fields) && Writable(chunks)
    ensures var r := ReadRequest(HeadOf(verb, target, fields) + (EncodeChunks(chunks) + LAST_CHUNK + rest), lossy);
            if |Concat(chunks)| <= 250 * 1024 * 1024 then ReadAs(r, verb, target, fields, Concat(chunks), rest)
            else r == Err(BadBody(BodyTooLarge))
  {
    HeadAndBody(verb, target, fields, EncodeChunks(chunks) + LAST_CHUNK + rest, lossy);
    FieldsSay(fields);
    ChunkedRoundTrip(chunks, rest, Some(MAX_HTTP_BODY));
  }

  /** With a content length beside it, a chunked request is ambiguous and refused, whatever follows. */
  lemma AmbiguousRequest(verb: string, target: string, fields: Fields, rest: Octets, lossy: Octets -> string)
    requires RequestOk(verb, target, fields) && ReadsUtf8(lossy) && |HeadOf(verb, target, fields)| <= 64 * 1024
    requires SaysChunked(fields) && LastValue(fields, CONTENT_LENGTH).Some? && LengthsOk(fields)
    ensures ReadRequest(HeadOf(verb, target, fields) + rest, lossy) == Err(Ambiguous)
  {
    HeadAndBody(verb, target, fields, rest, lossy);
    FieldsSay(fields);
    LastIsOne(fields, CONTENT_LENGTH);
  }

  lemma {:induction false} LastIsOne(fields: Fields, name: string)
    requires LastValue(fields, name).Some?
    ensures exists i :: 0 <= i < |fields| && Lower(fields[i].0) == name && fields[i].1 == LastValue(fields, name).value
    decreases |fields|
  {
    var k := |fields| - 1;
    if Lower(fields[k].0) != name {
      LastIsOne(fields[..k], name);
      var i :| 0 <= i < k && Lower(fields[..k][i].0) == name && fields[..k][i].1 == LastValue(fields, name).value;
      assert fields[i] == fields[..k][i];
    }
  }

  /** Without chunks the body has exactly the last content length given, and none without one. */
  lemma SizedRequest(verb: string, target: string, fields: Fields, body: Octets, rest: Octets, lossy: Octets -> string)
    requires RequestOk(verb, target, fields) && ReadsUtf8(lossy) && |HeadOf(verb, target, fields)| <= 64 * 1024
    requires !SaysChunked(fields) && LengthsOk(fields)
    requires var length := LastValue(fields, CONTENT_LENGTH);
             |body|
             == if length.Some? && FromRadix(length.value, 10).Some? then FromRadix(length.value, 10).value else 0
    ensures var r := ReadRequest(HeadOf(verb, target, fields) + (body + rest), lossy);
            if |body| <= 250 * 1024 * 1024 then ReadAs(r, verb, target, fields, body, rest) else r == Err(TooLarge)
    ensures rest == [] && 0 < |body| <= 250 * 1024 * 1024 ==>
              ReadRequest(HeadOf(verb, target, fields) + body[..|body| - 1], lossy) == Err(BadBody(UnexpectedEof))
  {
    HeadAndBody(verb, target, fields, body + rest, lossy);
    HeadAndBody(verb, target, fields, body[..if |body| > 0 then |body| - 1 else 0], lossy);
    FieldsSay(fields);
    if LastValue(fields, CONTENT_LENGTH).Some? {
      LastIsOne(fields, CONTENT_LENGTH);
    }
    assert (body + rest)[..|body|] == body && (body + rest)[|body|..] == rest;
  }

  /** A content length that is no number refuses the request, and so does a request line without a word. */
  lemma HeadRefused(verb: string, target: string, fields: Fields, blank: string, rest: Octets, lossy: Octets -> string)
    requires RequestOk(verb, target, fields) && ReadsUtf8(lossy)
    requires blank != "" && Blank(blank) && OneLine(blank)
    ensures |HeadOf(verb, target, fields)| <= 64 * 1024 && !LengthsOk(fields) ==>
              ReadRequest(HeadOf(verb, target, fields) + rest, lossy) == Err(BadLength)
    ensures var block := HeadBytes([blank] + FieldLines(fields));
            |block| <= 64 * 1024 ==> ReadRequest(block + rest, lossy) == Err(NoMethod)
  {
    HeadAndBody(verb, target, fields, rest, lossy);
    FieldsSay(fields);
    BlankLine(blank, fields, rest, lossy);
  }

  lemma BlankLine(blank: string, fields: Fields, rest: Octets, lossy: Octets -> string)
    requires CleanFields(fields) && ReadsUtf8(lossy) && blank != "" && Blank(blank) && OneLine(blank)
    ensures var block := HeadBytes([blank] + FieldLines(fields));
            |block| <= 64 * 1024 ==> ReadRequest(block + rest, lossy) == Err(NoMethod)
  {
    var lines := [blank] + FieldLines(fields);
    forall i | 0 <= i < |fields|
      ensures FieldLine(fields[i]) != "" && OneLine(FieldLine(fields[i]))
    {
      FieldLineWritable(fields[i]);
    }
    HeadStep(lines);
    BlockReads(lines, rest, 0);
    HeadText(lines, lossy);
    FirstThenRest(blank, FieldLines(fields));
    StartTrimmed(blank, "");
    assert blank + "" == blank;
  }

  /** A request line of one word asks for the root. */
  lemma TargetMissing(verb: string)
    requires verb != "" && Solid(verb)
    ensures Verb(verb) == verb && Target(verb) == "/"
  {
    TrimStartAt(verb);
    WordWhole(verb);
    assert verb[|verb|..] == "";
  }

  lemma {:induction false} WordWhole(word: string)
    requires Solid(word)
    ensures Word(word) == word
  {
    if word != "" {
      WordWhole(word[1..]);
      assert [word[0]] + word[1..] == word;
    }
  }
}
