/** Chunked bodies as any peer may write them: section 7.1 of RFC 9112 in full, with extensions and trailers. */
module ChunkedGrammar {
  import opened Wrappers
  import opened Utf8
  import opened ChunkedCoding
  import opened HttpText

  // ---- Digits ----

  const LOWER_DIGITS := "0123456789abcdef"
  const UPPER_DIGITS := "0123456789ABCDEF"

  /** The sixteen digits in either case, and nothing else, have the values of their places. */
  lemma DigitsSpelled(i: nat)
    requires i < 16
    ensures Digit16(LOWER_DIGITS[i]) == Some(i) && Digit16(UPPER_DIGITS[i]) == Some(i)
    ensures DigitChar(i) == UPPER_DIGITS[i]
  {
  }

  lemma OnlyDigits(c: char)
    requires Digit16(c).Some?
    ensures c == LOWER_DIGITS[Digit16(c).value] || c == UPPER_DIGITS[Digit16(c).value]
  {
  }

  /** A number is its first digits times the base and its last digit. */
  lemma ValueIsPositional(digits: string, last: char, radix: nat)
    requires 2 <= radix <= 16 && Digit16(last).Some? && Digit16(last).value < radix && Value(digits, radix).Some?
    ensures Value("", radix) == Some(0)
    ensures Value(digits + [last], radix) == Some(Value(digits, radix).value * radix + Digit16(last).value)
  {
    assert (digits + [last])[..|digits|] == digits;
  }

  /** What is no number, or no number of the machine: no digits, a foreign character, an overflow. */
  lemma RadixOutcome(text: string, radix: nat)
    requires text == "" || text[0] != '+'
    ensures FromRadix("", radix) == None && FromRadix("+", radix) == None
    ensures FromRadix(['+'] + text, radix) == FromRadix(text, radix)
    ensures text != "" ==>
              FromRadix(text, radix)
              == if Value(text, radix).Some? && Value(text, radix).value < 0x1_0000_0000_0000_0000
                 then Value(text, radix) else None
  {
    assert (['+'] + text)[1..] == text && "+"[1..] == "";
  }

  // ---- Size lines ----

  predicate Extension(text: string) {
    text == "" || text[0] == ';'
  }

  predicate NoCr(text: string) {
    forall i :: 0 <= i < |text| ==> text[i] != '\r'
  }

  lemma {:induction false} ExtensionDropped(size: string, extension: string)
    requires Plain16(size) && Extension(extension)
    ensures BeforeExtensions(size + extension) == size
    decreases |size|
  {
    if size == "" {
      assert size + extension == extension;
    } else {
      assert Digit16(size[0]).Some?;
      assert (size + extension)[0] == size[0] && (size + extension)[1..] == size[1..] + extension;
      assert forall i :: 0 <= i < |size| - 1 ==> size[1..][i] == size[i + 1];
      ExtensionDropped(size[1..], extension);
    }
  }

  lemma {:induction false} NoCrBytes(text: string)
    requires NoCr(text)
    ensures 13 !in Encode(text)
  {
    if text != "" {
      assert forall i :: 0 <= i < |text| - 1 ==> text[1..][i] == text[i + 1];
      NoCrBytes(text[1..]);
      assert text[0] as nat != 13;
    }
  }

  lemma PlainNoCr(size: string, extension: string)
    requires Plain16(size) && NoCr(extension)
    ensures NoCr(size + extension)
  {
    forall i | 0 <= i < |size + extension|
      ensures (size + extension)[i] != '\r'
    {
      if i < |size| {
        assert Digit16(size[i]).Some?;
      }
    }
  }

  /** A size in any spelling, with leading zeros and either case, and any extension behind it. */
  predicate SizeText(size: string, extension: string, n: nat) {
    && size != "" && Plain16(size) && Value(size, 16) == Some(n) && n < USIZE
    && Extension(extension) && NoCr(extension) && |Encode(size + extension)| + 2 <= MAX_HEADERS
  }

  lemma SizeLineReads(size: string, extension: string, n: nat, rest: Octets)
    requires SizeText(size, extension, n)
    ensures var line := Encode(size + extension);
            ReadLine(line + CRLF + rest) == Ok((line, rest)) && Decode(line).Some? && ChunkSize(line) == Some(n)
  {
    var text := size + extension;
    PlainNoCr(size, extension);
    NoCrBytes(text);
    DecodeEncode(text);
    ReadLinePlain(Encode(text), rest);
    ExtensionDropped(size, extension);
    Plain16Untouched(size);
  }

  // ---- Bodies ----

  datatype Piece = Piece(size: string, extension: string, data: Octets)

  predicate PieceOk(piece: Piece) {
    piece.data != [] && SizeText(piece.size, piece.extension, |piece.data|)
  }

  predicate PiecesOk(pieces: seq<Piece>) {
    forall i :: 0 <= i < |pieces| ==> PieceOk(pieces[i])
  }

  function PieceBytes(piece: Piece): Octets {
    Encode(piece.size + piece.extension) + CRLF + (piece.data + CRLF)
  }

  function AllBytes(pieces: seq<Piece>): Octets {
    if pieces == [] then [] else PieceBytes(pieces[0]) + AllBytes(pieces[1..])
  }

  function Data(pieces: seq<Piece>): Octets {
    if pieces == [] then [] else pieces[0].data + Data(pieces[1..])
  }

  lemma PieceReads(piece: Piece, rest: Octets, body: Octets, limit: Option<nat>)
    requires PieceOk(piece)
    ensures ReadBody(PieceBytes(piece) + rest, body, limit)
         == if Over(|body| + |piece.data|, limit) then Err(BodyTooLarge) else ReadBody(rest, body + piece.data, limit)
  {
    var line, after := Encode(piece.size + piece.extension), piece.data + CRLF + rest;
    SizeLineReads(piece.size, piece.extension, |piece.data|, after);
    assert PieceBytes(piece) + rest == line + CRLF + after;
    var size := |piece.data|;
    assert after[..size] == piece.data && after[size..size + 2] == CRLF && after[size + 2..] == rest;
  }

  lemma FirstReads(pieces: seq<Piece>, rest: Octets, body: Octets, limit: Option<nat>)
    requires pieces != [] && PieceOk(pieces[0])
    ensures ReadBody(AllBytes(pieces) + rest, body, limit)
         == if Over(|body| + |pieces[0].data|, limit) then Err(BodyTooLarge)
            else ReadBody(AllBytes(pieces[1..]) + rest, body + pieces[0].data, limit)
  {
    PieceReads(pieces[0], AllBytes(pieces[1..]) + rest, body, limit);
    Associate(PieceBytes(pieces[0]), AllBytes(pieces[1..]), rest);
  }

  lemma {:induction false} PiecesRead(pieces: seq<Piece>, rest: Octets, body: Octets, limit: Option<nat>)
    requires PiecesOk(pieces) && !Over(|body| + |Data(pieces)|, limit)
    ensures ReadBody(AllBytes(pieces) + rest, body, limit) == ReadBody(rest, body + Data(pieces), limit)
    decreases |pieces|
  {
    if pieces == [] {
      assert AllBytes(pieces) + rest == rest && body + Data(pieces) == body;
    } else {
      FirstReads(pieces, rest, body, limit);
      PiecesRead(pieces[1..], rest, body + pieces[0].data, limit);
      Associate(body, pieces[0].data, Data(pieces[1..]));
    }
  }

  // ---- Trailers ----

  predicate TrailerLines(lines: seq<string>) {
    forall i :: 0 <= i < |lines| ==> lines[i] != "" && NoCr(lines[i]) && |Encode(lines[i])| + 2 <= MAX_HEADERS
  }

  function TrailerBytes(lines: seq<string>): Octets {
    if lines == [] then [] else Encode(lines[0]) + CRLF + TrailerBytes(lines[1..])
  }

  lemma TextLineReads(line: string, rest: Octets)
    requires NoCr(line) && |Encode(line)| + 2 <= MAX_HEADERS
    ensures ReadLine(Encode(line) + CRLF + rest) == Ok((Encode(line), rest))
  {
    NoCrBytes(line);
    DecodeEncode(line);
    ReadLinePlain(Encode(line), rest);
  }

  /** Trailers are skipped up to the empty line, unless together with it they are over the limit of a header block. */
  lemma {:induction false} TrailersSkipped(lines: seq<string>, rest: Octets, taken: nat)
    requires TrailerLines(lines)
    ensures Trailers(TrailerBytes(lines) + CRLF + rest, taken)
         == if taken + |TrailerBytes(lines)| + 2 > 64 * 1024 then Err(TrailersTooLarge) else Ok(rest)
    decreases |lines|
  {
    if lines == [] {
      assert TrailerBytes(lines) + CRLF + rest == Encode("") + CRLF + rest;
      TextLineReads("", rest);
    } else {
      var line, others := lines[0], lines[1..];
      var after := TrailerBytes(others) + CRLF + rest;
      assert TrailerBytes(lines) + CRLF + rest == Encode(line) + CRLF + after;
      TextLineReads(line, after);
      TrailersSkipped(others, rest, taken + |Encode(line)| + 2);
    }
  }

  lemma EndReads(zero: string, extension: string, trailers: seq<string>, rest: Octets, body: Octets, limit: Option<nat>)
    requires SizeText(zero, extension, 0) && TrailerLines(trailers)
    ensures ReadBody(Encode(zero + extension) + CRLF + (TrailerBytes(trailers) + CRLF) + rest, body, limit)
         == if |TrailerBytes(trailers)| + 2 > 64 * 1024 then Err(TrailersTooLarge) else Ok((body, rest))
  {
    var line, after := Encode(zero + extension), TrailerBytes(trailers) + CRLF + rest;
    SizeLineReads(zero, extension, 0, after);
    Associate(line + CRLF, TrailerBytes(trailers) + CRLF, rest);
    TrailersSkipped(trailers, rest, 0);
  }

  /** A body in the grammar: its pieces, a size of zero in any spelling, and the trailers. */
  function BodyBytes(pieces: seq<Piece>, zero: string, extension: string, trailers: seq<string>): Octets {
    AllBytes(pieces) + (Encode(zero + extension) + CRLF + (TrailerBytes(trailers) + CRLF))
  }

  /**
   * Every body of the grammar is read to its data and leaves exactly what follows it; one over the
   * limit, or with trailers over theirs, is refused for that.
   */
  lemma GrammarRead(pieces: seq<Piece>, zero: string, extension: string, trailers: seq<string>, rest: Octets,
                    limit: Option<nat>)
    requires PiecesOk(pieces) && SizeText(zero, extension, 0) && TrailerLines(trailers)
    ensures ReadBody(BodyBytes(pieces, zero, extension, trailers) + rest, [], limit)
         == if Over(|Data(pieces)|, limit) then Err(BodyTooLarge)
            else if |TrailerBytes(trailers)| + 2 > 64 * 1024 then Err(TrailersTooLarge)
            else Ok((Data(pieces), rest))
  {
    var end := Encode(zero + extension) + CRLF + (TrailerBytes(trailers) + CRLF);
    Associate(AllBytes(pieces), end, rest);
    if Over(|Data(pieces)|, limit) {
      PiecesRefused(pieces, end + rest, [], limit);
    } else {
      PiecesRead(pieces, end + rest, [], limit);
      assert [] + Data(pieces) == Data(pieces);
      EndReads(zero, extension, trailers, rest, Data(pieces), limit);
    }
  }

  lemma {:induction false} PiecesRefused(pieces: seq<Piece>, rest: Octets, body: Octets, limit: Option<nat>)
    requires PiecesOk(pieces) && !Over(|body|, limit) && Over(|body| + |Data(pieces)|, limit)
    ensures ReadBody(AllBytes(pieces) + rest, body, limit) == Err(BodyTooLarge)
    decreases |pieces|
  {
    FirstReads(pieces, rest, body, limit);
    if !Over(|body| + |pieces[0].data|, limit) {
      PiecesRefused(pieces[1..], rest, body + pieces[0].data, limit);
    }
  }

  // ---- Defects ----

  /** A chunk must be closed by a line end right behind its data. */
  lemma ChunkNotClosed(size: string, extension: string, data: Octets, after: Octets, body: Octets, limit: Option<nat>)
    requires data != [] && SizeText(size, extension, |data|) && !Over(|body| + |data|, limit)
    requires |after| >= 2 && after[..2] != CRLF
    ensures ReadBody(Encode(size + extension) + CRLF + (data + after), body, limit) == Err(NotTerminated)
  {
    SizeLineReads(size, extension, |data|, data + after);
    assert (data + after)[|data|..|data| + 2] == after[..2];
  }

  /** A size line that is no number is refused. */
  lemma SizeNotRead(line: string, rest: Octets, body: Octets, limit: Option<nat>)
    requires NoCr(line) && |Encode(line)| + 2 <= MAX_HEADERS
    requires FromRadix(Trim(BeforeExtensions(line)), 16).None?
    ensures ReadBody(Encode(line) + CRLF + rest, body, limit) == Err(BadSize)
  {
    TextLineReads(line, rest);
    DecodeEncode(line);
  }

  /** A line that has not ended after 65536 bytes is refused as too long. */
  lemma {:induction false} LineRefused(stream: Octets, taken: nat)
    requires |stream| > 64 * 1024 && taken <= 64 * 1024
    requires forall i :: 0 <= i <= 64 * 1024 ==> stream[i] != 13
    ensures LineFrom(stream, taken) == Err(LineTooLong)
    decreases 64 * 1024 - taken
  {
    if taken < 64 * 1024 {
      var next := stream[..taken + 1];
      if |next| >= 2 {
        assert next[|next| - 2..][0] == stream[taken - 1];
      }
      LineRefused(stream, taken + 1);
    }
  }
}
