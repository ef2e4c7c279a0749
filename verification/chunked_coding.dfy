/** The chunked transfer coding of section 7.1 of RFC 9112: one writer's form, one reader's grammar. */
module ChunkedCoding {
  import opened Wrappers
  import opened Utf8

  const MAX_HEADERS: nat := 64 * 1024
  const MAX_HTTP_BODY: nat := 250 * 1024 * 1024
  const USIZE: nat := 0x1_0000_0000_0000_0000
  const CRLF: Octets := [13, 10]

  datatype ChunkError =
    | UnexpectedEof | LineTooLong | NotUtf8 | BadSize | BodyTooLarge | TrailersTooLarge | NotTerminated | Broken

  // ---- Lines ----

  predicate EndsLine(bytes: Octets) {
    |bytes| >= 2 && bytes[|bytes| - 2..] == CRLF
  }

  /** Reading one byte at a time, `taken` of them so far: the line without its end, and what follows. */
  function LineFrom(stream: Octets, taken: nat): (r: Result<(Octets, Octets), ChunkError>)
    requires taken <= |stream|
    ensures r.Ok? ==> stream == r.value.0 + CRLF + r.value.1
    decreases |stream| - taken
  {
    if taken == |stream| then Err(UnexpectedEof)
    else if taken + 1 > MAX_HEADERS then Err(LineTooLong)
    else if EndsLine(stream[..taken + 1]) then
      assert stream[..taken + 1] == stream[..taken - 1] + CRLF;
      Ok((stream[..taken - 1], stream[taken + 1..]))
    else LineFrom(stream, taken + 1)
  }

  function ReadLine(stream: Octets): (r: Result<(Octets, Octets), ChunkError>)
    ensures r.Ok? ==> stream == r.value.0 + CRLF + r.value.1
    ensures r.Ok? ==> Decode(r.value.0).Some?
  {
    var (line, rest) :- LineFrom(stream, 0);
    if Decode(line).None? then Err(NotUtf8) else Ok((line, rest))
  }

  /** A line without CR is read whole, if it fits. */
  lemma {:induction false} LineFromPlain(line: Octets, rest: Octets, taken: nat)
    requires 13 !in line && |line| + 2 <= MAX_HEADERS
    requires taken <= |line| + 1
    ensures LineFrom(line + CRLF + rest, taken) == Ok((line, rest))
    decreases |line| + 1 - taken
  {
    var stream := line + CRLF + rest;
    var next := stream[..taken + 1];
    if taken == |line| + 1 {
      assert next == line + CRLF;
      assert stream[..taken - 1] == line && stream[taken + 1..] == rest;
    } else {
      if |next| >= 2 {
        assert next[taken - 1] == line[taken - 1];
        assert next[|next| - 2..][0] == next[taken - 1];
      }
      LineFromPlain(line, rest, taken + 1);
    }
  }

  lemma ReadLinePlain(line: Octets, rest: Octets)
    requires 13 !in line && |line| + 2 <= MAX_HEADERS && Decode(line).Some?
    ensures ReadLine(line + CRLF + rest) == Ok((line, rest))
  {
    LineFromPlain(line, rest, 0);
  }

  /** Cut anywhere before its end, such a line is waited for. */
  lemma {:induction false} LineFromCut(line: Octets, cut: nat, taken: nat)
    requires 13 !in line && |line| + 2 <= MAX_HEADERS
    requires taken <= cut < |line| + 2
    ensures LineFrom((line + CRLF)[..cut], taken) == Err(UnexpectedEof)
    decreases cut - taken
  {
    var stream := (line + CRLF)[..cut];
    if taken < cut {
      var next := stream[..taken + 1];
      if |next| >= 2 {
        assert next[taken - 1] == (line + CRLF)[taken - 1] == line[taken - 1];
        assert next[|next| - 2..][0] == next[taken - 1];
      }
      LineFromCut(line, cut, taken + 1);
    }
  }

  // ---- Chunk sizes ----

  function Digit16(c: char): (r: Option<nat>)
    ensures r.Some? ==> r.value < 16
  {
    if '0' <= c <= '9' then Some((c - '0') as nat)
    else if 'a' <= c <= 'f' then Some((c - 'a') as nat + 10)
    else if 'A' <= c <= 'F' then Some((c - 'A') as nat + 10)
    else None
  }

  /** The number written in a base of at most sixteen. */
  function Value(digits: string, radix: nat): Option<nat> {
    if digits == "" then Some(0)
    else
      var last := |digits| - 1;
      match (Value(digits[..last], radix), Digit16(digits[last]))
      case (Some(high), Some(low)) => if low < radix then Some(high * radix + low) else None
      case _ => None
  }

  /** An unsigned 64-bit number: a plus sign may lead it, and nothing may overflow. */
  function FromRadix(text: string, radix: nat): Option<nat> {
    var digits := if text != "" && text[0] == '+' then text[1..] else text;
    if digits == "" || Value(digits, radix).None? || Value(digits, radix).value >= USIZE then None
    else Value(digits, radix)
  }

  predicate IsWhitespace(c: char) {
    var n := c as nat;
    0x9 <= n <= 0xD || n in {0x20, 0x85, 0xA0, 0x1680, 0x2028, 0x2029, 0x202F, 0x205F, 0x3000} || 0x2000 <= n <= 0x200A
  }

  function TrimStart(text: string): string {
    if text != "" && IsWhitespace(text[0]) then TrimStart(text[1..]) else text
  }

  function Trim(text: string): string
    decreases |text|
  {
    if text != "" && IsWhitespace(text[|text| - 1]) then Trim(text[..|text| - 1]) else TrimStart(text)
  }

  function BeforeExtensions(text: string): string {
    if text == "" || text[0] == ';' then "" else [text[0]] + BeforeExtensions(text[1..])
  }

  function ChunkSize(line: Octets): Option<nat>
    requires Decode(line).Some?
  {
    FromRadix(Trim(BeforeExtensions(Decode(line).value)), 16)
  }

  // ---- Reading a body ----

  /** Trailer lines up to the empty one, `taken` bytes of them so far; what follows. */
  function Trailers(stream: Octets, taken: nat): (r: Result<Octets, ChunkError>)
    ensures r.Ok? ==> |r.value| < |stream|
    decreases |stream|
  {
    var (line, rest) :- ReadLine(stream);
    if taken + |line| + 2 > MAX_HEADERS then Err(TrailersTooLarge)
    else if line == [] then Ok(rest)
    else Trailers(rest, taken + |line| + 2)
  }

  predicate Over(length: nat, limit: Option<nat>) {
    limit.Some? && length > limit.value
  }

  /** What follows a chunk of `size` bytes and the line end that must close it. */
  function AfterChunk(stream: Octets, size: nat): (r: Result<Octets, ChunkError>)
    ensures r.Ok? ==> size + 2 <= |stream| && stream == stream[..size] + CRLF + r.value
  {
    if |stream| < size + 2 then Err(UnexpectedEof)
    else if stream[size..size + 2] != CRLF then Err(NotTerminated)
    else Ok(stream[size + 2..])
  }

  /** The whole body, given the part decoded so far, and what follows it. */
  function ReadBody(stream: Octets, body: Octets, limit: Option<nat>): Result<(Octets, Octets), ChunkError>
    decreases |stream|
  {
    var (line, rest) :- ReadLine(stream);
    match ChunkSize(line)
    case None => Err(BadSize)
    case Some(size) =>
      if size == 0 then
        var after :- Trailers(rest, 0);
        Ok((body, after))
      else if Over(|body| + size, limit) then Err(BodyTooLarge)
      else
        var after :- AfterChunk(rest, size);
        ReadBody(after, body + rest[..size], limit)
  }

  // ---- Writing a body ----

  function DigitChar(low: nat): (c: char)
    requires low < 16
    ensures Digit16(c) == Some(low)
  {
    if low < 10 then '0' + low as char else 'A' + (low - 10) as char
  }

  /** A number without leading zeros, letters in upper case. */
  function Numeral(n: nat, radix: nat): (text: string)
    requires 2 <= radix <= 16
    ensures text != ""
  {
    if n < radix then [DigitChar(n)] else Numeral(n / radix, radix) + [DigitChar(n % radix)]
  }

  function Hex(n: nat): string {
    Numeral(n, 16)
  }

  const LAST_CHUNK: Octets := [48, 13, 10, 13, 10]

  function EncodeChunk(chunk: Octets): Octets {
    Encode(Hex(|chunk|)) + CRLF + chunk + CRLF
  }

  function EncodeChunks(chunks: seq<Octets>): Octets {
    if chunks == [] then [] else EncodeChunk(chunks[0]) + EncodeChunks(chunks[1..])
  }

  function Concat(chunks: seq<Octets>): Octets {
    if chunks == [] then [] else chunks[0] + Concat(chunks[1..])
  }

  /** What the writer may send: no empty chunk, which would end the body, and no length past the word. */
  predicate Writable(chunks: seq<Octets>) {
    forall i :: 0 <= i < |chunks| ==> 0 < |chunks[i]| < USIZE
  }

  lemma {:induction false} EncodeChunksSnoc(chunks: seq<Octets>, last: Octets)
    ensures EncodeChunks(chunks + [last]) == EncodeChunks(chunks) + EncodeChunk(last)
    ensures Concat(chunks + [last]) == Concat(chunks) + last
    decreases chunks
  {
    if chunks == [] {
      assert chunks + [last] == [last] && [last][1..] == [];
      assert [] + EncodeChunk(last) == EncodeChunk(last) + [];
    } else {
      assert (chunks + [last])[0] == chunks[0] && (chunks + [last])[1..] == chunks[1..] + [last];
      EncodeChunksSnoc(chunks[1..], last);
      Associate(EncodeChunk(chunks[0]), EncodeChunks(chunks[1..]), EncodeChunk(last));
      Associate(chunks[0], Concat(chunks[1..]), last);
    }
  }

  // ---- The size line reads back ----

  predicate Plain16(text: string) {
    forall i :: 0 <= i < |text| ==> Digit16(text[i]).Some?
  }

  lemma ValueSnoc(digits: string, radix: nat, high: nat, low: nat, n: nat)
    requires Value(digits, radix) == Some(high) && low < radix <= 16 && n == high * radix + low
    ensures Value(digits + [DigitChar(low)], radix) == Some(n)
  {
    assert (digits + [DigitChar(low)])[..|digits|] == digits;
  }

  lemma Division(n: nat, radix: nat)
    requires 2 <= radix <= n
    ensures n == n / radix * radix + n % radix && n % radix < radix && n / radix < n
  {
  }

  lemma {:induction false} NumeralReads(n: nat, radix: nat)
    requires 2 <= radix <= 16
    ensures Plain16(Numeral(n, radix)) && Value(Numeral(n, radix), radix) == Some(n)
  {
    if n < radix {
      assert Value("", radix) == Some(0);
      ValueSnoc("", radix, 0, n, n);
      assert "" + [DigitChar(n)] == Numeral(n, radix);
    } else {
      var high, low := n / radix, n % radix;
      Division(n, radix);
      NumeralReads(high, radix);
      ValueSnoc(Numeral(high, radix), radix, high, low, n);
      assert Numeral(n, radix) == Numeral(high, radix) + [DigitChar(low)];
    }
  }

  lemma {:induction false} HexLength(n: nat, digits: nat, bound: nat)
    requires n < bound && Bound16(digits) == bound && digits > 0
    ensures |Hex(n)| <= digits
    decreases digits
  {
    if n >= 16 {
      assert bound == 16 * Bound16(digits - 1);
      assert digits > 1;
      HexLength(n / 16, digits - 1, Bound16(digits - 1));
    }
  }

  function Bound16(digits: nat): nat {
    if digits == 0 then 1 else 16 * Bound16(digits - 1)
  }

  lemma Plain16Untouched(text: string)
    requires Plain16(text) && text != ""
    ensures BeforeExtensions(text) == text && Trim(text) == text && text[0] != '+'
  {
    BeforeExtensionsPlain(text);
    assert Digit16(text[0]).Some? && Digit16(text[|text| - 1]).Some?;
  }

  lemma {:induction false} BeforeExtensionsPlain(text: string)
    requires Plain16(text)
    ensures BeforeExtensions(text) == text
  {
    if text != "" {
      assert Digit16(text[0]).Some?;
      assert forall i :: 0 <= i < |text| - 1 ==> text[1..][i] == text[i + 1];
      BeforeExtensionsPlain(text[1..]);
    }
  }

  lemma {:induction false} EncodePlain(text: string)
    requires Plain16(text)
    ensures |Encode(text)| == |text| && forall i :: 0 <= i < |text| ==> Encode(text)[i] == text[i] as nat
  {
    if text != "" {
      assert Digit16(text[0]).Some?;
      assert forall i :: 0 <= i < |text| - 1 ==> text[1..][i] == text[i + 1];
      EncodePlain(text[1..]);
    }
  }

  lemma HexWidth(n: nat)
    requires n < USIZE
    ensures |Hex(n)| <= 16
  {
    assert Bound16(16) == USIZE by {
      assert Bound16(4) == 0x1_0000;
      assert Bound16(8) == 0x1_0000_0000;
      assert Bound16(12) == 0x1_0000_0000_0000;
    }
    HexLength(n, 16, USIZE);
  }

  lemma NoReturn(text: string)
    requires Plain16(text)
    ensures 13 !in Encode(text)
  {
    EncodePlain(text);
    forall i | 0 <= i < |text|
      ensures Encode(text)[i] != 13
    {
      assert Digit16(text[i]).Some?;
    }
  }

  lemma SizeOfPlain(text: string, n: nat)
    requires Plain16(text) && text != "" && Value(text, 16) == Some(n) && n < USIZE
    ensures Decode(Encode(text)) == Some(text) && ChunkSize(Encode(text)) == Some(n)
  {
    DecodeEncode(text);
    Plain16Untouched(text);
  }

  /** A written size line is read as that size. */
  lemma SizeLine(n: nat)
    requires n < USIZE
    ensures var line := Encode(Hex(n));
            13 !in line && |line| <= 16 && Decode(line).Some? && ChunkSize(line) == Some(n)
  {
    NumeralReads(n, 16);
    HexWidth(n);
    EncodePlain(Hex(n));
    NoReturn(Hex(n));
    SizeOfPlain(Hex(n), n);
  }

  lemma LastLines(rest: Octets)
    ensures ReadLine(LAST_CHUNK + rest) == Ok(([48], CRLF + rest))
    ensures Decode([48]).Some? && ChunkSize([48]) == Some(0)
    ensures Trailers(CRLF + rest, 0) == Ok(rest)
  {
    assert Hex(0) == "0" && Encode("0") == EncodeChar('0') + Encode("") == [48];
    SizeLine(0);
    assert LAST_CHUNK + rest == [48] + CRLF + (CRLF + rest);
    ReadLinePlain([48], CRLF + rest);
    assert CRLF + rest == [] + CRLF + rest;
    ReadLinePlain([], rest);
  }

  // ---- Round trip ----

  lemma ReadOneChunk(chunk: Octets, rest: Octets, body: Octets, limit: Option<nat>)
    requires 0 < |chunk| < USIZE
    ensures ReadBody(EncodeChunk(chunk) + rest, body, limit)
         == if Over(|body| + |chunk|, limit) then Err(BodyTooLarge) else ReadBody(rest, body + chunk, limit)
  {
    var line, size := Encode(Hex(|chunk|)), |chunk|;
    SizeLine(size);
    var after := chunk + CRLF + rest;
    assert EncodeChunk(chunk) + rest == line + CRLF + after;
    ReadLinePlain(line, after);
    assert after[..size] == chunk && after[size..size + 2] == CRLF && after[size + 2..] == rest;
  }

  lemma {:induction false} ReadChunks(chunks: seq<Octets>, rest: Octets, body: Octets, limit: Option<nat>)
    requires Writable(chunks) && !Over(|body| + |Concat(chunks)|, limit)
    ensures ReadBody(EncodeChunks(chunks) + rest, body, limit) == ReadBody(rest, body + Concat(chunks), limit)
    decreases |chunks|
  {
    if chunks == [] {
      assert EncodeChunks(chunks) + rest == rest && body + Concat(chunks) == body;
    } else {
      var chunk, others := chunks[0], chunks[1..];
      ReadOneChunk(chunk, EncodeChunks(others) + rest, body, limit);
      ReadChunks(others, rest, body + chunk, limit);
      Associate(EncodeChunk(chunk), EncodeChunks(others), rest);
      Associate(body, chunk, Concat(others));
    }
  }

  lemma {:induction false} RefuseChunks(chunks: seq<Octets>, rest: Octets, body: Octets, limit: Option<nat>)
    requires Writable(chunks) && !Over(|body|, limit) && Over(|body| + |Concat(chunks)|, limit)
    ensures ReadBody(EncodeChunks(chunks) + rest, body, limit) == Err(BodyTooLarge)
    decreases |chunks|
  {
    var chunk, others := chunks[0], chunks[1..];
    ReadOneChunk(chunk, EncodeChunks(others) + rest, body, limit);
    if !Over(|body| + |chunk|, limit) {
      RefuseChunks(others, rest, body + chunk, limit);
    }
    Associate(EncodeChunk(chunk), EncodeChunks(others), rest);
  }

  lemma Associate(a: Octets, b: Octets, c: Octets)
    ensures (a + b) + c == a + (b + c)
  {
  }

  /**
   * Whatever chunks the writer sends, the reader recovers their concatenation and stops exactly at
   * the end of the body; a body over the limit, and only that, is refused.
   */
  lemma ChunkedRoundTrip(chunks: seq<Octets>, rest: Octets, limit: Option<nat>)
    requires Writable(chunks)
    ensures ReadBody(EncodeChunks(chunks) + LAST_CHUNK + rest, [], limit)
         == if Over(|Concat(chunks)|, limit) then Err(BodyTooLarge) else Ok((Concat(chunks), rest))
  {
    Associate(EncodeChunks(chunks), LAST_CHUNK, rest);
    if Over(|Concat(chunks)|, limit) {
      RefuseChunks(chunks, LAST_CHUNK + rest, [], limit);
    } else {
      ReadChunks(chunks, LAST_CHUNK + rest, [], limit);
      LastLines(rest);
      assert [] + Concat(chunks) == Concat(chunks);
    }
  }

  // ---- A cut body is incomplete ----

  lemma CutChunk(chunk: Octets, cut: nat, body: Octets, limit: Option<nat>)
    requires 0 < |chunk| < USIZE && cut < |EncodeChunk(chunk)| && !Over(|body| + |chunk|, limit)
    ensures ReadBody(EncodeChunk(chunk)[..cut], body, limit) == Err(UnexpectedEof)
  {
    var line, whole := Encode(Hex(|chunk|)), EncodeChunk(chunk);
    SizeLine(|chunk|);
    if cut < |line| + 2 {
      assert whole[..cut] == (line + CRLF)[..cut];
      LineFromCut(line, cut, 0);
    } else {
      var after := whole[|line| + 2..cut];
      assert whole[..cut] == line + CRLF + after;
      ReadLinePlain(line, after);
    }
  }

  lemma CutLast(cut: nat, body: Octets, limit: Option<nat>)
    requires cut < 5
    ensures ReadBody(LAST_CHUNK[..cut], body, limit) == Err(UnexpectedEof)
  {
    LastLines([]);
    if cut < 3 {
      assert LAST_CHUNK[..cut] == ([48] + CRLF)[..cut];
      LineFromCut([48], cut, 0);
    } else {
      var after := LAST_CHUNK[3..cut];
      assert LAST_CHUNK[..cut] == [48] + CRLF + after;
      ReadLinePlain([48], after);
      assert after == ([] + CRLF)[..cut - 3];
      LineFromCut([], cut - 3, 0);
    }
  }

  /** Every proper prefix of a written body is read as cut short, never as a shorter body. */
  lemma {:induction false} CutIsIncomplete(chunks: seq<Octets>, cut: nat, body: Octets, limit: Option<nat>)
    requires Writable(chunks) && !Over(|body| + |Concat(chunks)|, limit)
    requires cut < |EncodeChunks(chunks) + LAST_CHUNK|
    ensures ReadBody((EncodeChunks(chunks) + LAST_CHUNK)[..cut], body, limit) == Err(UnexpectedEof)
    decreases chunks
  {
    var whole := EncodeChunks(chunks) + LAST_CHUNK;
    if chunks == [] {
      assert whole == LAST_CHUNK;
      CutLast(cut, body, limit);
    } else {
      var first, others := EncodeChunk(chunks[0]), chunks[1..];
      assert whole == first + (EncodeChunks(others) + LAST_CHUNK);
      if cut < |first| {
        assert whole[..cut] == first[..cut];
        CutChunk(chunks[0], cut, body, limit);
      } else {
        var after := (EncodeChunks(others) + LAST_CHUNK)[..cut - |first|];
        assert whole[..cut] == first + after;
        ReadOneChunk(chunks[0], after, body, limit);
        CutIsIncomplete(others, cut - |first|, body + chunks[0], limit);
      }
    }
  }

  // ---- The two readers ----

  /** A limited reader differs from an unlimited one only by refusing bodies over its limit. */
  lemma {:induction false} LimitOnly(stream: Octets, body: Octets, limit: nat)
    requires |body| <= limit
    ensures var limited, free := ReadBody(stream, body, Some(limit)), ReadBody(stream, body, None);
            && (limited.Ok? <==> free.Ok? && |free.value.0| <= limit)
            && (limited.Ok? || (limited.Err? && limited.error != BodyTooLarge) ==> limited == free)
            && (free.Ok? && |free.value.0| > limit ==> limited == Err(BodyTooLarge))
    ensures var free := ReadBody(stream, body, None);
            free.Ok? ==> |body| <= |free.value.0|
    decreases |stream|
  {
    var line := ReadLine(stream);
    if line.Ok? && ChunkSize(line.value.0).Some? {
      var rest, size := line.value.1, ChunkSize(line.value.0).value;
      if size > 0 && AfterChunk(rest, size).Ok? {
        if |body| + size <= limit {
          LimitOnly(rest[size + 2..], body + rest[..size], limit);
        } else {
          Grows(rest[size + 2..], body + rest[..size]);
        }
      }
    }
  }

  lemma {:induction false} Grows(stream: Octets, body: Octets)
    ensures var free := ReadBody(stream, body, None);
            free.Ok? ==> body <= free.value.0
    decreases |stream|
  {
    var line := ReadLine(stream);
    if line.Ok? && ChunkSize(line.value.0).Some? {
      var rest, size := line.value.1, ChunkSize(line.value.0).value;
      if size > 0 && AfterChunk(rest, size).Ok? {
        Grows(rest[size + 2..], body + rest[..size]);
      }
    }
  }
}
