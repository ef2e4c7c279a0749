/** Base64 by hand: section 4 of RFC 4648. */
module Base64 {
  import opened Wrappers
  import opened Utf8

  const U32 := 0x1_0000_0000
  const PAD: octet := 61

  function Letter(digit: nat): octet
    requires digit < 64
  {
    if digit < 26 then 65 + digit
    else if digit < 52 then 97 + (digit - 26)
    else if digit < 62 then 48 + (digit - 52)
    else if digit == 62 then 43
    else 47
  }

  function Digit64(character: octet): (r: Option<nat>)
    ensures r.Some? ==> r.value < 64
  {
    if 65 <= character <= 90 then Some(character - 65)
    else if 97 <= character <= 122 then Some(character - 97 + 26)
    else if 48 <= character <= 57 then Some(character - 48 + 52)
    else if character == 43 then Some(62)
    else if character == 47 then Some(63)
    else None
  }

  // ---- Decoding ----

  /** The bytes so far, the 32-bit accumulator and how many of its low bits are still to be used. */
  datatype Decoder = Decoder(bytes: Octets, buffer: nat, bits: nat)

  function ShiftRight(buffer: nat, bits: nat): nat {
    if bits == 0 then buffer else ShiftRight(buffer / 2, bits - 1)
  }

  /** One alphabet character; shifting left drops what does not fit in 32 bits. */
  function Feed(d: Decoder, digit: nat): Decoder
    requires digit < 64
  {
    var buffer := d.buffer * 64 % U32 + digit;
    var bits := d.bits + 6;
    if bits >= 8 then Decoder(d.bytes + [ShiftRight(buffer, bits - 8) % 256], buffer, bits - 8)
    else Decoder(d.bytes, buffer, bits)
  }

  function FeedAll(d: Decoder, text: Octets): Decoder
    decreases |text|
  {
    if text == [] then d
    else
      match Digit64(text[0])
      case Some(digit) => FeedAll(Feed(d, digit), text[1..])
      case None => FeedAll(d, text[1..])
  }

  function Decode64(text: Octets): Octets {
    FeedAll(Decoder([], 0, 0), text).bytes
  }

  method DecodeBase64(text: Octets) returns (bytes: Octets)
    ensures bytes == Decode64(text)
  {
    bytes := [];
    var buffer: nat, bits: nat, index := 0, 0, 0;
    while index < |text|
      invariant 0 <= index <= |text|
      invariant FeedAll(Decoder([], 0, 0), text) == FeedAll(Decoder(bytes, buffer, bits), text[index..])
    {
      assert text[index..][1..] == text[index + 1..];
      var digit := Digit64(text[index]);
      index := index + 1;
      if digit.None? {
        continue;
      }
      buffer := buffer * 64 % U32 + digit.value;
      bits := bits + 6;
      if bits >= 8 {
        bits := bits - 8;
        bytes := bytes + [ShiftRight(buffer, bits) % 256];
      }
    }
  }

  // ---- Encoding ----

  /** The four characters of a chunk of one to three bytes. */
  function Quad(chunk: Octets): (text: Octets)
    requires 1 <= |chunk| <= 3
    ensures |text| == 4
  {
    var first: nat := chunk[0];
    var second: nat := if |chunk| > 1 then chunk[1] else 0;
    var third: nat := if |chunk| > 2 then chunk[2] else 0;
    [Letter(first / 4), Letter(first % 4 * 16 + second / 16),
     if |chunk| > 1 then Letter(second % 16 * 4 + third / 64) else PAD,
     if |chunk| > 2 then Letter(third % 64) else PAD]
  }

  function Encode64(bytes: Octets): Octets
    decreases |bytes|
  {
    if bytes == [] then []
    else if |bytes| <= 3 then Quad(bytes)
    else Quad(bytes[..3]) + Encode64(bytes[3..])
  }

  method EncodeBase64(bytes: Octets) returns (text: Octets)
    ensures text == Encode64(bytes)
  {
    text := [];
    var index := 0;
    assert bytes[0..] == bytes && [] + Encode64(bytes) == Encode64(bytes);
    while index < |bytes|
      invariant 0 <= index <= |bytes|
      invariant Encode64(bytes) == text + Encode64(bytes[index..])
    {
      var end := if index + 3 < |bytes| then index + 3 else |bytes|;
      var chunk := bytes[index..end];
      EncodeChunk(bytes[index..], chunk, bytes[end..]);
      text := text + Quad(chunk);
      index := end;
    }
    assert text + [] == text;
  }

  lemma EncodeChunk(bytes: Octets, chunk: Octets, rest: Octets)
    requires bytes == chunk + rest && 1 <= |chunk| <= 3 && (rest == [] || |chunk| == 3)
    ensures forall text: Octets :: text + Encode64(bytes) == text + Quad(chunk) + Encode64(rest)
    ensures Encode64(bytes) == Quad(chunk) + Encode64(rest)
  {
    if rest == [] {
      assert bytes == chunk;
      assert Quad(chunk) + [] == Quad(chunk);
    } else {
      assert bytes[..3] == chunk && bytes[3..] == rest;
    }
    forall text: Octets
      ensures text + Encode64(bytes) == text + Quad(chunk) + Encode64(rest)
    {
      assert text + (Quad(chunk) + Encode64(rest)) == text + Quad(chunk) + Encode64(rest);
    }
  }

  // ---- What decoding means ----

  /** The number whose base-`base` digits are `digits`. */
  function Number(digits: seq<nat>, base: nat): nat {
    if digits == [] then 0 else Number(digits[..|digits| - 1], base) * base + digits[|digits| - 1]
  }

  function DigitsOf(text: Octets): seq<nat> {
    if text == [] then []
    else (if Digit64(text[0]).Some? then [Digit64(text[0]).value] else []) + DigitsOf(text[1..])
  }

  function Pow2(n: nat): nat {
    if n == 0 then 1 else 2 * Pow2(n - 1)
  }

  /** The decoder has read `digits`: their bits are its bytes and then its unused low bits. */
  ghost predicate HasRead(d: Decoder, digits: seq<nat>) {
    && d.bits in {0, 2, 4, 6} && 6 * |digits| == 8 * |d.bytes| + d.bits
    && d.buffer < U32
    && Number(digits, 64) == Number(d.bytes, 256) * Pow2(d.bits) + d.buffer % Pow2(d.bits)
  }

  lemma NumberSnoc(digits: seq<nat>, last: nat, base: nat)
    ensures Number(digits + [last], base) == Number(digits, base) * base + last
  {
    assert (digits + [last])[..|digits|] == digits;
  }

  /** Shifting by six keeps the low 26 bits of the accumulator. */
  lemma ShiftKeeps(buffer: nat)
    ensures buffer * 64 % U32 == buffer % 0x400_0000 * 64
  {
    var high, kept := buffer / 0x400_0000, buffer % 0x400_0000;
    assert buffer * 64 == high * U32 + kept * 64;
  }

  lemma LowOfKept(buffer: nat)
    ensures buffer % 0x400_0000 % 4 == buffer % 4
    ensures buffer % 0x400_0000 % 16 == buffer % 16
    ensures buffer % 0x400_0000 % 64 == buffer % 64
  {
    var high, kept := buffer / 0x400_0000, buffer % 0x400_0000;
    assert buffer == high * 0x400_0000 + kept;
    LowUnmoved4(high, kept);
    LowUnmoved16(high, kept);
    LowUnmoved64(high, kept);
  }

  lemma LowUnmoved4(high: nat, kept: nat)
    ensures (high * 0x400_0000 + kept) % 4 == kept % 4
  {
  }

  lemma LowUnmoved16(high: nat, kept: nat)
    ensures (high * 0x400_0000 + kept) % 16 == kept % 16
  {
  }

  lemma LowUnmoved64(high: nat, kept: nat)
    ensures (high * 0x400_0000 + kept) % 64 == kept % 64
  {
  }

  lemma Append4(x: nat, digit: nat)
    requires digit < 64
    ensures (x * 64 + digit) % 64 == digit && (x * 64 + digit) % 256 == x % 4 * 64 + digit
  {
    var high, low := x / 4, x % 4;
    assert x == high * 4 + low;
    assert x * 64 + digit == high * 256 + (low * 64 + digit);
    assert low * 64 + digit < 256;
  }

  lemma Append16(x: nat, digit: nat)
    requires digit < 64
    ensures (x * 64 + digit) % 1024 == x % 16 * 64 + digit
  {
    var high, low := x / 16, x % 16;
    assert x == high * 16 + low;
    assert x * 64 + digit == high * 1024 + (low * 64 + digit);
  }

  lemma Append64(x: nat, digit: nat)
    requires digit < 64
    ensures (x * 64 + digit) % 4096 == x % 64 * 64 + digit
  {
    var high, low := x / 64, x % 64;
    assert x == high * 64 + low;
    assert x * 64 + digit == high * 4096 + (low * 64 + digit);
  }

  /** The low bits of the shifted accumulator are those of the old one and the digit. */
  lemma ShiftedLow(buffer: nat, digit: nat)
    requires digit < 64
    ensures var shifted := buffer * 64 % U32 + digit;
            && shifted < U32
            && shifted % 64 == digit
            && shifted % 256 == buffer % 4 * 64 + digit
            && shifted % 1024 == buffer % 16 * 64 + digit
            && shifted % 4096 == buffer % 64 * 64 + digit
  {
    var kept := buffer % 0x400_0000;
    ShiftKeeps(buffer);
    LowOfKept(buffer);
    Append4(kept, digit);
    Append16(kept, digit);
    Append64(kept, digit);
  }

  lemma HalfTwice(x: nat)
    ensures ShiftRight(x, 0) == x && ShiftRight(x, 2) == x / 4 && ShiftRight(x, 4) == x / 16
  {
    assert ShiftRight(x, 1) == x / 2;
    assert ShiftRight(x, 2) == ShiftRight(x / 2, 1) == x / 2 / 2;
    assert ShiftRight(x, 4) == ShiftRight(x / 2, 3) == ShiftRight(x / 2 / 2, 2) == x / 2 / 2 / 2 / 2;
  }

  lemma SmallPowers()
    ensures Pow2(0) == 1 && Pow2(2) == 4 && Pow2(4) == 16 && Pow2(6) == 64
  {
  }

  lemma Middle4(shifted: nat)
    ensures shifted % 1024 == shifted / 4 % 256 * 4 + shifted % 4
  {
    var top, byte := shifted / 1024, shifted / 4 % 256;
    assert shifted == shifted / 4 * 4 + shifted % 4;
    assert shifted / 4 == shifted / 4 / 256 * 256 + byte;
    assert shifted == shifted / 4 / 256 * 1024 + (byte * 4 + shifted % 4);
  }

  lemma Middle16(shifted: nat)
    ensures shifted % 4096 == shifted / 16 % 256 * 16 + shifted % 16
  {
    var byte := shifted / 16 % 256;
    assert shifted == shifted / 16 * 16 + shifted % 16;
    assert shifted / 16 == shifted / 16 / 256 * 256 + byte;
    assert shifted == shifted / 16 / 256 * 4096 + (byte * 16 + shifted % 16);
  }

  /** The byte taken out of the middle of the accumulator, and what stays below it. */
  lemma MiddleByte(shifted: nat, low: nat, bits: nat)
    requires bits in {0, 2, 4}
    requires bits == 0 ==> low == shifted % 256
    requires bits == 2 ==> low == shifted % 1024
    requires bits == 4 ==> low == shifted % 4096
    ensures low == ShiftRight(shifted, bits) % 256 * Pow2(bits) + shifted % Pow2(bits)
  {
    HalfTwice(shifted);
    SmallPowers();
    if bits == 0 {
      assert shifted % 1 == 0;
    } else if bits == 2 {
      Middle4(shifted);
    } else {
      Middle16(shifted);
    }
  }

  lemma FeedReads(d: Decoder, digits: seq<nat>, digit: nat)
    requires HasRead(d, digits) && digit < 64
    ensures HasRead(Feed(d, digit), digits + [digit])
  {
    NumberSnoc(digits, digit, 64);
    if d.bits == 0 {
      FeedKeeps(d, digit);
    } else {
      FeedEmits(d, digit);
    }
  }

  lemma FeedKeeps(d: Decoder, digit: nat)
    requires d.bits == 0 && digit < 64
    ensures var next := Feed(d, digit);
            && next.bytes == d.bytes && next.bits == 6 && next.buffer < U32
            && next.buffer % Pow2(6) == digit && d.buffer % Pow2(0) == 0
  {
    ShiftedLow(d.buffer, digit);
    SmallPowers();
    assert d.buffer % 1 == 0;
  }

  lemma Bounded(buffer: nat, digit: nat)
    requires digit < 64
    ensures buffer * 64 % U32 + digit < U32
    ensures Pow2(2) > 0 && Pow2(4) > 0 && Pow2(6) > 0 && Pow2(0) > 0
  {
    ShiftedLow(buffer, digit);
    SmallPowers();
  }

  lemma FeedEmits(d: Decoder, digit: nat)
    requires d.bits in {2, 4, 6} && digit < 64
    ensures var next := Feed(d, digit);
            && next.bits == d.bits - 2 && next.buffer < U32 && |next.bytes| == |d.bytes| + 1
            && (Number(d.bytes, 256) * Pow2(d.bits) + d.buffer % Pow2(d.bits)) * 64 + digit
               == Number(next.bytes, 256) * Pow2(next.bits) + next.buffer % Pow2(next.bits)
  {
    var shifted, bits := d.buffer * 64 % U32 + digit, d.bits - 2;
    var byte := ShiftRight(shifted, bits) % 256;
    Bounded(d.buffer, digit);
    LowTaken(d.buffer, d.bits, digit);
    NumberSnoc(d.bytes, byte, 256);
    EmitNumbers(Number(d.bytes, 256), d.bits, d.buffer % Pow2(d.bits), digit, byte, shifted % Pow2(bits));
  }

  /** The unused bits and the new character are the emitted byte and the bits left over. */
  lemma LowTaken(buffer: nat, bits: nat, digit: nat)
    requires bits in {2, 4, 6} && digit < 64
    ensures var shifted := buffer * 64 % U32 + digit;
            && Pow2(bits) > 0 && Pow2(bits - 2) > 0
            && buffer % Pow2(bits) * 64 + digit
               == ShiftRight(shifted, bits - 2) % 256 * Pow2(bits - 2) + shifted % Pow2(bits - 2)
  {
    SmallPowers();
    ShiftedLow(buffer, digit);
    MiddleByte(buffer * 64 % U32 + digit, buffer % Pow2(bits) * 64 + digit, bits - 2);
  }

  lemma EmitNumbers(n: nat, bits: nat, low: nat, digit: nat, byte: nat, rest: nat)
    requires bits in {2, 4, 6} && low * 64 + digit == byte * Pow2(bits - 2) + rest
    ensures (n * Pow2(bits) + low) * 64 + digit == (n * 256 + byte) * Pow2(bits - 2) + rest
  {
    SmallPowers();
  }

  lemma {:induction false} FeedAllReads(d: Decoder, digits: seq<nat>, text: Octets)
    requires HasRead(d, digits)
    ensures HasRead(FeedAll(d, text), digits + DigitsOf(text))
    decreases |text|
  {
    if text == [] {
      assert digits + [] == digits;
    } else {
      var rest := text[1..];
      match Digit64(text[0])
      case Some(digit) =>
        FeedReads(d, digits, digit);
        FeedAllReads(Feed(d, digit), digits + [digit], rest);
        Regroup(digits, digit, DigitsOf(rest));
      case None =>
        FeedAllReads(d, digits, rest);
        assert [] + DigitsOf(rest) == DigitsOf(rest);
    }
  }

  lemma Regroup(a: seq<nat>, b: nat, c: seq<nat>)
    ensures (a + [b]) + c == a + ([b] + c)
  {
  }

  /**
   * Although the accumulator loses its high bits on every shift, the result is exact: the bytes are
   * the whole octets of the number whose base-64 digits are the alphabet characters of the text,
   * with fewer than eight low bits left over; other characters have no effect.
   */
  lemma DecodeMeaning(text: Octets)
    ensures var digits, bytes := DigitsOf(text), Decode64(text);
            var left := 6 * |digits| - 8 * |bytes|;
            && 0 <= left < 8
            && Number(bytes, 256) == Number(digits, 64) / Pow2(left)
  {
    FeedAllReads(Decoder([], 0, 0), [], text);
    assert [] + DigitsOf(text) == DigitsOf(text);
    var d := FeedAll(Decoder([], 0, 0), text);
    SmallPowers();
    Quotient(Number(d.bytes, 256), d.bits, d.buffer % Pow2(d.bits));
  }

  lemma Quotient(n: nat, bits: nat, low: nat)
    requires bits in {0, 2, 4, 6} && low < Pow2(bits)
    ensures Pow2(bits) > 0 && (n * Pow2(bits) + low) / Pow2(bits) == n
  {
    SmallPowers();
  }

  lemma LastOctet(high: nat, low: octet, high': nat, low': octet)
    requires high * 256 + low == high' * 256 + low'
    ensures high == high' && low == low'
  {
  }

  /** Bytes are determined by their number and count, so the meaning above fixes the result. */
  lemma {:induction false} NumberInjective(a: Octets, b: Octets)
    requires |a| == |b| && Number(a, 256) == Number(b, 256)
    ensures a == b
  {
    if a != [] {
      LastOctet(Number(a[..|a| - 1], 256), a[|a| - 1], Number(b[..|b| - 1], 256), b[|b| - 1]);
      NumberInjective(a[..|a| - 1], b[..|b| - 1]);
      assert a == a[..|a| - 1] + [a[|a| - 1]] && b == b[..|b| - 1] + [b[|b| - 1]];
    }
  }

  /** Decoding depends only on the alphabet characters: texts with the same digits decode alike. */
  lemma DecodeIgnoresOthers(a: Octets, b: Octets)
    requires DigitsOf(a) == DigitsOf(b)
    ensures Decode64(a) == Decode64(b)
  {
    DecodeMeaning(a);
    DecodeMeaning(b);
    assert |Decode64(a)| == |Decode64(b)|;
    NumberInjective(Decode64(a), Decode64(b));
  }

  // ---- Round trip ----

  lemma {:induction false} FeedAllConcat(d: Decoder, a: Octets, b: Octets)
    ensures FeedAll(d, a + b) == FeedAll(FeedAll(d, a), b)
    decreases |a|
  {
    if a == [] {
      assert a + b == b;
    } else {
      assert (a + b)[1..] == a[1..] + b;
      match Digit64(a[0])
      case Some(digit) => FeedAllConcat(Feed(d, digit), a[1..], b);
      case None => FeedAllConcat(d, a[1..], b);
    }
  }

  /** Two characters are twelve bits: a byte, and four bits kept. */
  lemma FirstByte(d: Decoder, byte: octet, high: nat)
    requires d.bits == 0 && high < 16
    ensures var d2 := Feed(Feed(d, byte / 4), byte % 4 * 16 + high);
            d2.bytes == d.bytes + [byte] && d2.bits == 4 && d2.buffer % 16 == high
  {
    var a, b := byte / 4, byte % 4 * 16 + high;
    var d1 := Feed(d, a);
    ShiftedLow(d.buffer, a);
    ShiftedLow(d1.buffer, b);
    var shifted := d1.buffer * 64 % U32 + b;
    HalfTwice(shifted);
    assert shifted % 4096 == byte * 16 + high;
    Sixteenth(shifted, byte, high);
  }

  lemma Sixteenth(shifted: nat, byte: octet, high: nat)
    requires shifted % 4096 == byte * 16 + high && high < 16
    ensures shifted / 16 % 256 == byte && shifted % 16 == high
  {
    Middle16(shifted);
  }

  /** Four kept bits and a character: a byte, and two bits kept. */
  lemma SecondByte(d: Decoder, byte: octet, high: nat)
    requires d.bits == 4 && d.buffer % 16 == byte / 16 && high < 4
    ensures var d3 := Feed(d, byte % 16 * 4 + high);
            d3.bytes == d.bytes + [byte] && d3.bits == 2 && d3.buffer % 4 == high
  {
    var c := byte % 16 * 4 + high;
    ShiftedLow(d.buffer, c);
    var shifted := d.buffer * 64 % U32 + c;
    HalfTwice(shifted);
    assert shifted % 1024 == byte * 4 + high;
    Middle4(shifted);
  }

  /** Two kept bits and a character: a byte, and nothing kept. */
  lemma ThirdByte(d: Decoder, byte: octet)
    requires d.bits == 2 && d.buffer % 4 == byte / 64
    ensures var d4 := Feed(d, byte % 64);
            d4.bytes == d.bytes + [byte] && d4.bits == 0
  {
    ShiftedLow(d.buffer, byte % 64);
    HalfTwice(d.buffer * 64 % U32 + byte % 64);
  }

  lemma LetterDigit(digit: nat)
    requires digit < 64
    ensures Digit64(Letter(digit)) == Some(digit) && Digit64(PAD) == None
  {
  }

  lemma FeedOne(d: Decoder, text: Octets)
    requires text != []
    ensures FeedAll(d, text) ==
            FeedAll(if Digit64(text[0]).Some? then Feed(d, Digit64(text[0]).value) else d, text[1..])
  {
  }

  lemma FeedFour(d: Decoder, text: Octets)
    requires |text| == 4 && Digit64(text[0]).Some? && Digit64(text[1]).Some?
    ensures var d2 := Feed(Feed(d, Digit64(text[0]).value), Digit64(text[1]).value);
            var d3 := if Digit64(text[2]).Some? then Feed(d2, Digit64(text[2]).value) else d2;
            FeedAll(d, text) == if Digit64(text[3]).Some? then Feed(d3, Digit64(text[3]).value) else d3
  {
    var d1 := Feed(d, Digit64(text[0]).value);
    var d2 := Feed(d1, Digit64(text[1]).value);
    var d3 := if Digit64(text[2]).Some? then Feed(d2, Digit64(text[2]).value) else d2;
    assert text[1..][1..] == text[2..] && text[2..][1..] == text[3..] && text[3..][1..] == [];
    FeedOne(d, text);
    FeedOne(d1, text[1..]);
    FeedOne(d2, text[2..]);
    FeedOne(d3, text[3..]);
  }

  /** Decoding the characters of a chunk gives its bytes back, whatever the accumulator held. */
  lemma QuadDecodes(d: Decoder, chunk: Octets)
    requires 1 <= |chunk| <= 3 && d.bits == 0
    ensures var after := FeedAll(d, Quad(chunk));
            after.bytes == d.bytes + chunk && (|chunk| == 3 ==> after.bits == 0)
  {
    var first := chunk[0];
    var second: octet := if |chunk| > 1 then chunk[1] else 0;
    var third: octet := if |chunk| > 2 then chunk[2] else 0;
    var a, b, c, e := first / 4, first % 4 * 16 + second / 16, second % 16 * 4 + third / 64, third % 64;
    LetterDigit(a);
    LetterDigit(b);
    LetterDigit(c);
    LetterDigit(e);
    FeedFour(d, Quad(chunk));
    FirstByte(d, first, second / 16);
    var d2 := Feed(Feed(d, a), b);
    if |chunk| > 1 {
      SecondByte(d2, second, third / 64);
      var d3 := Feed(d2, c);
      if |chunk| > 2 {
        ThirdByte(d3, third);
        assert d.bytes + chunk == d.bytes + [chunk[0]] + [chunk[1]] + [chunk[2]];
      } else {
        assert d.bytes + chunk == d.bytes + [chunk[0]] + [chunk[1]];
      }
    } else {
      assert chunk == [chunk[0]];
    }
  }

  lemma {:induction false} DecodeFrom(d: Decoder, bytes: Octets)
    requires d.bits == 0
    ensures FeedAll(d, Encode64(bytes)).bytes == d.bytes + bytes
    decreases |bytes|
  {
    if bytes == [] {
      assert d.bytes + [] == d.bytes;
    } else if |bytes| <= 3 {
      QuadDecodes(d, bytes);
    } else {
      var chunk, rest := bytes[..3], bytes[3..];
      QuadDecodes(d, chunk);
      FeedAllConcat(d, Quad(chunk), Encode64(rest));
      DecodeFrom(FeedAll(d, Quad(chunk)), rest);
      assert d.bytes + chunk + rest == d.bytes + bytes;
    }
  }

  /** Every byte sequence survives encoding and decoding. */
  lemma Base64RoundTrip(bytes: Octets)
    ensures Decode64(Encode64(bytes)) == bytes
  {
    DecodeFrom(Decoder([], 0, 0), bytes);
    assert [] + bytes == bytes;
  }

  // ---- The alphabet ----

  const CAPITALS := "ABCDEFGHIJKLMNOPQRSTUVWXYZ"
  const SMALLS := "abcdefghijklmnopqrstuvwxyz"
  const DIGITS := "0123456789"

  /** The digits of the base, in order: capitals, small letters, numerals, plus and slash. */
  lemma AlphabetSpelled(i: nat)
    ensures i < 26 ==> Letter(i) == CAPITALS[i] as nat
    ensures i < 26 ==> Letter(26 + i) == SMALLS[i] as nat
    ensures i < 10 ==> Letter(52 + i) == DIGITS[i] as nat
    ensures Letter(62) == '+' as nat && Letter(63) == '/' as nat
  {
    if i < 26 {
      CapitalsSpelled(i);
      SmallsSpelled(i);
    }
  }

  lemma CapitalsSpelled(i: nat)
    requires i < 26
    ensures CAPITALS[i] == 'A' + i as char
  {
  }

  lemma SmallsSpelled(i: nat)
    requires i < 26
    ensures SMALLS[i] == 'a' + i as char
  {
  }

  /** Each digit reads back. */
  lemma LetterReads(i: nat)
    requires i < 64
    ensures Digit64(Letter(i)) == Some(i)
  {
  }

  /** No other character carries a digit. */
  lemma OnlyAlphabet(character: octet)
    requires Digit64(character).Some?
    ensures character == Letter(Digit64(character).value)
  {
  }

  /** A short chunk is padded to four characters, and the padding carries nothing. */
  lemma PaddingIs(bytes: Octets)
    requires 1 <= |bytes| <= 3
    ensures |Encode64(bytes)| == 4
    ensures Encode64(bytes)[3] == '=' as nat <==> |bytes| < 3
    ensures Encode64(bytes)[2] == '=' as nat <==> |bytes| < 2
    ensures Digit64('=' as nat) == None
  {
  }
}
