/** UTF-8 text on the wire: section 3 of RFC 3629. Octets are numbers below 256. */
module Utf8 {
  import opened Wrappers

  type octet = x: nat | x < 256
  type Octets = seq<octet>

  function EncodeChar(c: char): (bytes: Octets)
    ensures 1 <= |bytes| <= 4
  {
    var n := c as nat;
    if n < 0x80 then [n]
    else if n < 0x800 then [0xC0 + n / 64, 0x80 + n % 64]
    else if n < 0x1_0000 then [0xE0 + n / 64 / 64, 0x80 + n / 64 % 64, 0x80 + n % 64]
    else [0xF0 + n / 64 / 64 / 64, 0x80 + n / 64 / 64 % 64, 0x80 + n / 64 % 64, 0x80 + n % 64]
  }

  function Encode(text: string): Octets {
    if text == "" then [] else EncodeChar(text[0]) + Encode(text[1..])
  }

  predicate Continues(bytes: Octets, count: nat) {
    |bytes| > count && forall i :: 1 <= i <= count ==> 0x80 <= bytes[i] < 0xC0
  }

  function Digit(continuation: octet): int {
    continuation as int - 0x80
  }

  /** A code point in its range and outside the surrogates; shorter forms must be used where they fit. */
  function Scalar(value: int, least: nat, count: nat): Option<(char, nat)> {
    if least <= value && (value < 0xD800 || 0xE000 <= value < 0x11_0000) then Some((value as char, count)) else None
  }

  /** The first character and how many bytes it takes. */
  function DecodeChar(bytes: Octets): (r: Option<(char, nat)>)
    requires bytes != []
    ensures r.Some? ==> 1 <= r.value.1 <= |bytes|
  {
    var lead: int := bytes[0];
    if lead < 0x80 then Some((lead as char, 1))
    else if 0xC0 <= lead < 0xE0 && Continues(bytes, 1) then
      Scalar((lead - 0xC0) * 64 + Digit(bytes[1]), 0x80, 2)
    else if 0xE0 <= lead < 0xF0 && Continues(bytes, 2) then
      Scalar(((lead - 0xE0) * 64 + Digit(bytes[1])) * 64 + Digit(bytes[2]), 0x800, 3)
    else if 0xF0 <= lead < 0xF8 && Continues(bytes, 3) then
      Scalar((((lead - 0xF0) * 64 + Digit(bytes[1])) * 64 + Digit(bytes[2])) * 64 + Digit(bytes[3]), 0x1_0000, 4)
    else None
  }

  function Decode(bytes: Octets): Option<string> {
    if bytes == [] then Some("")
    else
      match DecodeChar(bytes)
      case None => None
      case Some((c, count)) =>
        match Decode(bytes[count..])
        case None => None
        case Some(rest) => Some([c] + rest)
  }

  lemma CharRoundTrip(c: char, rest: Octets)
    ensures DecodeChar(EncodeChar(c) + rest) == Some((c, |EncodeChar(c)|))
  {
  }

  /** Every text survives the wire. */
  lemma {:induction false} DecodeEncode(text: string)
    ensures Decode(Encode(text)) == Some(text)
  {
    if text != "" {
      CharRoundTrip(text[0], Encode(text[1..]));
      assert (EncodeChar(text[0]) + Encode(text[1..]))[|EncodeChar(text[0])|..] == Encode(text[1..]);
      DecodeEncode(text[1..]);
      assert text == [text[0]] + text[1..];
    }
  }

  lemma Base64Digits(high: nat, low: nat)
    requires low < 64
    ensures (high * 64 + low) / 64 == high && (high * 64 + low) % 64 == low
  {
  }

  lemma CharExact(bytes: Octets)
    requires bytes != [] && DecodeChar(bytes).Some?
    ensures EncodeChar(DecodeChar(bytes).value.0) == bytes[..DecodeChar(bytes).value.1]
  {
    var (c, count) := DecodeChar(bytes).value;
    var lead: int := bytes[0];
    if count == 2 {
      Base64Digits(lead - 0xC0, Digit(bytes[1]));
    } else if count == 3 {
      var top, second := lead - 0xE0, Digit(bytes[1]);
      Base64Digits(top, second);
      Base64Digits(top * 64 + second, Digit(bytes[2]));
    } else if count == 4 {
      var top, second, third := lead - 0xF0, Digit(bytes[1]), Digit(bytes[2]);
      Base64Digits(top, second);
      Base64Digits(top * 64 + second, third);
      Base64Digits((top * 64 + second) * 64 + third, Digit(bytes[3]));
    }
  }

  /** Decoding takes one exactly encoded character off the front. */
  lemma DecodeStep(bytes: Octets) returns (c: char, tail: Octets)
    requires bytes != [] && Decode(bytes).Some?
    ensures |tail| < |bytes| && bytes == EncodeChar(c) + tail
    ensures Decode(tail).Some? && Decode(bytes).value == [c] + Decode(tail).value
  {
    CharExact(bytes);
    var count := DecodeChar(bytes).value.1;
    c, tail := DecodeChar(bytes).value.0, bytes[count..];
    assert bytes == bytes[..count] + tail;
  }

  lemma EncodeStep(c: char, rest: string)
    ensures Encode([c] + rest) == EncodeChar(c) + Encode(rest)
  {
    assert ([c] + rest)[1..] == rest;
  }

  /** What decodes is exactly what its text encodes to: each text has one encoding. */
  lemma {:induction false} EncodeDecode(bytes: Octets)
    requires Decode(bytes).Some?
    ensures Encode(Decode(bytes).value) == bytes
    decreases |bytes|
  {
    if bytes != [] {
      var c, tail := DecodeStep(bytes);
      EncodeDecode(tail);
      EncodeStep(c, Decode(tail).value);
    }
  }

  /** One character of each length, as section 3 of RFC 3629 lays them out. */
  lemma CharsSpelled()
    ensures EncodeChar('A') == [0x41]
    ensures EncodeChar('\U{E9}') == [0xC3, 0xA9]
    ensures EncodeChar('\U{20AC}') == [0xE2, 0x82, 0xAC]
    ensures EncodeChar('\U{1F600}') == [0xF0, 0x9F, 0x98, 0x80]
  {
  }

  /** The length of an encoding grows with the code point. */
  lemma CharLengths(c: char)
    ensures |EncodeChar(c)|
         == if (c as nat) < 0x80 then 1 else if (c as nat) < 0x800 then 2 else if (c as nat) < 0x1_0000 then 3 else 4
  {
  }
}
