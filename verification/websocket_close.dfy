/** Close payloads: section 5.5.1 of RFC 6455. */
module WebSocketClose {
  import opened Wrappers
  import opened WebSocketFrames
  import opened Utf8

  datatype CloseError = TooShort | InvalidCode | InvalidReason | ReasonTooLong

  function ToOctets(bytes: seq<bv8>): Octets {
    seq(|bytes|, i requires 0 <= i < |bytes| => bytes[i] as nat)
  }

  function FromOctets(octets: Octets): seq<bv8> {
    seq(|octets|, i requires 0 <= i < |octets| => LowByte(octets[i]))
  }

  predicate ValidCloseCode(code: nat) {
    1000 <= code <= 1003 || 1007 <= code <= 1014 || 3000 <= code <= 4999
  }

  function ParseClose(payload: seq<bv8>): Result<(nat, string), CloseError> {
    if payload == [] then Ok((1000, ""))
    else if |payload| == 1 then Err(TooShort)
    else if !ValidCloseCode(BigEndian(payload[..2])) then Err(InvalidCode)
    else
      match Decode(ToOctets(payload[2..]))
      case None => Err(InvalidReason)
      case Some(reason) => Ok((BigEndian(payload[..2]), reason))
  }

  function ClosePayload(code: nat, reason: string): Result<seq<bv8>, CloseError> {
    if !ValidCloseCode(code) then Err(InvalidCode)
    else if |Encode(reason)| > 123 then Err(ReasonTooLong)
    else Ok(ToBigEndian(code, 2) + FromOctets(Encode(reason)))
  }

  lemma Small(n: nat)
    requires n < 256
    ensures n % 256 == n
  {
  }

  lemma ByteBack(b: bv8)
    ensures LowByte(b as nat) == b
  {
    var n: nat := b as nat;
    var c := LowByte(n);
    Small(n);
    ByteNumbers(c, b);
  }

  lemma ByteNumbers(a: bv8, b: bv8)
    requires a as nat == b as nat
    ensures a == b
  {
  }

  lemma OctetsBack(octets: Octets)
    ensures ToOctets(FromOctets(octets)) == octets
  {
  }

  lemma BytesBack(bytes: seq<bv8>)
    ensures FromOctets(ToOctets(bytes)) == bytes
  {
    forall i | 0 <= i < |bytes|
      ensures FromOctets(ToOctets(bytes))[i] == bytes[i]
    {
      ByteBack(bytes[i]);
    }
  }

  /** A built payload fits a control frame and is read back to the same code and reason. */
  lemma CloseReadsBack(code: nat, reason: string)
    requires ClosePayload(code, reason).Ok?
    ensures |ClosePayload(code, reason).value| <= 125
    ensures ParseClose(ClosePayload(code, reason).value) == Ok((code, reason))
  {
    var payload := ClosePayload(code, reason).value;
    assert Power256(2) == 0x1_0000;
    BigEndianRoundTrip(code, 2);
    assert payload[..2] == ToBigEndian(code, 2);
    assert payload[2..] == FromOctets(Encode(reason));
    OctetsBack(Encode(reason));
    DecodeEncode(reason);
  }

  lemma BigEndianTwo(bytes: seq<bv8>)
    requires |bytes| == 2
    ensures BigEndian(bytes) == bytes[0] as nat * 256 + bytes[1] as nat
  {
    assert bytes == [bytes[0]] + [bytes[1]];
    LastByte([bytes[0]], bytes[1]);
    LastByte([], bytes[0]);
    assert [] + [bytes[0]] == [bytes[0]];
  }

  lemma BackFrom(first: bv8, second: bv8)
    ensures ToBigEndian(first as nat * 256 + second as nat, 2) == [first, second]
  {
    var high, low := first as nat, second as nat;
    var value := high * 256 + low;
    TwoDigits(high, low);
    TwoBytes(value);
    LowByteOf(value, low);
    ByteBack(first);
    ByteBack(second);
  }

  lemma LowByteOf(value: nat, low: nat)
    requires value % 256 == low
    ensures LowByte(value) == LowByte(low)
  {
    Small(low);
    ByteNumbers(LowByte(value), LowByte(low));
  }

  lemma TwoBytes(value: nat)
    ensures ToBigEndian(value, 2) == [LowByte(value / 256), LowByte(value)]
  {
    assert ToBigEndian(value / 256, 1) == [] + [LowByte(value / 256)];
  }

  lemma TwoDigits(high: nat, low: nat)
    requires low < 256
    ensures (high * 256 + low) / 256 == high && (high * 256 + low) % 256 == low
  {
  }

  /** A non-empty payload that reads back and fits a control frame is the only one for its code and reason. */
  lemma CloseIsCanonical(payload: seq<bv8>)
    requires payload != [] && |payload| <= 125 && ParseClose(payload).Ok?
    ensures var (code, reason) := ParseClose(payload).value;
            ClosePayload(code, reason) == Ok(payload)
  {
    var (code, reason) := ParseClose(payload).value;
    BigEndianTwo(payload[..2]);
    BackFrom(payload[0], payload[1]);
    assert payload[..2] == [payload[0], payload[1]];
    EncodeDecode(ToOctets(payload[2..]));
    BytesBack(payload[2..]);
    assert payload == payload[..2] + payload[2..];
  }

  /** The codes of section 7.4 of RFC 6455 that may be sent, and the ranges left to applications. */
  lemma CodesAllowed(code: nat)
    ensures ValidCloseCode(code) <==>
            code in {1000, 1001, 1002, 1003, 1007, 1008, 1009, 1010, 1011, 1012, 1013, 1014}
            || 3000 <= code <= 4999
  {
  }

  /** What is built, and what is refused: a code that may not be sent, and a reason over 123 bytes. */
  lemma CloseOutcome(code: nat, reason: string)
    requires code < 0x1_0000
    ensures ClosePayload(code, reason).Ok? <==> ValidCloseCode(code) && |Encode(reason)| <= 123
    ensures ParseClose(ToBigEndian(code, 2) + FromOctets(Encode(reason)))
         == if ValidCloseCode(code) then Ok((code, reason)) else Err(InvalidCode)
  {
    var payload := ToBigEndian(code, 2) + FromOctets(Encode(reason));
    assert Power256(2) == 0x1_0000;
    BigEndianRoundTrip(code, 2);
    assert payload[..2] == ToBigEndian(code, 2);
    assert payload[2..] == FromOctets(Encode(reason));
    OctetsBack(Encode(reason));
    DecodeEncode(reason);
  }

  /** Payloads that cannot be read: of one byte, or with a reason that is not UTF-8; an empty one is a normal close. */
  lemma CloseRefused(payload: seq<bv8>)
    ensures ParseClose([]) == Ok((1000, ""))
    ensures |payload| == 1 ==> ParseClose(payload) == Err(TooShort)
    ensures |payload| >= 2 && ValidCloseCode(BigEndian(payload[..2])) && Decode(ToOctets(payload[2..])).None? ==>
              ParseClose(payload) == Err(InvalidReason)
  {
  }
}
