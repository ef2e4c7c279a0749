/** WebSocket frames on the wire: sections 5.2 and 5.3 of RFC 6455. */
module WebSocketFrames {
  import opened Wrappers

  type Bytes = seq<bv8>

  const MAX_WEBSOCKET_BODY := 16 * 1024 * 1024

  datatype FrameError = ReservedBits | WrongMask | FrameTooLarge | BadControlFrame

  datatype Frame = Frame(finalFrame: bool, opcode: bv8, payload: Bytes)

  datatype Header = Header(
    finalFrame: bool, opcode: bv8, payloadOffset: nat, frameLength: nat, maskOffset: Option<nat>)

  function BigEndian(bytes: Bytes): nat {
    if bytes == [] then 0 else BigEndian(bytes[..|bytes| - 1]) * 256 + bytes[|bytes| - 1] as nat
  }

  function Twice(byte: bv8, bit: nat): (r: bv8)
    requires byte as nat < 128 && bit < 2
    ensures r as nat == 2 * (byte as nat) + bit
  {
    if bit == 0 then byte << 1 else (byte << 1) | 1
  }

  /** The byte of a number, bit by bit. */
  function ByteOf(value: nat): (byte: bv8)
    requires value < 256
    ensures byte as nat == value
  {
    if value == 0 then 0 else Twice(ByteOf(value / 2), value % 2)
  }

  function LowByte(value: nat): (byte: bv8)
    ensures byte as nat == value % 256
  {
    ByteOf(value % 256)
  }

  function ToBigEndian(value: nat, width: nat): (bytes: Bytes)
    ensures |bytes| == width
  {
    if width == 0 then [] else ToBigEndian(value / 256, width - 1) + [LowByte(value)]
  }

  function Masked(payload: Bytes, key: Bytes): (r: Bytes)
    requires |key| == 4
    ensures |r| == |payload|
  {
    seq(|payload|, i requires 0 <= i < |payload| => payload[i] ^ key[i % 4])
  }

  /** How many bytes the length field takes after the first two, and the length it announces. */
  function LengthField(buffer: Bytes): Option<(nat, nat)>
    requires |buffer| >= 2
  {
    var short := (buffer[1] & 0x7f) as nat;
    if short <= 125 then Some((0, short))
    else if short == 126 then if |buffer| < 4 then None else Some((2, BigEndian(buffer[2..4])))
    else if |buffer| < 10 then None else Some((8, BigEndian(buffer[2..10])))
  }

  function ParseHeader(buffer: Bytes, expectMask: bool): Result<Option<Header>, FrameError> {
    if |buffer| < 2 then Ok(None)
    else if buffer[0] & 0x70 != 0 then Err(ReservedBits)
    else
      var masked := buffer[1] & 0x80 != 0;
      if masked != expectMask then Err(WrongMask)
      else
        match LengthField(buffer)
        case None => Ok(None)
        case Some((extra, length)) =>
          var opcode, finalFrame := buffer[0] & 0x0f, buffer[0] & 0x80 != 0;
          if length > MAX_WEBSOCKET_BODY then Err(FrameTooLarge)
          else if opcode >= 0x8 && (!finalFrame || length > 125) then Err(BadControlFrame)
          else
            var offset := 2 + extra;
            var payloadOffset := if masked then offset + 4 else offset;
            Ok(Some(Header(finalFrame, opcode, payloadOffset, payloadOffset + length,
                           if masked then Some(offset) else None)))
  }

  /** The first frame of `buffer` and the bytes behind it, if it is complete. */
  function ParseFrame(buffer: Bytes, expectMask: bool): (r: Result<Option<(Frame, Bytes)>, FrameError>)
    ensures r.Ok? && r.value.Some? ==> |r.value.value.1| + 2 <= |buffer|
  {
    var found :- ParseHeader(buffer, expectMask);
    match found
    case None => Ok(None)
    case Some(header) =>
      if |buffer| < header.frameLength then Ok(None)
      else
        var raw := buffer[header.payloadOffset..header.frameLength];
        var payload := match header.maskOffset
          case Some(offset) => Masked(raw, buffer[offset..offset + 4])
          case None => raw;
        Ok(Some((Frame(header.finalFrame, header.opcode, payload), buffer[header.frameLength..])))
  }

  /** The length byte and the extended length, in the shortest of the three forms. */
  function WriteLength(length: nat, maskBit: bv8): Bytes
    requires length <= MAX_WEBSOCKET_BODY
  {
    if length <= 125 then [maskBit | ByteOf(length)]
    else if length <= 0xFFFF then [maskBit | 0x7e] + ToBigEndian(length, 2)
    else [maskBit | 0x7f] + ToBigEndian(length, 8)
  }

  /** `key` is the random mask, present when the frame is to be masked. */
  function WriteFrame(opcode: bv8, payload: Bytes, key: Option<Bytes>): Result<Bytes, FrameError>
    requires key.Some? ==> |key.value| == 4
  {
    if |payload| > MAX_WEBSOCKET_BODY then Err(FrameTooLarge)
    else if opcode >= 0x8 && (|payload| > 125 || opcode & 0x40 != 0) then Err(BadControlFrame)
    else
      match key
      case Some(mask) => Ok([0x80 | opcode] + WriteLength(|payload|, 0x80) + mask + Masked(payload, mask))
      case None => Ok([0x80 | opcode] + WriteLength(|payload|, 0) + payload)
  }

  // ---- Parsing what was written ----

  function Power256(width: nat): nat {
    if width == 0 then 1 else 256 * Power256(width - 1)
  }

  lemma {:induction false} BigEndianRoundTrip(value: nat, width: nat)
    requires value < Power256(width)
    ensures BigEndian(ToBigEndian(value, width)) == value
  {
    if width > 0 {
      HighPart(value, Power256(width - 1));
      BigEndianRoundTrip(value / 256, width - 1);
      LastByte(ToBigEndian(value / 256, width - 1), LowByte(value));
    }
  }

  lemma HighPart(value: nat, power: nat)
    requires value < 256 * power
    ensures value / 256 < power && value / 256 * 256 + value % 256 == value
  {
  }

  lemma LastByte(high: Bytes, last: bv8)
    ensures BigEndian(high + [last]) == BigEndian(high) * 256 + last as nat
  {
    assert (high + [last])[..|high|] == high;
  }

  lemma MaskedTwice(payload: Bytes, key: Bytes)
    requires |key| == 4
    ensures Masked(Masked(payload, key), key) == payload
  {
    forall i | 0 <= i < |payload|
      ensures (payload[i] ^ key[i % 4]) ^ key[i % 4] == payload[i]
    {
    }
  }

  lemma MaskBits(b: bv8, maskBit: bv8)
    requires b <= 0x7f && (maskBit == 0 || maskBit == 0x80)
    ensures (maskBit | b) & 0x7f == b && ((maskBit | b) & 0x80 != 0) == (maskBit == 0x80)
  {
  }

  lemma LengthBits(length: nat, maskBit: bv8)
    requires length <= 127 && (maskBit == 0 || maskBit == 0x80)
    ensures ((maskBit | ByteOf(length)) & 0x7f) as nat == length
    ensures ((maskBit | ByteOf(length)) & 0x80 != 0) == (maskBit == 0x80)
  {
    SmallByte(ByteOf(length));
    MaskBits(ByteOf(length), maskBit);
  }

  lemma SmallByte(b: bv8)
    requires b as nat <= 127
    ensures b <= 0x7f
  {
  }

  lemma OpcodeBits(opcode: bv8)
    ensures (0x80 | opcode) & 0x80 != 0
    ensures ((0x80 | opcode) & 0x70 == 0 && (0x80 | opcode) & 0x0f == opcode) <==> opcode < 16
    ensures opcode >= 16 ==> (0x80 | opcode) & 0x70 != 0 || (0x80 | opcode) & 0x0f != opcode
  {
  }

  /** The bytes behind the length byte spell the length, whatever follows them. */
  lemma ExtendedLength(first: bv8, second: bv8, length: nat, width: nat, rest: Bytes)
    requires length < Power256(width)
    ensures var buffer := [first] + ([second] + ToBigEndian(length, width)) + rest;
            buffer[1] == second && BigEndian(buffer[2..2 + width]) == length
  {
    var bytes := ToBigEndian(length, width);
    var buffer := [first] + ([second] + bytes) + rest;
    BigEndianRoundTrip(length, width);
    assert buffer[2..2 + width] == bytes;
  }

  /** A written length field is read back, whatever follows it. */
  lemma LengthRoundTrip(first: bv8, length: nat, maskBit: bv8, rest: Bytes)
    requires length <= MAX_WEBSOCKET_BODY && (maskBit == 0 || maskBit == 0x80)
    ensures var field := WriteLength(length, maskBit);
            var buffer := [first] + field + rest;
            && LengthField(buffer) == Some((|field| - 1, length))
            && (buffer[1] & 0x80 != 0) == (maskBit == 0x80)
  {
    if length <= 125 {
      LengthBits(length, maskBit);
      assert ([first] + WriteLength(length, maskBit) + rest)[1] == maskBit | ByteOf(length);
    } else if length <= 0xFFFF {
      assert Power256(2) == 0x1_0000;
      ExtendedLength(first, maskBit | 0x7e, length, 2, rest);
      MaskBits(0x7e, maskBit);
    } else {
      assert Power256(8) == 0x1_0000_0000_0000_0000;
      ExtendedLength(first, maskBit | 0x7f, length, 8, rest);
      MaskBits(0x7f, maskBit);
    }
  }

  /**
   * What the writer accepts is parsed back to the same opcode and payload with the final flag
   * set, leaving exactly the bytes behind it - if and only if the opcode fits its four bits.
   * The writer checks control payloads but lets other wide opcodes through.
   */
  lemma FrameRoundTrip(opcode: bv8, payload: Bytes, key: Option<Bytes>, rest: Bytes)
    requires key.Some? ==> |key.value| == 4
    requires WriteFrame(opcode, payload, key).Ok?
    ensures ParseFrame(WriteFrame(opcode, payload, key).value + rest, key.Some?)
            == Ok(Some((Frame(true, opcode, payload), rest)))
            <==> opcode < 16
  {
    OpcodeBits(opcode);
    var written := WriteFrame(opcode, payload, key).value;
    if opcode >= 16 {
      WideOpcode(written + rest, opcode, key.Some?, payload, rest);
    } else if key.Some? {
      MaskedParses(opcode, payload, key.value, rest);
    } else {
      PlainParses(opcode, payload, rest);
    }
  }

  lemma MaskedParses(opcode: bv8, payload: Bytes, mask: Bytes, rest: Bytes)
    requires |mask| == 4 && opcode < 16 && WriteFrame(opcode, payload, Some(mask)).Ok?
    ensures ParseFrame(WriteFrame(opcode, payload, Some(mask)).value + rest, true)
            == Ok(Some((Frame(true, opcode, payload), rest)))
  {
    var head, body := [0x80 | opcode] + WriteLength(|payload|, 0x80), Masked(payload, mask);
    MaskedHeader(opcode, payload, mask, rest);
    FourParts(head, mask, body, rest);
    MaskedTwice(payload, mask);
  }

  /** The header of a masked frame, however the bytes behind it are grouped. */
  lemma MaskedHeader(opcode: bv8, payload: Bytes, mask: Bytes, rest: Bytes)
    requires |mask| == 4 && opcode < 16 && WriteFrame(opcode, payload, Some(mask)).Ok?
    ensures var head, body := [0x80 | opcode] + WriteLength(|payload|, 0x80), Masked(payload, mask);
            && WriteFrame(opcode, payload, Some(mask)).value + rest == head + mask + body + rest
            && ParseHeader(head + mask + body + rest, true)
               == Ok(Some(Header(true, opcode, |head| + 4, |head| + 4 + |payload|, Some(|head|))))
  {
    var head, body := [0x80 | opcode] + WriteLength(|payload|, 0x80), Masked(payload, mask);
    WrittenHeader(opcode, |payload|, 0x80, mask + body + rest);
    Regroup(head, mask, body, rest);
  }

  lemma Regroup(a: Bytes, b: Bytes, c: Bytes, d: Bytes)
    ensures a + (b + c + d) == a + b + c + d
  {
  }

  lemma FourParts(a: Bytes, b: Bytes, c: Bytes, d: Bytes)
    ensures var all := a + b + c + d;
            && all[|a|..|a| + |b|] == b
            && all[|a| + |b|..|a| + |b| + |c|] == c
            && all[|a| + |b| + |c|..] == d
  {
  }

  lemma PlainParses(opcode: bv8, payload: Bytes, rest: Bytes)
    requires opcode < 16 && WriteFrame(opcode, payload, None).Ok?
    ensures ParseFrame(WriteFrame(opcode, payload, None).value + rest, false)
            == Ok(Some((Frame(true, opcode, payload), rest)))
  {
    var field := WriteLength(|payload|, 0);
    var buffer := WriteFrame(opcode, payload, None).value + rest;
    var start := 1 + |field|;
    WrittenHeader(opcode, |payload|, 0, payload + rest);
    assert buffer == [0x80 | opcode] + field + (payload + rest);
    assert buffer[start..start + |payload|] == payload;
    assert buffer[start + |payload|..] == rest;
  }

  lemma WrittenHeader(opcode: bv8, length: nat, maskBit: bv8, rest: Bytes)
    requires opcode < 16 && length <= MAX_WEBSOCKET_BODY && (opcode >= 0x8 ==> length <= 125)
    requires maskBit == 0 || maskBit == 0x80
    ensures var field := WriteLength(length, maskBit);
            var offset := 1 + |field|;
            var start := if maskBit == 0x80 then offset + 4 else offset;
            ParseHeader([0x80 | opcode] + field + rest, maskBit == 0x80)
            == Ok(Some(Header(true, opcode, start, start + length, if maskBit == 0x80 then Some(offset) else None)))
  {
    var field := WriteLength(length, maskBit);
    var buffer := [0x80 | opcode] + field + rest;
    LengthRoundTrip(0x80 | opcode, length, maskBit, rest);
    OpcodeBits(opcode);
    assert buffer[0] == 0x80 | opcode;
  }

  lemma WideOpcode(buffer: Bytes, opcode: bv8, expectMask: bool, payload: Bytes, rest: Bytes)
    requires opcode >= 16 && buffer != [] && buffer[0] == 0x80 | opcode
    ensures ParseFrame(buffer, expectMask) != Ok(Some((Frame(true, opcode, payload), rest)))
  {
    OpcodeBits(opcode);
  }

  lemma WrittenEmpty(opcode: bv8)
    requires opcode & 0x40 == 0
    ensures WriteFrame(opcode, [], None) == Ok([0x80 | opcode, 0])
  {
    LengthBits(0, 0);
    assert WriteLength(0, 0) == [0];
    assert [0x80 | opcode] + [0] + [] == [0x80 | opcode, 0];
  }

  lemma WideBits()
    ensures 0x80 | 0x10 as bv8 == 0x90 && 0x80 | 0x80 as bv8 == 0x80 && 0x80 | 0 as bv8 == 0x80
    ensures 0x90 as bv8 & 0x70 != 0 && 0x10 as bv8 & 0x40 == 0 && 0x80 as bv8 & 0x40 == 0 && 0 as bv8 & 0x40 == 0
  {
  }

  /** Two wide opcodes that the writer accepts: the reader refuses one and takes the other for a continuation. */
  lemma WideOpcodeLost(rest: Bytes)
    ensures WriteFrame(0x10, [], None) == Ok([0x90, 0]) && ParseFrame([0x90, 0] + rest, false) == Err(ReservedBits)
    ensures WriteFrame(0x80, [], None) == Ok([0x80, 0])
    ensures ParseFrame([0x80, 0] + rest, false) == Ok(Some((Frame(true, 0, []), rest)))
  {
    WideBits();
    WrittenEmpty(0);
    WrittenEmpty(0x10);
    WrittenEmpty(0x80);
    PlainParses(0, [], rest);
    assert ([0x90, 0] + rest)[0] == 0x90;
  }

  // ---- More bytes never change a decision ----

  lemma HeaderStable(buffer: Bytes, more: Bytes, expectMask: bool)
    ensures var known := ParseHeader(buffer, expectMask);
            known != Ok(None) ==> ParseHeader(buffer + more, expectMask) == known
    ensures ParseHeader(buffer, expectMask) == Ok(None) ==> |buffer| < 10
  {
    var all := buffer + more;
    if |buffer| >= 4 {
      assert all[2..4] == buffer[2..4];
    }
    if |buffer| >= 10 {
      assert all[2..10] == buffer[2..10];
    }
  }

  lemma SliceAppend(s: Bytes, t: Bytes, i: nat, j: nat)
    requires i <= j <= |s|
    ensures (s + t)[i..j] == s[i..j] && (s + t)[j..] == s[j..] + t
  {
  }

  /** A frame or an error found at the front of a buffer is found however much follows. */
  lemma FrameStable(buffer: Bytes, more: Bytes, expectMask: bool)
    ensures match ParseFrame(buffer, expectMask) {
              case Ok(None) => true
              case Ok(Some((frame, rest))) => ParseFrame(buffer + more, expectMask) == Ok(Some((frame, rest + more)))
              case Err(e) => ParseFrame(buffer + more, expectMask) == Err(e)
            }
  {
    HeaderStable(buffer, more, expectMask);
    match ParseHeader(buffer, expectMask)
    case Ok(Some(header)) =>
      if |buffer| >= header.frameLength {
        SliceAppend(buffer, more, header.payloadOffset, header.frameLength);
        if header.maskOffset.Some? {
          var offset := header.maskOffset.value;
          SliceAppend(buffer, more, offset, offset + 4);
        }
      }
    case _ =>
  }
}
