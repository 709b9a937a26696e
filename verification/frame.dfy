/** The base framing header of section 5.2 of RFC 6455: its decoder, as the
    server implements it, and the matching encoder that states what the
    decoder inverts. */
module Frame {
  import opened Bytes

  /** The four octets a masked frame carries after its length. */
  type MaskingKey = k: seq<byte> | |k| == 4 witness [0, 0, 0, 0]

  /** The key an unmasked frame's header is left with. */
  const ZERO_KEY: MaskingKey := [0, 0, 0, 0]

  /** The 7-bit length values that announce a 16-bit and a 64-bit extended length. */
  const LENGTH_16: byte := 126
  const LENGTH_64: byte := 127

  datatype FrameHeader = FrameHeader(
    fin: bool,
    rsv1: bool,
    rsv2: bool,
    rsv3: bool,
    opcode: byte,
    mask: bool,
    payloadLength: uint64,
    maskingKey: MaskingKey)

  /** Why a byte sequence does not hold a whole header. */
  datatype DecodeError =
    | HeaderTooShort           // fewer than the two fixed octets
    | ExtendedLengthTruncated  // the 16- or 64-bit length is cut off
    | MaskingKeyTruncated      // the 4-octet masking key is cut off

  /** A decoded header and the number of octets it occupies, or an error.
      An error carries no header: whatever the decoder filled in before it
      stopped is not a valid header. */
  datatype Decoded = Ok(header: FrameHeader, size: nat) | Err(error: DecodeError)

  // ---------------------------------------------------------------------
  // The layout, in terms of octet values, independent of the decoder's masks

  /** The 7-bit payload length field of the second octet. */
  function LengthField(b1: byte): nat
  {
    b1 as nat % 128
  }

  /** Whether the second octet has its MASK bit (the most significant bit) set. */
  predicate MaskBit(b1: byte)
  {
    b1 as nat >= 128
  }

  /** The offset just past the payload length, extended or not. */
  function LengthEnd(b1: byte): nat
  {
    if LengthField(b1) == 126 then 4 else if LengthField(b1) == 127 then 10 else 2
  }

  /** The number of header octets a frame whose second octet is `b1` occupies. */
  function RequiredSize(b1: byte): nat
  {
    LengthEnd(b1) + (if MaskBit(b1) then 4 else 0)
  }

  // One mask at a time: each selects one bit, or the low bits, of the octet's value.
  // FirstOctetBits and SecondOctetBits below gather them per octet; each mask is
  // kept in a lemma of its own so that the bit-vector reasoning stays small.

  lemma Bit7(b: byte)
    ensures (b & 0x80 != 0) <==> b as nat >= 128
  {
  }

  lemma Bit6(b: byte)
    ensures (b & 0x40 != 0) <==> b as nat % 128 >= 64
  {
  }

  lemma Bit5(b: byte)
    ensures (b & 0x20 != 0) <==> b as nat % 64 >= 32
  {
  }

  lemma Bit4(b: byte)
    ensures (b & 0x10 != 0) <==> b as nat % 32 >= 16
  {
  }

  lemma LowBits(b: byte)
    ensures (b & 0x0F) as nat == b as nat % 16
    ensures (b & 0x7F) as nat == b as nat % 128
  {
  }

  /** The decoder's masks on octet 0 select the bits the layout names. */
  lemma FirstOctetBits(b0: byte)
    ensures (b0 & 0x80 != 0) <==> b0 as nat >= 128
    ensures (b0 & 0x40 != 0) <==> b0 as nat % 128 >= 64
    ensures (b0 & 0x20 != 0) <==> b0 as nat % 64 >= 32
    ensures (b0 & 0x10 != 0) <==> b0 as nat % 32 >= 16
    ensures (b0 & 0x0F) as nat == b0 as nat % 16
  {
    Bit7(b0);
    Bit6(b0);
    Bit5(b0);
    Bit4(b0);
    LowBits(b0);
  }

  /** The decoder's masks on octet 1 select MASK and the 7-bit length. */
  lemma SecondOctetBits(b1: byte)
    ensures (b1 & 0x80 != 0) <==> MaskBit(b1)
    ensures (b1 & 0x7F) as nat == LengthField(b1)
  {
    Bit7(b1);
    LowBits(b1);
  }

  // ---------------------------------------------------------------------
  // The decoder

  /** The payload length the 7-bit field `len7` announces: the field itself,
      or the 16- or 64-bit network-order value after the two fixed octets. */
  function PayloadLengthOf(data: seq<byte>, len7: byte): (n: uint64)
    requires len7 as nat <= 127
    requires len7 == LENGTH_16 ==> |data| >= 4
    requires len7 == LENGTH_64 ==> |data| >= 10
    ensures len7 as nat <= 125 ==> n == len7 as nat
    ensures len7 == LENGTH_16 ==> n == data[2] as nat * 256 + data[3] as nat
    ensures len7 == LENGTH_64 ==> n == BigEndian(data[2..10])
  {
    if len7 == LENGTH_16 then
      Pow256Widths(); BigEndianTwo(data[2..4]); BigEndian(data[2..4])
    else if len7 == LENGTH_64 then
      Pow256Widths(); BigEndian(data[2..10])
    else
      len7 as nat
  }

  /** The masking key: the four octets before `headerSize` when MASK is set,
      otherwise the zero key the header starts with. */
  function KeyBefore(data: seq<byte>, mask: bool, headerSize: nat): (key: MaskingKey)
    requires mask ==> 4 <= headerSize <= |data|
  {
    if mask then data[headerSize - 4..headerSize] else ZERO_KEY
  }

  /** Decodes the header at the start of `data`. */
  function UnpackHeader(data: seq<byte>): (r: Decoded)
    // nothing is interpreted in fewer than two octets
    ensures |data| < 2 ==> r == Err(HeaderTooShort)
    // the decoder fails exactly when the header announced by the second octet does not fit
    ensures r.Err? <==> |data| < 2 || |data| < RequiredSize(data[1])
    ensures r == Err(ExtendedLengthTruncated) <==>
              2 <= |data| < LengthEnd(data[1])
    ensures r == Err(MaskingKeyTruncated) <==>
              2 <= |data| && LengthEnd(data[1]) <= |data| < RequiredSize(data[1])
    // the header size is what the layout announces and never exceeds the input
    ensures r.Ok? ==> r.size == RequiredSize(data[1]) <= |data|
    ensures r.Ok? ==> r.size in (if r.header.mask then {6, 8, 14} else {2, 4, 10})
    // FIN, RSV1-3 are the four high bits of octet 0, OPCODE its low four bits
    ensures r.Ok? ==>
              && (r.header.fin <==> data[0] as nat >= 128)
              && (r.header.rsv1 <==> data[0] as nat % 128 >= 64)
              && (r.header.rsv2 <==> data[0] as nat % 64 >= 32)
              && (r.header.rsv3 <==> data[0] as nat % 32 >= 16)
              && r.header.opcode as nat == data[0] as nat % 16
              && r.header.opcode as nat <= 15
    // MASK is the high bit of octet 1
    ensures r.Ok? ==> (r.header.mask <==> MaskBit(data[1]))
    // the payload length, by the three encodings
    ensures r.Ok? && LengthField(data[1]) <= 125 ==>
              r.header.payloadLength == LengthField(data[1])
    ensures r.Ok? && LengthField(data[1]) == 126 ==>
              && r.header.payloadLength == data[2] as nat * 256 + data[3] as nat
              && r.header.payloadLength < TWO_TO_THE_16
    ensures r.Ok? && LengthField(data[1]) == 127 ==>
              r.header.payloadLength == BigEndian(data[2..10])
    // the masking key is the last four header octets, or all zeros without MASK
    ensures r.Ok? && r.header.mask ==> r.header.maskingKey == data[r.size - 4..r.size]
    ensures r.Ok? && !r.header.mask ==> r.header.maskingKey == ZERO_KEY
  {
    if |data| < 2 then Err(HeaderTooShort)
    else
      var b0, b1 := data[0], data[1];
      FirstOctetBits(b0);
      SecondOctetBits(b1);
      var mask := b1 & 0x80 != 0;
      var payloadLen := b1 & 0x7F;
      if payloadLen == LENGTH_16 && |data| < 4 then Err(ExtendedLengthTruncated)
      else if payloadLen == LENGTH_64 && |data| < 10 then Err(ExtendedLengthTruncated)
      else
        var payloadLength := PayloadLengthOf(data, payloadLen);
        // LengthEnd and RequiredSize, computed here on the masked octet as the code
        // does; the contract ties them to the layout functions. Calling those
        // functions on `b1` here would mix bit-vector and integer facts in one
        // proof obligation, which makes it far more expensive.
        var lengthEnd := if payloadLen == LENGTH_16 then 4 else if payloadLen == LENGTH_64 then 10 else 2;
        var headerSize := if mask then lengthEnd + 4 else lengthEnd;
        if |data| < headerSize then Err(MaskingKeyTruncated)
        else
          Ok(FrameHeader(
               b0 & 0x80 != 0, b0 & 0x40 != 0, b0 & 0x20 != 0, b0 & 0x10 != 0, b0 & 0x0F,
               mask, payloadLength, KeyBefore(data, mask, headerSize)),
             headerSize)
  }

  // ---------------------------------------------------------------------
  // The encoder the decoder inverts

  /** The three ways section 5.2 of RFC 6455 writes a payload length. */
  datatype LengthForm = Short | Medium | Long

  /** The number of extended-length octets a form writes. */
  function ExtendedWidth(form: LengthForm): nat
  {
    match form
    case Short => 0
    case Medium => 2
    case Long => 8
  }

  /** Whether a payload length can be written in the form. */
  predicate Fits(length: uint64, form: LengthForm)
  {
    match form
    case Short => length <= 125
    case Medium => length < TWO_TO_THE_16
    case Long => true
  }

  /** The form a decoded second octet announces. */
  function FormOf(b1: byte): LengthForm
  {
    if LengthField(b1) == 126 then Medium else if LengthField(b1) == 127 then Long else Short
  }

  /** The headers the decoder can produce: a 4-bit opcode and, without MASK, a zero key. */
  predicate WellFormed(h: FrameHeader)
  {
    && h.opcode as nat <= 15
    && (!h.mask ==> h.maskingKey == ZERO_KEY)
  }

  function Flag(on: bool, bit: byte): byte
  {
    if on then bit else 0
  }

  /** Octet 0: FIN, RSV1, RSV2, RSV3 from the most significant bit down, then the opcode. */
  function FirstOctet(fin: bool, rsv1: bool, rsv2: bool, rsv3: bool, opcode: byte): byte
  {
    Flag(fin, 0x80) | Flag(rsv1, 0x40) | Flag(rsv2, 0x20) | Flag(rsv3, 0x10) | opcode
  }

  /** Octet 1: MASK, then the 7-bit payload length. */
  function SecondOctet(mask: bool, len7: byte): byte
  {
    Flag(mask, 0x80) | len7
  }

  /** The 7-bit length field that writes `length` in `form`. */
  function LengthCode(length: uint64, form: LengthForm): (len7: byte)
    requires Fits(length, form)
  {
    match form
    case Short => ByteOf(length)
    case Medium => LENGTH_16
    case Long => LENGTH_64
  }

  /** The number of octets PackHeader writes; `RequiredSize` of the second
      octet it writes (see `PackedSizeIsRequired`). */
  function PackedSize(mask: bool, form: LengthForm): nat
  {
    2 + ExtendedWidth(form) + (if mask then 4 else 0)
  }

  /** The encoder's size and the decoder's layout agree on every second octet. */
  lemma PackedSizeIsRequired(b1: byte)
    ensures PackedSize(MaskBit(b1), FormOf(b1)) == RequiredSize(b1)
  {
  }

  /** The octets of `h` on the wire, with its length written in `form`. */
  function PackHeader(h: FrameHeader, form: LengthForm): (s: seq<byte>)
    requires WellFormed(h) && Fits(h.payloadLength, form)
    ensures |s| == PackedSize(h.mask, form)
  {
    [FirstOctet(h.fin, h.rsv1, h.rsv2, h.rsv3, h.opcode), SecondOctet(h.mask, LengthCode(h.payloadLength, form))] + ToBigEndian(h.payloadLength, ExtendedWidth(form)) + (if h.mask then h.maskingKey else [])
  }

  /** The decoder's masks recover the flags and opcode FirstOctet packs. */
  lemma FirstOctetMasks(fin: bool, rsv1: bool, rsv2: bool, rsv3: bool, opcode: byte)
    requires opcode <= 15
    ensures var b0 := FirstOctet(fin, rsv1, rsv2, rsv3, opcode);
      && (b0 & 0x80 != 0) == fin
      && (b0 & 0x40 != 0) == rsv1
      && (b0 & 0x20 != 0) == rsv2
      && (b0 & 0x10 != 0) == rsv3
      && b0 & 0x0F == opcode
  {
  }

  /** The flags and opcode PackHeader puts in octet 0 are the ones the layout names. */
  lemma FirstOctetRoundTrip(fin: bool, rsv1: bool, rsv2: bool, rsv3: bool, opcode: byte)
    requires opcode as nat <= 15
    ensures var b0 := FirstOctet(fin, rsv1, rsv2, rsv3, opcode);
      && (b0 as nat >= 128) == fin
      && (b0 as nat % 128 >= 64) == rsv1
      && (b0 as nat % 64 >= 32) == rsv2
      && (b0 as nat % 32 >= 16) == rsv3
      && b0 as nat % 16 == opcode as nat
  {
    FirstOctetMasks(fin, rsv1, rsv2, rsv3, opcode);
    FirstOctetBits(FirstOctet(fin, rsv1, rsv2, rsv3, opcode));
  }

  /** The decoder's masks recover the MASK bit and length SecondOctet packs. */
  lemma SecondOctetMasks(mask: bool, len7: byte)
    requires len7 <= 127
    ensures var b1 := SecondOctet(mask, len7);
      && (b1 & 0x80 != 0) == mask
      && b1 & 0x7F == len7
  {
  }

  /** The MASK bit and 7-bit length PackHeader puts in octet 1 are the ones the layout names. */
  lemma SecondOctetRoundTrip(mask: bool, len7: byte)
    requires len7 as nat <= 127
    ensures var b1 := SecondOctet(mask, len7);
      && MaskBit(b1) == mask
      && LengthField(b1) == len7 as nat
  {
    SecondOctetMasks(mask, len7);
    SecondOctetBits(SecondOctet(mask, len7));
  }

  /** Every octet is rebuilt from the parts the decoder's masks split it into. */
  lemma OctetsRebuilt(b0: byte, b1: byte)
    ensures b0 == FirstOctet(b0 & 0x80 != 0, b0 & 0x40 != 0, b0 & 0x20 != 0, b0 & 0x10 != 0, b0 & 0x0F)
    ensures b1 == SecondOctet(b1 & 0x80 != 0, b1 & 0x7F)
  {
  }

  /** Where PackHeader puts each part of the header. */
  lemma PackedLayout(h: FrameHeader, form: LengthForm)
    requires WellFormed(h) && Fits(h.payloadLength, form)
    ensures var packed, width := PackHeader(h, form), ExtendedWidth(form);
      && packed[0] == FirstOctet(h.fin, h.rsv1, h.rsv2, h.rsv3, h.opcode)
      && packed[1] == SecondOctet(h.mask, LengthCode(h.payloadLength, form))
      && packed[2..2 + width] == ToBigEndian(h.payloadLength, width)
      && (h.mask ==> packed[2 + width..6 + width] == h.maskingKey)
  {
    var packed, width := PackHeader(h, form), ExtendedWidth(form);
    var head := [packed[0], packed[1]] + ToBigEndian(h.payloadLength, width);
    assert packed == head + (if h.mask then h.maskingKey else []);
    assert packed[2..2 + width] == head[2..];
  }

  /** The extended length PackHeader writes reads back as the length, in the
      terms the decoder's contract uses. */
  lemma ExtendedLengthReadBack(n: uint64, form: LengthForm)
    requires Fits(n, form)
    ensures form == Medium ==>
      var s := ToBigEndian(n, 2); s[0] as nat * 256 + s[1] as nat == n
    ensures form == Long ==> BigEndian(ToBigEndian(n, 8)) == n
  {
    Pow256Widths();
    if form == Medium {
      BigEndianOfToBigEndian(n, 2);
      BigEndianTwo(ToBigEndian(n, 2));
    } else if form == Long {
      BigEndianOfToBigEndian(n, 8);
    }
  }

  /** The decoder returns `h` from any input whose octets carry `h`'s parts where the layout puts them. */
  lemma UnpackFromParts(data: seq<byte>, h: FrameHeader, form: LengthForm)
    requires WellFormed(h) && Fits(h.payloadLength, form)
    requires |data| >= PackedSize(h.mask, form)
    requires (data[0] as nat >= 128) == h.fin
    requires (data[0] as nat % 128 >= 64) == h.rsv1
    requires (data[0] as nat % 64 >= 32) == h.rsv2
    requires (data[0] as nat % 32 >= 16) == h.rsv3
    requires data[0] as nat % 16 == h.opcode as nat
    requires MaskBit(data[1]) == h.mask && FormOf(data[1]) == form
    requires form == Short ==> LengthField(data[1]) == h.payloadLength
    requires data[2..2 + ExtendedWidth(form)] == ToBigEndian(h.payloadLength, ExtendedWidth(form))
    requires h.mask ==> data[2 + ExtendedWidth(form)..6 + ExtendedWidth(form)] == h.maskingKey
    ensures UnpackHeader(data) == Ok(h, PackedSize(h.mask, form))
  {
    var r := UnpackHeader(data);
    assert r.Ok? && r.size == PackedSize(h.mask, form);
    var d := r.header;
    SameValueSameByte(d.opcode, h.opcode);
    ExtendedLengthInPlace(data, h.payloadLength, form);
    assert d.payloadLength == h.payloadLength;
    assert d.maskingKey == h.maskingKey;
  }

  /** An input carrying ToBigEndian of `n` where the extended length goes
      holds `n` in the terms the decoder's contract reads it. */
  lemma ExtendedLengthInPlace(data: seq<byte>, n: uint64, form: LengthForm)
    requires Fits(n, form)
    requires |data| >= 2 + ExtendedWidth(form)
    requires data[2..2 + ExtendedWidth(form)] == ToBigEndian(n, ExtendedWidth(form))
    ensures form == Medium ==> data[2] as nat * 256 + data[3] as nat == n
    ensures form == Long ==> BigEndian(data[2..10]) == n
  {
    ExtendedLengthReadBack(n, form);
    if form == Medium {
      assert data[2] == data[2..4][0] && data[3] == data[2..4][1];
    }
  }

  /** An input that starts with PackHeader(h, form) carries `h`'s flags,
      opcode, MASK bit and length form in its first two octets. */
  lemma PackedOctets(data: seq<byte>, h: FrameHeader, form: LengthForm)
    requires WellFormed(h) && Fits(h.payloadLength, form)
    requires |data| >= 2
    requires data[..2] == PackHeader(h, form)[..2]
    ensures (data[0] as nat >= 128) == h.fin
    ensures (data[0] as nat % 128 >= 64) == h.rsv1
    ensures (data[0] as nat % 64 >= 32) == h.rsv2
    ensures (data[0] as nat % 32 >= 16) == h.rsv3
    ensures data[0] as nat % 16 == h.opcode as nat
    ensures MaskBit(data[1]) == h.mask && FormOf(data[1]) == form
    ensures form == Short ==> LengthField(data[1]) == h.payloadLength
  {
    var packed := PackHeader(h, form);
    var len7 := LengthCode(h.payloadLength, form);
    assert data[0] == packed[0] == FirstOctet(h.fin, h.rsv1, h.rsv2, h.rsv3, h.opcode);
    assert data[1] == packed[1] == SecondOctet(h.mask, len7);
    FirstOctetRoundTrip(h.fin, h.rsv1, h.rsv2, h.rsv3, h.opcode);
    match form {
      case Short =>
        assert len7 as nat == h.payloadLength;
      case Medium =>
        assert len7 as nat == 126;
      case Long =>
        assert len7 as nat == 127;
    }
    SecondOctetRoundTrip(h.mask, len7);
  }

  /** An input that starts with PackHeader(h, form) carries `h`'s extended
      length and masking key where the layout puts them. */
  lemma PackedTail(data: seq<byte>, h: FrameHeader, form: LengthForm)
    requires WellFormed(h) && Fits(h.payloadLength, form)
    requires |data| >= PackedSize(h.mask, form)
    requires data[..PackedSize(h.mask, form)] == PackHeader(h, form)
    ensures data[2..2 + ExtendedWidth(form)] == ToBigEndian(h.payloadLength, ExtendedWidth(form))
    ensures h.mask ==> data[2 + ExtendedWidth(form)..6 + ExtendedWidth(form)] == h.maskingKey
  {
    var packed := PackHeader(h, form);
    var width := ExtendedWidth(form);
    PackedLayout(h, form);
    assert data[2..2 + width] == packed[2..2 + width];
    if h.mask {
      assert data[2 + width..6 + width] == packed[2 + width..6 + width];
    }
  }

  /** Decoding an encoded header, whatever follows it, gives back the header and its size. */
  lemma PackThenUnpack(h: FrameHeader, form: LengthForm, rest: seq<byte>)
    requires WellFormed(h) && Fits(h.payloadLength, form)
    ensures UnpackHeader(PackHeader(h, form) + rest) == Ok(h, |PackHeader(h, form)|)
  {
    var data := PackHeader(h, form) + rest;
    assert data[..PackedSize(h.mask, form)] == PackHeader(h, form);
    assert data[..2] == PackHeader(h, form)[..2];
    PackedOctets(data, h, form);
    PackedTail(data, h, form);
    UnpackFromParts(data, h, form);
  }

  /** Octet 0 is determined by the flags and opcode the layout names. */
  lemma FirstOctetRebuilt(b0: byte, fin: bool, rsv1: bool, rsv2: bool, rsv3: bool, opcode: byte)
    requires (b0 as nat >= 128) == fin
    requires (b0 as nat % 128 >= 64) == rsv1
    requires (b0 as nat % 64 >= 32) == rsv2
    requires (b0 as nat % 32 >= 16) == rsv3
    requires b0 as nat % 16 == opcode as nat
    ensures b0 == FirstOctet(fin, rsv1, rsv2, rsv3, opcode)
  {
    OctetsRebuilt(b0, 0);
    FirstOctetBits(b0);
    SameValueSameByte(b0 & 0x0F, opcode);
  }

  /** Octet 1 is determined by the MASK bit and the 7-bit length. */
  lemma SecondOctetRebuilt(b1: byte, mask: bool, len7: byte)
    requires MaskBit(b1) == mask
    requires LengthField(b1) == len7 as nat
    ensures b1 == SecondOctet(mask, len7)
  {
    OctetsRebuilt(0, b1);
    SecondOctetBits(b1);
    SameValueSameByte(b1 & 0x7F, len7);
  }

  /** Octet 0 of an input is PackHeader's octet 0 for the flags and opcode the layout reads from it. */
  lemma FirstOctetIsPacked(data: seq<byte>, h: FrameHeader, form: LengthForm)
    requires |data| >= 2 && WellFormed(h) && Fits(h.payloadLength, form)
    requires (data[0] as nat >= 128) == h.fin
    requires (data[0] as nat % 128 >= 64) == h.rsv1
    requires (data[0] as nat % 64 >= 32) == h.rsv2
    requires (data[0] as nat % 32 >= 16) == h.rsv3
    requires data[0] as nat % 16 == h.opcode as nat
    ensures PackHeader(h, form)[0] == data[0]
  {
    PackedLayout(h, form);
    FirstOctetRebuilt(data[0], h.fin, h.rsv1, h.rsv2, h.rsv3, h.opcode);
  }

  /** Octet 1 of an input is PackHeader's octet 1 for the MASK bit and length the layout reads from it. */
  lemma SecondOctetIsPacked(data: seq<byte>, h: FrameHeader)
    requires |data| >= 2 && WellFormed(h)
    requires MaskBit(data[1]) == h.mask
    requires Fits(h.payloadLength, FormOf(data[1]))
    requires FormOf(data[1]) == Short ==> h.payloadLength == LengthField(data[1])
    ensures PackHeader(h, FormOf(data[1]))[1] == data[1]
  {
    var form := FormOf(data[1]);
    PackedLayout(h, form);
    SecondOctetRebuilt(data[1], h.mask, LengthCode(h.payloadLength, form));
  }

  /** A successful decode returns a header PackHeader can write in the form octet 1 announces. */
  lemma UnpackedFits(data: seq<byte>)
    requires UnpackHeader(data).Ok?
    ensures var r := UnpackHeader(data);
      && WellFormed(r.header)
      && Fits(r.header.payloadLength, FormOf(data[1]))
  {
  }

  /** The extended length of a successful decode is written back as the octets it was read from. */
  lemma ExtendedLengthIsPacked(data: seq<byte>)
    requires UnpackHeader(data).Ok?
    ensures var r, form := UnpackHeader(data), FormOf(data[1]);
      && WellFormed(r.header) && Fits(r.header.payloadLength, form)
      && PackHeader(r.header, form)[2..2 + ExtendedWidth(form)] == data[2..2 + ExtendedWidth(form)]
  {
    var r := UnpackHeader(data);
    var h := r.header;
    var form := FormOf(data[1]);
    UnpackedFits(data);
    PackedLayout(h, form);
    match form {
      case Short =>
      case Medium =>
        BigEndianTwo(data[2..4]);
        assert h.payloadLength == BigEndian(data[2..4]);
        ToBigEndianOfBigEndian(data[2..4]);
      case Long =>
        ToBigEndianOfBigEndian(data[2..10]);
    }
  }

  /** The octets after the first two of a successful decode are PackHeader's:
      the extended length, then the masking key. */
  lemma TailIsPacked(data: seq<byte>)
    requires UnpackHeader(data).Ok?
    ensures var r := UnpackHeader(data);
      && WellFormed(r.header) && Fits(r.header.payloadLength, FormOf(data[1]))
      && PackHeader(r.header, FormOf(data[1]))[2..] == data[..r.size][2..]
  {
    var r := UnpackHeader(data);
    var h, n := r.header, r.size;
    var form := FormOf(data[1]);
    var width := ExtendedWidth(form);
    UnpackedFits(data);
    ExtendedLengthIsPacked(data);
    KeyIsPacked(data);
    var packed, head := PackHeader(h, form), data[..n];
    assert |packed| == |head|;
    assert packed[2..2 + width] == head[2..2 + width];
    SameParts(packed, head, 2, 2 + width);
  }

  /** The octets after the extended length of a successful decode are
      PackHeader's: the masking key, or nothing without MASK. */
  lemma KeyIsPacked(data: seq<byte>)
    requires UnpackHeader(data).Ok?
    ensures var r, form := UnpackHeader(data), FormOf(data[1]);
      && WellFormed(r.header) && Fits(r.header.payloadLength, form)
      && PackHeader(r.header, form)[2 + ExtendedWidth(form)..] == data[..r.size][2 + ExtendedWidth(form)..]
  {
    var r := UnpackHeader(data);
    var h, n := r.header, r.size;
    var form := FormOf(data[1]);
    var width := ExtendedWidth(form);
    UnpackedFits(data);
    PackedLayout(h, form);
    assert data[..n][2 + width..] == data[2 + width..n];
  }

  /** Two sequences that agree from `i` to `k` and from `k` on agree from `i` on. */
  lemma SameParts(a: seq<byte>, b: seq<byte>, i: nat, k: nat)
    requires i <= k <= |a| == |b|
    requires a[i..k] == b[i..k] && a[k..] == b[k..]
    ensures a[i..] == b[i..]
  {
    assert forall j | i <= j < |a| :: a[j] == b[j] by {
      forall j | i <= j < |a|
        ensures a[j] == b[j]
      {
        if j < k {
          assert a[j] == a[i..k][j - i];
        } else {
          assert a[j] == a[k..][j - k];
        }
      }
    }
  }

  /** Two sequences that agree on their first two elements and after them are equal. */
  lemma SameHeadSameSeq(a: seq<byte>, b: seq<byte>)
    requires 2 <= |a| == |b|
    requires a[0] == b[0] && a[1] == b[1] && a[2..] == b[2..]
    ensures a == b
  {
    assert a == [a[0], a[1]] + a[2..];
    assert b == [b[0], b[1]] + b[2..];
  }

  /** A successful decode read exactly the encoding of the header it returns:
      the first `size` octets are PackHeader of that header, in the form octet 1 announces. */
  lemma UnpackIsPacked(data: seq<byte>)
    requires UnpackHeader(data).Ok?
    ensures var r := UnpackHeader(data);
      && WellFormed(r.header)
      && Fits(r.header.payloadLength, FormOf(data[1]))
      && data[..r.size] == PackHeader(r.header, FormOf(data[1]))
  {
    var r := UnpackHeader(data);
    var h, n := r.header, r.size;
    var form := FormOf(data[1]);
    UnpackedFits(data);
    TailIsPacked(data);
    var packed := PackHeader(h, form);
    FirstOctetIsPacked(data, h, form);
    SecondOctetIsPacked(data, h);
    SameHeadSameSeq(packed, data[..n]);
  }

  /** The decoder reads nothing at or beyond the header size it returns: any
      input that agrees on the first `size` octets decodes the same way. */
  lemma UnpackReadsOnlyHeader(data: seq<byte>, rest: seq<byte>)
    requires UnpackHeader(data).Ok?
    ensures var r := UnpackHeader(data);
      UnpackHeader(data[..r.size] + rest) == r
  {
    var r := UnpackHeader(data);
    UnpackIsPacked(data);
    PackThenUnpack(r.header, FormOf(data[1]), rest);
  }
}
