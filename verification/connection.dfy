/** One iteration of the connection's read loop after the header has been
    read: which bytes are unmasked and delivered as the frame's message.
    The loop itself (blocking reads, end of stream, closing) is not modelled;
    `data` is what one read placed at the front of the 1024-octet buffer. */
module Connection {
  import opened Bytes
  import opened Frame
  import opened Masking

  /** The capacity of the buffer each read fills. */
  const BUFFER_SIZE: nat := 1024

  const TWO_TO_THE_63: int := 0x8000_0000_0000_0000

  /** Go's conversion to a 64-bit `int`: the value modulo 2^64, read as two's complement. */
  function ToInt64(x: int): (r: int)
    ensures -TWO_TO_THE_63 <= r < TWO_TO_THE_63
    ensures (x - r) % TWO_TO_THE_64 == 0
    ensures -TWO_TO_THE_63 <= x < TWO_TO_THE_63 ==> r == x
  {
    var m := x % TWO_TO_THE_64;
    if m >= TWO_TO_THE_63 then m - TWO_TO_THE_64 else m
  }

  /** What one iteration does with the octets it read. */
  datatype Step =
    | Closed                      // the header did not decode: the connection is closed
    | Message(payload: seq<byte>) // the unmasked payload is delivered
    | Panic                       // a slice bound is out of range
    | Truncated                   // the payload does not lie within the octets read

  // ---------------------------------------------------------------------
  // As written

  /** The iteration as written: the header is decoded from the `n` octets read,
      but the payload is sliced from the whole buffer, at
      `sz : sz + int(PayloadLength)`, without comparing its end with `n`. */
  function ReadStepAsWritten(buffer: seq<byte>, n: nat): (s: Step)
    requires |buffer| == BUFFER_SIZE && n <= |buffer|
    ensures s == Closed <==> UnpackHeader(buffer[..n]).Err?
    ensures var r := UnpackHeader(buffer[..n]);
      s == Panic <==> r.Ok? && r.size + r.header.payloadLength > BUFFER_SIZE
    // every decoded frame that fits the buffer is answered with the buffer's
    // octets after the header, whether or not the read supplied them
    ensures var r := UnpackHeader(buffer[..n]);
      r.Ok? && r.size + r.header.payloadLength <= BUFFER_SIZE ==>
        s == Message(Unmask(buffer[r.size..r.size + r.header.payloadLength], r.header.maskingKey))
  {
    match UnpackHeader(buffer[..n])
    case Err(_) => Closed
    case Ok(h, sz) => SliceAsWritten(buffer, h, sz)
  }

  /** The payload slice as written, `buffer[sz : sz + int(PayloadLength)]`,
      taken from the whole buffer after a header of `sz` octets. */
  function SliceAsWritten(buffer: seq<byte>, h: FrameHeader, sz: nat): (s: Step)
    requires |buffer| == BUFFER_SIZE && sz <= 14
    ensures s == Panic <==> sz + h.payloadLength > BUFFER_SIZE
    ensures s != Panic ==>
      s == Message(Unmask(buffer[sz..sz + h.payloadLength], h.maskingKey))
  {
    SliceEndAsWritten(sz, h.payloadLength);
    var high := ToInt64(sz + ToInt64(h.payloadLength));
    if high < sz || high > |buffer| then Panic
    else Message(Unmask(buffer[sz..high], h.maskingKey))
  }

  /** The slice end the iteration computes, `sz + int(PayloadLength)` in 64-bit
      arithmetic, is out of range exactly when the true end passes the buffer. */
  lemma SliceEndAsWritten(sz: nat, length: uint64)
    requires sz <= 14
    ensures var high := ToInt64(sz + ToInt64(length));
      && ((high < sz || high > BUFFER_SIZE) <==> sz + length > BUFFER_SIZE)
      && (sz <= high <= BUFFER_SIZE ==> high == sz + length)
  {
    if length >= TWO_TO_THE_63 {
      assert ToInt64(length) == length - TWO_TO_THE_64;
    } else if sz + length >= TWO_TO_THE_63 {
      assert ToInt64(sz + length) == sz + length - TWO_TO_THE_64;
    }
  }

  /** A frame announcing more payload than was read is answered with octets
      the read did not deliver: here the five octets after a two-octet header
      that arrived alone. */
  lemma StaleOctetsDelivered()
    ensures var buffer := [0x81, 0x05] + seq(BUFFER_SIZE - 2, _ => 0x41);
      ReadStepAsWritten(buffer, 2) == Message(buffer[2..7])
  {
    var buffer: seq<byte> := [0x81, 0x05] + seq(BUFFER_SIZE - 2, _ => 0x41);
    var r := UnpackHeader(buffer[..2]);
    assert buffer[..2] == [0x81, 0x05];
    assert r.Ok? && r.size == 2 && r.header.payloadLength == 5 && !r.header.mask;
    UnmaskZeroKey(buffer[2..7]);
  }

  /** A frame announcing a payload longer than the buffer makes the slice panic. */
  lemma LongFramePanics(buffer: seq<byte>)
    requires |buffer| == BUFFER_SIZE
    requires buffer[..4] == [0x82, 0x7E, 0x10, 0x00]
    ensures ReadStepAsWritten(buffer, 4) == Panic
  {
    BigEndianTwo(buffer[2..4]);
    assert buffer[..4][2..4] == buffer[2..4];
  }

  // ---------------------------------------------------------------------
  // Corrected

  /** The iteration with the payload's end checked against the octets read:
      a frame whose payload was not read whole is reported, not sliced from
      stale buffer contents. */
  function ReadStep(data: seq<byte>): (s: Step)
    ensures s == Closed <==> UnpackHeader(data).Err?
    ensures var r := UnpackHeader(data);
      s == Truncated <==> r.Ok? && r.size + r.header.payloadLength > |data|
    ensures s != Panic
    ensures var r := UnpackHeader(data);
      s.Message? ==>
        && r.Ok?
        && |s.payload| == r.header.payloadLength
        && r.size + |s.payload| <= |data|
        && s.payload == Unmask(data[r.size..r.size + r.header.payloadLength], r.header.maskingKey)
  {
    match UnpackHeader(data)
    case Err(_) => Closed
    case Ok(h, sz) => SliceChecked(data, h, sz)
  }

  /** The payload slice with its end checked against the octets read. */
  function SliceChecked(data: seq<byte>, h: FrameHeader, sz: nat): (s: Step)
    requires sz <= |data|
    ensures s == Truncated <==> sz + h.payloadLength > |data|
    ensures s != Truncated ==>
      s == Message(Unmask(data[sz..sz + h.payloadLength], h.maskingKey))
  {
    if h.payloadLength > |data| - sz then Truncated
    else Message(Unmask(data[sz..sz + h.payloadLength], h.maskingKey))
  }

  /** A decoded frame whose payload was read whole delivers that payload, unmasked. */
  lemma ReadStepDelivers(data: seq<byte>, h: FrameHeader, sz: nat)
    requires UnpackHeader(data) == Ok(h, sz)
    requires sz + h.payloadLength <= |data|
    ensures ReadStep(data) == Message(Unmask(data[sz..sz + h.payloadLength], h.maskingKey))
  {
  }

  /** An encoded header followed by at least its payload's worth of octets
      delivers those octets, unmasked with the header's key. */
  lemma PackedFrameDelivers(h: FrameHeader, form: LengthForm, tail: seq<byte>)
    requires WellFormed(h) && Fits(h.payloadLength, form)
    requires h.payloadLength <= |tail|
    ensures ReadStep(PackHeader(h, form) + tail) == Message(Unmask(tail[..h.payloadLength], h.maskingKey))
  {
    var data := PackHeader(h, form) + tail;
    var sz := |PackHeader(h, form)|;
    PackThenUnpack(h, form, tail);
    assert data[sz..sz + h.payloadLength] == tail[..h.payloadLength];
    ReadStepDelivers(data, h, sz);
  }

  /** A frame written as header, masked payload and any following octets is
      read back as its payload: the payload is recovered whether or not the
      frame is masked. */
  lemma FrameRoundTrip(h: FrameHeader, form: LengthForm, payload: seq<byte>, rest: seq<byte>)
    requires WellFormed(h) && Fits(h.payloadLength, form)
    requires |payload| == h.payloadLength
    ensures ReadStep(PackHeader(h, form) + (Unmask(payload, h.maskingKey) + rest)) == Message(payload)
  {
    var body := Unmask(payload, h.maskingKey);
    assert (body + rest)[..h.payloadLength] == body;
    PackedFrameDelivers(h, form, body + rest);
    UnmaskInvolution(payload, h.maskingKey);
  }

  /** Once the payload lies within the `n` octets read, slicing it from the
      whole buffer and from the octets read give the same step. */
  lemma SlicesAgree(buffer: seq<byte>, n: nat, h: FrameHeader, sz: nat)
    requires |buffer| == BUFFER_SIZE && sz <= 14
    requires sz + h.payloadLength <= n <= |buffer|
    ensures SliceAsWritten(buffer, h, sz) == SliceChecked(buffer[..n], h, sz)
  {
    assert buffer[..n][sz..sz + h.payloadLength] == buffer[sz..sz + h.payloadLength];
  }

  /** Where the frame was read whole, the iteration as written and the
      corrected one deliver the same message; they differ only on frames
      whose payload runs past the octets read. */
  lemma AsWrittenAgreesOnWholeFrames(buffer: seq<byte>, n: nat)
    requires |buffer| == BUFFER_SIZE && n <= |buffer|
    requires ReadStep(buffer[..n]) != Truncated
    ensures ReadStepAsWritten(buffer, n) == ReadStep(buffer[..n])
  {
    match UnpackHeader(buffer[..n])
    case Err(_) =>
    case Ok(h, sz) => SlicesAgree(buffer, n, h, sz);
  }
}
