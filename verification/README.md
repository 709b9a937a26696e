# WebSocket frame header decoder, payload unmasking and upgrade guard

A Dafny model of the server side of a minimal WebSocket server written in Go
(`main.go`). It covers these parts:

- **Frame header decoder** (`Frame`). `UnpackHeader` reads the base framing
  header of section 5.2 of RFC 6455:
  - FIN, RSV1-3 and the opcode from octet 0;
  - MASK and the 7-bit payload length from octet 1;
  - an optional 16- or 64-bit extended length in network byte order;
  - an optional 4-octet masking key.

  It returns the header and the number of octets it occupies, or one of
  three truncation errors. An error carries no header.

  An encoder, `PackHeader`, writes a header in any of the three length
  forms. Decoding is proved to invert it in both directions.
- **Network byte order** (`Bytes`). These are the big-endian reads that
  `binary.BigEndian.Uint16` and `Uint64` perform, and the matching writes.
- **Payload unmasking** (`Masking`). This is the XOR transform of section 5.3
  of RFC 6455. It is modelled as a reference function (`Unmask`) and as the
  server's loop (`UnmaskPayload`).
- **Upgrade guard** (`Handshake`). The `/ws` handler upgrades a request (101
  with the three negotiation headers) or refuses it (400 with none). The
  decision depends on the method and on the `Upgrade` and `Connection`
  headers, compared with `strings.EqualFold`. Base64 of SHA-1 is a function
  parameter `digest`.
- **One read iteration** (`Connection`). This is what the streaming loop does
  with the octets of one read. The payload slice it takes at main.go:73 is
  the subject of the finding below.

Octets are `bv8`. The decoder's body uses the same masks as the Go code
(`data[0] & 0x80 != 0`, `data[1] & 0x7F`). Its contract restates every field
in terms of octet values (`data[0] as nat % 128 >= 64`), so the layout can be
read without knowing the masks.

Two behaviours of the code are kept as written:

- The `Connection` header must equal `Upgrade` ignoring case. A header that
  merely contains the token is refused (`ConnectionTokenListRefused`).
  Section 4.2.1 of RFC 6455 asks instead that the header contain the token
  `Upgrade` among possibly others.
- The 16-bit and 64-bit truncations return the same error in the code. They
  are therefore one error kind, `ExtendedLengthTruncated`.

## Model

| member | source | states |
|---|---|---|
| Bytes.BigEndianOfToBigEndian | main.go:155-161 | a value below 256^w written as w octets in network byte order reads back as the same value |
| Bytes.ToBigEndianOfBigEndian | main.go:155-161 | any w octets, read in network byte order and written back at width w, are the same octets |
| Frame.PayloadLengthOf | main.go:147-164 | the payload length is the 7-bit field when it is at most 125, octets 2-3 big-endian for 126, octets 2-9 big-endian for 127 |
| Frame.FirstOctetBits | main.go:140-144 | the masks 0x80, 0x40, 0x20, 0x10 and 0x0F on octet 0 select bits 7, 6, 5, 4 and the low nibble of its value |
| Frame.SecondOctetBits | main.go:146-147 | the masks 0x80 and 0x7F on octet 1 select MASK and the 7-bit length |
| Frame.UnpackHeader | main.go:133-176 | fewer than 2 octets fail with HeaderTooShort; otherwise the decode fails exactly when the header octet 1 announces does not fit, with ExtendedLengthTruncated or MaskingKeyTruncated naming the part cut off. On success: the size is in {2,4,10} without MASK and {6,8,14} with it, and never exceeds the input; the flags are bits 7-4 of octet 0 and the opcode its low nibble (at most 15); MASK is bit 7 of octet 1; the payload length follows the three encodings and is below 2^16 for 126; the key is the last four header octets with MASK and all zeros without |
| Frame.PackThenUnpack | main.go:133-176 | decoding an encoded header, whatever follows it, returns that header and the encoding's length |
| Frame.UnpackIsPacked | main.go:133-176 | every successful decode returns a header the encoder can write, and the octets it consumed are exactly that encoding |
| Frame.UnpackReadsOnlyHeader | main.go:149-175 | no octet at or beyond the returned size affects the decode: replacing everything after it gives the same result |
| Masking.Unmask | main.go:192-198 | the output has the input's length and octet i is `data[i] XOR key[i mod 4]` |
| Masking.UnmaskPayload | main.go:192-198 | the server's loop over a zero-filled buffer computes exactly the masking transform |
| Masking.UnmaskInvolution | main.go:192-198 | unmasking twice with the same key gives back the input |
| Masking.UnmaskZeroKey | main.go:167-173 | the all-zero key an unmasked frame keeps leaves a payload unchanged |
| Handshake.EqualFold | main.go:33 | the pairwise walk returns true exactly when the strings have the same length and agree at every position after ASCII lower-casing |
| Handshake.Handshake | main.go:21-43 | 101 exactly when the method is GET and both header values match ignoring ASCII case; otherwise 400 with no header set; on 101 exactly the three negotiation headers, the accept token computed from the client's key and the GUID; a header field reads as its first value, or as `""` when it is absent or has no value |
| Handshake.MissingUpgradeRefused | main.go:28-37 | a request without an `Upgrade` field is answered 400 with no headers, whatever its method and other fields |
| Handshake.MixedCaseAccepted | main.go:33 | `WebSocket` and `upgrade` are accepted: case is ignored |
| Handshake.ConnectionTokenListRefused | main.go:33-37 | a `Connection` value listing `Upgrade` among other tokens is refused with 400 |
| Connection.ToInt64 | main.go:73 | Go's conversion to `int` lands in the signed 64-bit range, agrees with its argument modulo 2^64, and leaves in-range values alone |
| Connection.SliceEndAsWritten | main.go:73 | the slice end `sz + int(PayloadLength)` in 64-bit arithmetic is out of range exactly when the true end passes the 1024-octet buffer, and is the true end otherwise |
| Connection.SliceAsWritten | main.go:73 | slicing from the whole buffer panics exactly when the payload end passes 1024, and otherwise yields the unmasked octets after the header |
| Connection.ReadStepAsWritten | main.go:65-73 | a read closes the connection exactly when the header does not decode, panics exactly when the announced payload passes the buffer, and otherwise delivers the buffer's octets after the header, unmasked, whether or not they were part of the read |
| Connection.StaleOctetsDelivered | main.go:54-73 | a two-octet read `0x81 0x05` delivers five octets that the read did not supply |
| Connection.LongFramePanics | main.go:73 | a read starting `0x82 0x7E 0x10 0x00` (a 4096-octet payload) panics |
| Connection.ReadStep | main.go:65-73 | corrected iteration: closes exactly when the header does not decode, reports a truncated frame exactly when the payload runs past the octets read, never panics, and otherwise delivers the announced number of octets after the header, all within the read, unmasked with the header's key |
| Connection.SliceChecked | main.go:73 | corrected slice: truncated exactly when the payload end passes the octets read, otherwise the unmasked payload |
| Connection.PackedFrameDelivers | main.go:65-73 | an encoded header followed by at least its payload's worth of octets delivers exactly those octets, unmasked with the header's key |
| Connection.FrameRoundTrip | main.go:65-73 | an encoded header, the payload masked with its key, and any further octets are read back as the payload, masked or not |
| Connection.AsWrittenAgreesOnWholeFrames | main.go:65-73 | on every read that holds its whole frame, the iteration as written and the corrected one deliver the same step |

## Left out

- Base64 of SHA-1 in `computeWebSocketAcceptKey` (main.go:83-88) is the parameter `digest`. Only the argument it receives, the client's key followed by the GUID, is modelled.
- Routing, file serving, `ListenAndServe`, hijacking the connection, writing the response and the blocking `conn.Read` loop (main.go:15-81) are I/O. One iteration is modelled as a function of the octets read; end of stream, read errors and `Close` are not.
- `WSFrameHeader.String` (main.go:178-190) only formats log output.
- Logging and `fmt.Println` of the payload are not modelled. The iteration's result is the octets it would print.
- Handshake.EqualFold: folds ASCII case only. Go's `strings.EqualFold` also applies Unicode simple folding, such as `K` (U+212A) matching `k`.
- Handshake.HeaderGet: looks up the field name as given. Go canonicalises header names, so `upgrade` and `Upgrade` are the same field there.
- Connection.ReadStepAsWritten: assumes a 64-bit `int`. On a 32-bit platform the conversion wraps at 2^32.
- The `Sec-WebSocket-Version` header is not checked by the code (main.go:31 is commented out), so it is not modelled.
- Fragmentation, control frames, reserved bits and mandatory client masking are not interpreted by the code, so they are not modelled either.

## Findings

| source | as written | input that shows it | evidently intended | confidence | as-written member | corrected member |
|---|---|---|---|---|---|---|
| main.go:73 | the payload is sliced from the whole 1024-octet buffer at `sz : sz + int(PayloadLength)`, with no check against the `n` octets read | a read of the two octets `0x81 0x05` delivers five octets left from an earlier read or zeros; a read starting `0x82 0x7E 0x10 0x00` panics with the slice out of range | slice from `buffer[:n]`, and treat a payload running past `n` as an incomplete frame instead of slicing | not executed | Connection.ReadStepAsWritten, Connection.StaleOctetsDelivered, Connection.LongFramePanics | Connection.ReadStep, Connection.FrameRoundTrip |
