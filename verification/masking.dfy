/** Payload masking, section 5.3 of RFC 6455: octet `i` of the payload is
    XORed with octet `i mod 4` of the frame's masking key. The same transform
    masks and unmasks. */
module Masking {
  import opened Bytes
  import opened Frame

  /** The masking transform, defined one octet at a time from the front. */
  function Unmask(data: seq<byte>, key: MaskingKey): (out: seq<byte>)
    ensures |out| == |data|
    ensures forall i :: 0 <= i < |data| ==> out[i] == data[i] ^ key[i % 4]
  {
    if |data| == 0 then []
    else
      var k := |data| - 1;
      Unmask(data[..k], key) + [data[k] ^ key[k % 4]]
  }

  /** The server's loop: a zero-filled buffer of the payload's length, with
      octet `i` overwritten by `data[i] ^ key[i % 4]` in turn. */
  method UnmaskPayload(data: seq<byte>, key: MaskingKey) returns (unmasked: seq<byte>)
    ensures unmasked == Unmask(data, key)
  {
    unmasked := seq(|data|, _ => 0);
    for i := 0 to |data|
      invariant |unmasked| == |data|
      invariant forall j :: 0 <= j < i ==> unmasked[j] == data[j] ^ key[j % 4]
    {
      unmasked := unmasked[i := data[i] ^ key[i % 4]];
    }
  }

  /** Unmasking what was masked with the same key gives back the original octets. */
  lemma UnmaskInvolution(data: seq<byte>, key: MaskingKey)
    ensures Unmask(Unmask(data, key), key) == data
  {
    var once := Unmask(data, key);
    var twice := Unmask(once, key);
    forall i | 0 <= i < |data|
      ensures twice[i] == data[i]
    {
      assert twice[i] == (data[i] ^ key[i % 4]) ^ key[i % 4];
    }
  }

  /** The all-zero key an unmasked frame's header carries leaves a payload unchanged. */
  lemma UnmaskZeroKey(data: seq<byte>)
    ensures Unmask(data, ZERO_KEY) == data
  {
    var out := Unmask(data, ZERO_KEY);
    forall i | 0 <= i < |data|
      ensures out[i] == data[i]
    {
      assert ZERO_KEY[i % 4] == 0;
    }
  }
}
