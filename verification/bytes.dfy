/** Octets and network-byte-order (big-endian) unsigned integers, as read by
    `binary.BigEndian.Uint16` and `binary.BigEndian.Uint64`. */
module Bytes {

  /** One octet of the wire format. */
  type byte = bv8

  const TWO_TO_THE_16: nat := 0x1_0000
  const TWO_TO_THE_64: nat := 0x1_0000_0000_0000_0000

  /** Go's `uint64`. */
  type uint64 = x: nat | x < TWO_TO_THE_64

  /** 256 to the power `k`: one more than the largest value `k` octets can hold. */
  function Pow256(k: nat): (p: nat)
    ensures p >= 1
  {
    if k == 0 then 1 else 256 * Pow256(k - 1)
  }

  lemma Pow256Widths()
    ensures Pow256(2) == TWO_TO_THE_16
    ensures Pow256(8) == TWO_TO_THE_64
  {
    assert Pow256(1) == 256;
    assert Pow256(2) == 0x1_0000;
    assert Pow256(4) == 0x1_0000_0000 by {
      assert Pow256(3) == 0x100_0000;
    }
    assert Pow256(6) == 0x1_0000_0000_0000 by {
      assert Pow256(5) == 0x100_0000_0000;
    }
    assert Pow256(7) == 0x100_0000_0000_0000;
  }

  /** The unsigned integer the octets `s` spell out, most significant octet first. */
  function BigEndian(s: seq<byte>): (n: nat)
    ensures n < Pow256(|s|)
  {
    if |s| == 0 then 0
    else
      var high := BigEndian(s[..|s| - 1]);
      assert high * 256 + 255 < Pow256(|s|) by {
        assert high + 1 <= Pow256(|s| - 1);
        assert (high + 1) * 256 <= Pow256(|s| - 1) * 256;
      }
      high * 256 + s[|s| - 1] as nat
  }

  /** The `width` low-order octets of `n`, most significant first. */
  function ToBigEndian(n: nat, width: nat): (s: seq<byte>)
    ensures |s| == width
  {
    if width == 0 then [] else ToBigEndian(n / 256, width - 1) + [ByteOf(n % 256)]
  }

  /** Two octets read in network byte order. */
  lemma BigEndianTwo(s: seq<byte>)
    requires |s| == 2
    ensures BigEndian(s) == s[0] as nat * 256 + s[1] as nat
  {
    assert s[..1][..0] == [];
  }

  /** Doubling a value below 128 and adding a bit stays within the octet. */
  lemma ShiftInBit(high: byte, bit: byte)
    requires high as nat < 128 && bit as nat <= 1
    ensures (high * 2 + bit) as nat == high as nat * 2 + bit as nat
  {
  }

  /** The octet holding a value below 256, assembled one bit at a time from the most significant. */
  function ByteOf(x: nat): (b: byte)
    requires x < 256
    ensures b as nat == x
  {
    if x == 0 then 0
    else
      var high := ByteOf(x / 2);
      var bit: byte := if x % 2 == 1 then 1 else 0;
      assert bit as nat == x % 2;
      ShiftInBit(high, bit);
      high * 2 + bit
  }

  /** An octet is the octet of its own value. */
  lemma ByteOfValue(b: byte)
    ensures ByteOf(b as nat) == b
  {
    SameValueSameByte(ByteOf(b as nat), b);
  }

  /** Octets with the same value are the same octet. */
  lemma SameValueSameByte(a: byte, b: byte)
    requires a as nat == b as nat
    ensures a == b
  {
  }

  lemma DivideBound(n: nat, p: nat)
    requires n < p * 256
    ensures n / 256 < p
  {
  }

  /** Writing a value that fits and reading it back gives the value. */
  lemma {:induction false} BigEndianOfToBigEndian(n: nat, width: nat)
    requires n < Pow256(width)
    ensures BigEndian(ToBigEndian(n, width)) == n
  {
    if width > 0 {
      var s := ToBigEndian(n, width);
      var q, r := n / 256, n % 256;
      assert n == q * 256 + r;
      DivideBound(n, Pow256(width - 1));
      assert s[..width - 1] == ToBigEndian(q, width - 1);
      assert s[width - 1] as nat == r;
      BigEndianOfToBigEndian(q, width - 1);
      assert BigEndian(s) == BigEndian(s[..width - 1]) * 256 + s[width - 1] as nat;
    }
  }

  /** Reading octets and writing the value back at the same width gives the octets. */
  lemma {:induction false} ToBigEndianOfBigEndian(s: seq<byte>)
    ensures ToBigEndian(BigEndian(s), |s|) == s
  {
    if |s| > 0 {
      var k := |s| - 1;
      var n := BigEndian(s);
      assert n / 256 == BigEndian(s[..k]);
      assert n % 256 == s[k] as nat;
      ByteOfValue(s[k]);
      ToBigEndianOfBigEndian(s[..k]);
      assert s == s[..k] + [s[k]];
    }
  }
}
