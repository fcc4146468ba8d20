/**
 * Bytes, text and fixed-width little-endian integers.
 *
 * The packer writes integer length prefixes with `to_ne_bytes` and the
 * loaders read them back with `from_ne_bytes`; this model fixes the byte
 * order to little-endian. Rust `String` and `&str` values are modelled as
 * their UTF-8 bytes (`Text`), so `as_bytes` and `from_utf8_unchecked` are
 * identities here.
 */
module Bytes {

  type byte = b: int | 0 <= b < 0x100

  /** The UTF-8 bytes of a Rust `String` or `&str`. */
  type Text = seq<byte>

  const U8_MAX: nat := 0xFF
  const U16_MAX: nat := 0xFFFF
  const U32_MAX: nat := 0xFFFF_FFFF

  /** 256 to the power `width`: the number of values a `width`-byte integer holds. */
  function Pow256(width: nat): (r: nat)
    ensures r > 0
  {
    if width == 0 then 1 else 0x100 * Pow256(width - 1)
  }

  lemma Pow256Widths()
    ensures Pow256(1) == U8_MAX + 1
    ensures Pow256(2) == U16_MAX + 1
    ensures Pow256(4) == U32_MAX + 1
    ensures Pow256(8) == 0x1_0000_0000_0000_0000
  {
    assert Pow256(0) == 1;
    assert Pow256(1) == 0x100;
    assert Pow256(2) == 0x1_0000;
    assert Pow256(3) == 0x100_0000;
    assert Pow256(4) == 0x1_0000_0000;
    assert Pow256(5) == 0x100_0000_0000;
    assert Pow256(6) == 0x1_0000_0000_0000;
    assert Pow256(7) == 0x100_0000_0000_0000;
  }

  /** `n` written as `width` bytes, least significant first (`to_le_bytes`). */
  function LittleEndian(n: nat, width: nat): (r: seq<byte>)
    requires n < Pow256(width)
    ensures |r| == width
  {
    if width == 0 then []
    else
      DivideBelowPower(n, width);
      [n % 0x100] + LittleEndian(n / 0x100, width - 1)
  }

  /** The unsigned integer whose little-endian bytes are `s` (`from_le_bytes`). */
  function FromLittleEndian(s: seq<byte>): (n: nat)
    ensures n < Pow256(|s|)
  {
    if |s| == 0 then 0
    else
      var rest := FromLittleEndian(s[1..]);
      assert rest <= Pow256(|s| - 1) - 1;
      assert 0x100 * rest <= 0x100 * (Pow256(|s| - 1) - 1);
      s[0] + 0x100 * rest
  }

  lemma DivideBelowPower(n: nat, width: nat)
    requires width > 0 && n < Pow256(width)
    ensures n / 0x100 < Pow256(width - 1)
  {
  }

  /** Reading back what was written gives the original integer. */
  lemma {:induction false} FromLittleEndianInverse(n: nat, width: nat)
    requires n < Pow256(width)
    ensures FromLittleEndian(LittleEndian(n, width)) == n
  {
    if width > 0 {
      DivideBelowPower(n, width);
      var s := LittleEndian(n, width);
      assert s[1..] == LittleEndian(n / 0x100, width - 1);
      FromLittleEndianInverse(n / 0x100, width - 1);
    }
  }

  /** Writing what was read gives the original bytes. */
  lemma {:induction false} LittleEndianInverse(s: seq<byte>)
    ensures LittleEndian(FromLittleEndian(s), |s|) == s
  {
    if |s| > 0 {
      var n := FromLittleEndian(s);
      LittleEndianInverse(s[1..]);
      assert n % 0x100 == s[0];
      assert n / 0x100 == FromLittleEndian(s[1..]);
    }
  }
}
