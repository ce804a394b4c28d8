/** The fixed-width Ethereum integer and address types the relay works with. */
module EthTypes {
  import opened Numerals

  const U256_MODULUS: nat := 0x1_0000_0000_0000_0000_0000_0000_0000_0000_0000_0000_0000_0000_0000_0000_0000_0000
  /** An address is 20 bytes, so as a number it lies below 2^160. */
  const ADDRESS_MODULUS: nat := 0x1_0000_0000_0000_0000_0000_0000_0000_0000_0000_0000
  const U64_MODULUS: nat := 0x1_0000_0000_0000_0000

  type byte = x: int | 0 <= x < 256
  /** `ethers_core::types::U256`: arithmetic on it panics on overflow instead of wrapping. */
  type U256 = x: nat | x < U256_MODULUS
  /** `ethers_core::types::U64`, the type of an EIP-1559 transaction's chain id. */
  type U64 = x: nat | x < U64_MODULUS

  /** `ethers_core::types::Address` (H160): 20 bytes, most significant first. */
  type Address = s: seq<byte> | |s| == 20
    witness seq(20, _ => 0)

  /** The number an address denotes, read big-endian. */
  function AddressValue(a: Address): (n: nat)
    ensures n < ADDRESS_MODULUS
  {
    FromDigitsBound(a, 256);
    WidthModuli();
    FromDigits(a, 256)
  }

  /** The byte and nibble widths of the fixed-size types, as powers. */
  lemma WidthModuli()
    ensures Pow(256, 32) == U256_MODULUS
    ensures Pow(256, 20) == ADDRESS_MODULUS
    ensures Pow(16, 64) == U256_MODULUS
  {
    ByteWidths();
    NibbleWidth();
  }

  lemma ByteWidths()
    ensures Pow(256, 32) == U256_MODULUS
    ensures Pow(256, 20) == ADDRESS_MODULUS
  {
    assert Pow(256, 10) == 0x1_0000_0000_0000_0000_0000;
    assert Pow(256, 20) == 0x1_0000_0000_0000_0000_0000 * Pow(256, 10);
    assert Pow(256, 32) == 0x1_0000_0000_0000_0000_0000_0000 * Pow(256, 20);
  }

  lemma NibbleWidth()
    ensures Pow(16, 64) == U256_MODULUS
  {
    assert Pow(16, 10) == 0x100_0000_0000;
    assert Pow(16, 20) == 0x100_0000_0000 * Pow(16, 10);
    assert Pow(16, 30) == 0x100_0000_0000 * Pow(16, 20);
    assert Pow(16, 40) == 0x100_0000_0000 * Pow(16, 30);
    assert Pow(16, 50) == 0x100_0000_0000 * Pow(16, 40);
    assert Pow(16, 60) == 0x100_0000_0000 * Pow(16, 50);
    assert Pow(16, 64) == 0x1_0000 * Pow(16, 60);
  }
}
