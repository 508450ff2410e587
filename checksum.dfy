/**
  zlib's `crc32`: the CRC-32 of ISO 3309 / ITU-T V.42 (the sample code of
  section 8 of RFC 1952), computed bit by bit with the reflected polynomial.
  `Crc32(data)` is what `crc32(0, data, len)` returns.
 */
module Checksum {
  import opened BootRecord

  /** The reflected form of the generator polynomial 0x04C11DB7. */
  const POLYNOMIAL: bv32 := 0xEDB8_8320

  /** `n` rounds of shift-and-conditionally-xor on the running register. */
  function Shift(c: bv32, n: nat): bv32
    decreases n
  {
    if n == 0 then c
    else Shift(if c & 1 == 1 then (c >> 1) ^ POLYNOMIAL else c >> 1, n - 1)
  }

  function UpdateByte(c: bv32, b: Byte): bv32 {
    Shift(c ^ (b as bv32), 8)
  }

  /** The register after feeding `data` into it, starting from `c`. */
  function Update(c: bv32, data: seq<Byte>): bv32
    decreases |data|
  {
    if |data| == 0 then c else Update(UpdateByte(c, data[0]), data[1..])
  }

  /** The register starts at all ones and is complemented at the end. */
  function Crc32(data: seq<Byte>): Uint32 {
    (!Update(0xFFFF_FFFF, data)) as int
  }

  /**
    The standard check value of this CRC: the nine ASCII digits "123456789"
    give 0xCBF43926, so `Crc32` is zlib's CRC-32 and not some other variant.
   */
  lemma CheckValue()
    ensures Crc32([0x31, 0x32, 0x33, 0x34, 0x35, 0x36, 0x37, 0x38, 0x39]) == 0xCBF4_3926
  {
    // the register after each digit
    assert UpdateByte(0xFFFF_FFFF, 0x31) == 0x7C23_1048;
    assert UpdateByte(0x7C23_1048, 0x32) == 0xB0AC_BB32;
    assert UpdateByte(0xB0AC_BB32, 0x33) == 0x77B7_9C2D;
    assert UpdateByte(0x77B7_9C2D, 0x34) == 0x641C_1F5C;
    assert UpdateByte(0x641C_1F5C, 0x35) == 0x340A_C5E3;
    assert UpdateByte(0x340A_C5E3, 0x36) == 0xF68D_2C9E;
    assert UpdateByte(0xF68D_2C9E, 0x37) == 0xAFFC_9660;
    assert UpdateByte(0xAFFC_9660, 0x38) == 0x651F_2550;
    assert UpdateByte(0x651F_2550, 0x39) == 0x340B_C6D9;
  }
}
