/**
  The byte image of the record: what `read` fills the in-memory struct from,
  what `write` stores, and what `crc32` is computed over.

  The real layout of `struct bootloader_control` (field widths, bit-field
  packing, padding) is defined in `bootloader.h`, which is not part of this
  model. The encoding below is a byte-aligned stand-in holding the fields the
  code names, in an order chosen for this model, with the checksum last; the rest of the model relies only
  on what the lemmas here state: it is a bijection between records and
  `RECORD_SIZE`-byte images, and the checksum occupies exactly the trailing
  `CRC_SIZE` bytes.
 */
module Codec {
  import opened BootRecord

  /** `sizeof(uint32_t)`: the width of the trailing `crc32_le` field. */
  const CRC_SIZE: nat := 4
  /** `sizeof(struct bootloader_control)` in this stand-in layout. */
  const RECORD_SIZE: nat := 12

  /** A buffer of exactly one record. */
  type RecordBytes = s: seq<Byte> | |s| == RECORD_SIZE
    witness [0, 0, 0, 0, 0, 0, 0, 0, 0, 0, 0, 0]

  function Le32(v: Uint32): (s: seq<Byte>)
    ensures |s| == 4
  {
    [v % 0x100, v / 0x100 % 0x100, v / 0x1_0000 % 0x100, v / 0x100_0000]
  }

  function FromLe32(s: seq<Byte>): Uint32
    requires |s| == 4
  {
    s[0] as int + 0x100 * s[1] as int + 0x1_0000 * s[2] as int + 0x100_0000 * s[3] as int
  }

  /** One slot packed as priority (4 bits), tries (3 bits), successful (1 bit). */
  function EncodeSlot(s: SlotInfo): Byte {
    s.priority + 16 * s.triesRemaining + (if s.successfulBoot then 128 else 0)
  }

  function DecodeSlot(b: Byte): SlotInfo {
    SlotInfo(b % 16, b / 16 % 8, b >= 128)
  }

  function Encode(r: BootControl): RecordBytes {
    Le32(r.magic)
    + [r.version, EncodeSlot(r.slotA), EncodeSlot(r.slotB), r.recoveryTriesRemaining]
    + Le32(r.crc32Le)
  }

  function Decode(s: RecordBytes): BootControl {
    BootControl(FromLe32(s[0..4]), s[4], DecodeSlot(s[5]), DecodeSlot(s[6]), s[7], FromLe32(s[8..12]))
  }

  /**
    The bytes `crc32` runs over: `sizeof(struct bootloader_control) - sizeof(uint32_t)`
    bytes from the start of the record.
   */
  function CrcInput(r: BootControl): (s: seq<Byte>)
    ensures |s| == RECORD_SIZE - CRC_SIZE
  {
    Encode(r)[..RECORD_SIZE - CRC_SIZE]
  }

  lemma Le32RoundTrip(v: Uint32)
    ensures FromLe32(Le32(v)) == v
  {
  }

  lemma {:induction false} FromLe32RoundTrip(s: seq<Byte>)
    requires |s| == 4
    ensures Le32(FromLe32(s)) == s
  {
    var v := FromLe32(s);
    assert v % 0x100 == s[0];
    assert v / 0x100 == s[1] as int + 0x100 * s[2] as int + 0x1_0000 * s[3] as int;
    assert v / 0x1_0000 == s[2] as int + 0x100 * s[3] as int;
    assert v / 0x100_0000 == s[3];
  }

  lemma SlotRoundTrip(s: SlotInfo)
    ensures DecodeSlot(EncodeSlot(s)) == s
  {
  }

  lemma SlotByteRoundTrip(b: Byte)
    ensures EncodeSlot(DecodeSlot(b)) == b
  {
    assert b == b % 16 + 16 * (b / 16 % 8) + (if b >= 128 then 128 else 0);
  }

  /** Decoding what was encoded gives the record back. */
  lemma DecodeEncode(r: BootControl)
    ensures Decode(Encode(r)) == r
  {
    var s := Encode(r);
    assert s[0..4] == Le32(r.magic);
    assert s[8..12] == Le32(r.crc32Le);
    Le32RoundTrip(r.magic);
    Le32RoundTrip(r.crc32Le);
    SlotRoundTrip(r.slotA);
    SlotRoundTrip(r.slotB);
  }

  /** Every one-record buffer is the image of exactly the record it decodes to. */
  lemma {:induction false} EncodeDecode(s: RecordBytes)
    ensures Encode(Decode(s)) == s
  {
    FromLe32RoundTrip(s[0..4]);
    FromLe32RoundTrip(s[8..12]);
    SlotByteRoundTrip(s[5]);
    SlotByteRoundTrip(s[6]);
    assert s == s[0..4] + [s[4], s[5], s[6], s[7]] + s[8..12];
  }

  /** The checksum field is the trailing `CRC_SIZE` bytes and is outside its own input. */
  lemma CrcInputIgnoresCrc(r: BootControl, c: Uint32)
    ensures CrcInput(r.(crc32Le := c)) == CrcInput(r)
    ensures Encode(r)[RECORD_SIZE - CRC_SIZE..] == Le32(r.crc32Le)
  {
  }
}
