/**
  The integrity validator of `bootctrl.c`: magic, version and checksum checks,
  composed in a fixed short-circuit order.
 */
module Validator {
  import opened BootRecord
  import opened Codec
  import opened Checksum

  /** `{'\0', 'S', 'T', 0x00}`: the bytes the magic number is assembled from. */
  const MAGIC_BUFFER: seq<Byte> := [0, 'S' as int, 'T' as int, 0]

  /** `buffer[0] << 24 | buffer[1] << 16 | buffer[2] << 8 | buffer[3]` */
  function BigEndian32(buffer: seq<Byte>): Uint32
    requires |buffer| == 4
  {
    (((buffer[0] as bv32) << 24) | ((buffer[1] as bv32) << 16)
      | ((buffer[2] as bv32) << 8) | (buffer[3] as bv32)) as int
  }

  /** The magic number both the library and the generator build. */
  function ExpectedMagic(): (m: Uint32)
    ensures m == 0x0053_5400
  {
    BigEndian32(MAGIC_BUFFER)
  }

  /** `bootctrl_check_magic`: the stored magic is the one assembled from `MAGIC_BUFFER`. */
  predicate CheckMagic(b: BootControl)
    ensures CheckMagic(b) <==> b.magic == 0x0053_5400
  {
    b.magic == ExpectedMagic()
  }

  /** `bootctrl_check_version`: the record has the library's layout version. */
  predicate CheckVersion(b: BootControl) {
    b.version == BOOTCTRL_VERSION
  }

  /**
    `bootctrl_check_crc`: the stored checksum equals the CRC-32 of every byte
    before it; equivalently, the record's trailing bytes are that CRC in
    little-endian order.
   */
  predicate CheckCrc(b: BootControl)
    ensures CheckCrc(b) <==> Encode(b)[RECORD_SIZE - CRC_SIZE..] == Le32(Crc32(CrcInput(b)))
  {
    CrcInputIgnoresCrc(b, b.crc32Le);
    Le32RoundTrip(b.crc32Le);
    Le32RoundTrip(Crc32(CrcInput(b)));
    b.crc32Le == Crc32(CrcInput(b))
  }

  /** Which of the three checks rejected the record first, if any. */
  datatype Verdict = Passed | WrongMagic | WrongVersion | WrongCrc

  /**
    The checks in the order `bootctrl_check_metadata` runs them; the verdict
    names the warning it logs. A later check only runs once every earlier one
    has passed.
   */
  function Diagnose(b: BootControl): (v: Verdict)
    ensures v == WrongMagic <==> !CheckMagic(b)
    ensures v == WrongVersion <==> CheckMagic(b) && !CheckVersion(b)
    ensures v == WrongCrc <==> CheckMagic(b) && CheckVersion(b) && !CheckCrc(b)
  {
    if !CheckMagic(b) then WrongMagic
    else if !CheckVersion(b) then WrongVersion
    else if !CheckCrc(b) then WrongCrc
    else Passed
  }

  /** The record is trusted exactly when magic, version and CRC all match. */
  predicate CheckMetadata(b: BootControl)
    ensures CheckMetadata(b) <==> CheckMagic(b) && CheckVersion(b) && CheckCrc(b)
  {
    Diagnose(b) == Passed
  }

  /**
    A wrong magic decides the verdict whatever the version and stored CRC are:
    neither later check can change the outcome.
   */
  lemma WrongMagicDecides(b: BootControl, version: Byte, crc: Uint32)
    requires !CheckMagic(b)
    ensures Diagnose(b.(version := version, crc32Le := crc)) == WrongMagic
  {
  }

  /** With the right magic, a wrong version decides the verdict whatever the CRC is. */
  lemma WrongVersionDecides(b: BootControl, crc: Uint32)
    requires CheckMagic(b) && !CheckVersion(b)
    ensures Diagnose(b.(crc32Le := crc)) == WrongVersion
  {
  }

  /**
    The record with `crc32_le` recomputed over its other bytes, as
    `bootctrl_write_metadata` and the generator do it before writing.
   */
  function RefreshCrc(b: BootControl): (r: BootControl)
    ensures CheckCrc(r)
    ensures r == b.(crc32Le := r.crc32Le)
  {
    var c := Crc32(CrcInput(b));
    CrcInputIgnoresCrc(b, c);
    b.(crc32Le := c)
  }

  /** Refreshing the CRC turns a record with the right magic and version into a valid one. */
  lemma RefreshedIsValid(b: BootControl)
    requires CheckMagic(b) && CheckVersion(b)
    ensures CheckMetadata(RefreshCrc(b))
  {
  }
}
