/**
  The read-modify-write store of `bootctrl.c`: one record at a fixed offset
  of the misc partition.

  The system calls are an oracle: each call is handed the outcomes of
  `open`, `lseek`, `read`/`write` and the `errno` left behind as parameters.
  The fixed offset (`BOOTCTRL_OFFSET_SUFFIX`) is implicit: `region` is the
  record-sized window of the partition that starts there.
 */
module Store {
  import opened Wrappers
  import opened BootRecord
  import opened Codec
  import opened Validator
  import opened Checksum

  /**
    The value `errno` holds when an operation returns. It is usually a positive
    error code, but a validation failure or a short `write` sets none, so it
    may be 0 or left over from an earlier call.
   */
  type Errno = nat

  /**
    Outcomes of one `bootctrl_read_metadata`: whether `open` and `lseek`
    succeed, what `read` returns once it is no longer interrupted (-1, or a
    byte count that may be short), what the caller's uninitialised struct held
    before, and `errno` afterwards.
   */
  datatype ReadIo = ReadIo(openOk: bool, seekOk: bool, numRead: int, stale: BootControl, errno: Errno)

  /** Outcomes of one `bootctrl_write_metadata`, `write` returning -1 or a byte count. */
  datatype WriteIo = WriteIo(openOk: bool, seekOk: bool, numWritten: int, errno: Errno)

  /** How many bytes of the record a `read` or `write` returning `n` moved. */
  function Transferred(n: int): (k: nat)
    ensures k <= RECORD_SIZE
    ensures n >= RECORD_SIZE ==> k == RECORD_SIZE
    ensures 0 <= n <= RECORD_SIZE ==> k == n
  {
    if n <= 0 then 0 else if n >= RECORD_SIZE then RECORD_SIZE else n
  }

  /** The first `k` bytes of `front` followed by the rest of `back`. */
  function Splice(front: RecordBytes, back: RecordBytes, k: nat): (s: RecordBytes)
    requires k <= RECORD_SIZE
    ensures forall i :: 0 <= i < RECORD_SIZE ==> s[i] == if i < k then front[i] else back[i]
  {
    front[..k] + back[k..]
  }

  /**
    The struct after `read`: the bytes read from the partition, then whatever
    the struct held before. The source never compares the byte count with the
    record size, so a short read still goes on to validation.
   */
  function Loaded(region: RecordBytes, rio: ReadIo): (l: BootControl)
    ensures forall i :: 0 <= i < RECORD_SIZE ==>
      Encode(l)[i] == if i < Transferred(rio.numRead) then region[i] else Encode(rio.stale)[i]
    ensures Transferred(rio.numRead) == 0 ==> l == rio.stale
  {
    var bytes := Splice(region, Encode(rio.stale), Transferred(rio.numRead));
    EncodeDecode(bytes);
    DecodeEncode(rio.stale);
    Decode(bytes)
  }

  /** `bootctrl_read_metadata` returns true. */
  predicate ReadSucceeds(region: RecordBytes, rio: ReadIo) {
    rio.openOk && rio.seekOk && CheckMetadata(Loaded(region, rio))
  }

  /** `bootctrl_write_metadata` returns true: the whole record was written. */
  predicate WriteSucceeds(wio: WriteIo) {
    wio.openOk && wio.seekOk && wio.numWritten == RECORD_SIZE
  }

  /**
    The partition after writing `b`: nothing changes unless open and seek
    succeed; then the written prefix of `b` with a recomputed CRC replaces the
    old bytes (all of them on a full write).
   */
  function Written(region: RecordBytes, b: BootControl, wio: WriteIo): (w: RecordBytes)
    ensures !(wio.openOk && wio.seekOk) ==> w == region
    ensures wio.openOk && wio.seekOk ==> forall i :: 0 <= i < RECORD_SIZE ==>
      w[i] == if i < Transferred(wio.numWritten) then Encode(RefreshCrc(b))[i] else region[i]
    ensures WriteSucceeds(wio) ==> Decode(w) == RefreshCrc(b)
  {
    DecodeEncode(RefreshCrc(b));
    if wio.openOk && wio.seekOk then Splice(Encode(RefreshCrc(b)), region, Transferred(wio.numWritten))
    else region
  }

  /** A complete read loads exactly the record stored on the partition. */
  lemma FullReadLoadsStored(region: RecordBytes, rio: ReadIo)
    requires rio.numRead >= RECORD_SIZE
    ensures Loaded(region, rio) == Decode(region)
  {
  }

  /**
    After a successful write of a record with the right magic and version,
    a complete read succeeds and returns that record with its CRC refreshed.
   */
  lemma WriteThenRead(region: RecordBytes, b: BootControl, wio: WriteIo, rio: ReadIo)
    requires CheckMagic(b) && CheckVersion(b)
    requires WriteSucceeds(wio)
    requires rio.openOk && rio.seekOk && rio.numRead >= RECORD_SIZE
    ensures ReadSucceeds(Written(region, b, wio), rio)
    ensures Loaded(Written(region, b, wio), rio) == RefreshCrc(b)
  {
    var after := Written(region, b, wio);
    assert after == Encode(RefreshCrc(b));
    FullReadLoadsStored(after, rio);
    DecodeEncode(RefreshCrc(b));
    RefreshedIsValid(b);
  }

  /** The misc partition, seen through the record-sized window at the record's offset. */
  class MiscPartition {
    var region: RecordBytes

    constructor (image: RecordBytes)
      ensures region == image
    {
      region := image;
    }

    /** The record the partition holds. */
    function Stored(): BootControl
      reads this
    {
      Decode(region)
    }

    /**
      `bootctrl_read_metadata`: open, seek, read into `bctrl`, close, validate.
      The result is present exactly when open and seek succeed and what was
      read passes the validator.
     */
    method ReadMetadata(rio: ReadIo) returns (bctrl: Option<BootControl>)
      ensures bctrl.Some? <==> ReadSucceeds(region, rio)
      ensures bctrl.Some? ==> bctrl.value == Loaded(region, rio) && CheckMetadata(bctrl.value)
      ensures bctrl.Some? && rio.numRead >= RECORD_SIZE ==> bctrl.value == Stored()
    {
      if !rio.openOk {
        return None;
      }
      if !rio.seekOk {
        return None;
      }
      var buffer := Encode(rio.stale);
      var k := Transferred(rio.numRead);
      buffer := region[..k] + buffer[k..];
      var b := Decode(buffer);
      if !CheckMetadata(b) {
        return None;
      }
      if rio.numRead >= RECORD_SIZE {
        FullReadLoadsStored(region, rio);
      }
      return Some(b);
    }

    /**
      `bootctrl_write_metadata`: open, seek, recompute the CRC, write, close.
      It fails unless the whole record was written; a short write leaves its
      prefix on the partition.
     */
    method WriteMetadata(bctrl: BootControl, wio: WriteIo) returns (ok: bool)
      modifies this
      ensures region == Written(old(region), bctrl, wio)
      ensures ok <==> WriteSucceeds(wio)
      ensures ok ==> Stored() == RefreshCrc(bctrl)
    {
      if !wio.openOk {
        return false;
      }
      if !wio.seekOk {
        return false;
      }
      var b := bctrl.(crc32Le := Crc32(CrcInput(bctrl)));
      var image := Encode(b);
      var k := Transferred(wio.numWritten);
      region := image[..k] + region[k..];
      ok := wio.numWritten == RECORD_SIZE;
      if ok {
        assert region == Encode(RefreshCrc(bctrl));
        DecodeEncode(RefreshCrc(bctrl));
      }
    }
  }
}
