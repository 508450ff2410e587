/**
  Clients of the interfaces above: short boot-control sessions verified
  against the contracts alone. The first two have every system call succeed;
  the third has a `write` stop short.
 */
module Scenarios {
  import opened Wrappers
  import opened BootRecord
  import opened Codec
  import opened Validator
  import opened Store
  import opened Slots
  import opened MiscGen

  /** `read` and `write` oracles under which every call succeeds completely. */
  function FullRead(stale: BootControl): ReadIo {
    ReadIo(true, true, RECORD_SIZE, stale, 5)
  }

  const FULL_WRITE: WriteIo := WriteIo(true, true, RECORD_SIZE, 5)

  /** A `write` that stops after 6 bytes and sets no `errno`. */
  const SHORT_WRITE: WriteIo := WriteIo(true, true, 6, 0)

  /**
    Generate `15 7 0 0 0 0`, boot from suffix "_a", mark the boot successful
    and read the record back: slot A has no tries left and is marked
    successful, slot B is unchanged, and the rewritten record is valid.
   */
  method GenerateThenMarkSuccessful(atoi: string -> int) returns (after: Option<BootControl>)
    requires atoi("15") == 15 && atoi("7") == 7 && atoi("0") == 0
    ensures after.Some? && CheckMetadata(after.value)
    ensures after.value.slotA == SlotInfo(15, 0, true)
    ensures after.value.slotB == SlotInfo(0, 0, false)
    ensures after.value.recoveryTriesRemaining == RECOVERY_TRIES
  {
    var status, image := Generate(["miscgen", "15", "7", "0", "0", "0", "0"], atoi);
    var generated := image.value.record;
    var misc := new MiscPartition(Encode(generated));
    DecodeEncode(generated);
    FullReadLoadsStored(misc.region, FullRead(generated));
    assert "_a"[..2] == SUFFIX_A;
    var current := GetCurrentSlot("_a");
    assert current == 0;
    var r := MarkBootSuccessful(misc, "_a", FullRead(generated), FULL_WRITE);
    after := misc.ReadMetadata(FullRead(generated));
  }

  /**
    With slot A at priority 15, activating slot B demotes A to 14 and makes B a
    fresh candidate with priority 15, 7 tries and no successful boot.
   */
  method ActivateSecondSlot(generated: BootControl) returns (after: Option<BootControl>)
    requires CheckMetadata(generated) && generated.slotA.priority == 15
    ensures after.Some? && CheckMetadata(after.value)
    ensures after.value.slotA == generated.slotA.(priority := 14)
    ensures after.value.slotB == SlotInfo(15, 7, false)
  {
    var misc := new MiscPartition(Encode(generated));
    DecodeEncode(generated);
    FullReadLoadsStored(misc.region, FullRead(generated));
    var r := SetActiveBootSlot(misc, 1, FullRead(generated), FULL_WRITE);
    after := misc.ReadMetadata(FullRead(generated));
  }

  /**
    A `write` that stops after 6 bytes and sets no `errno` still makes
    `bootctrl_set_slot_as_unbootable` report success, although the checksum
    on the partition is still the one of the record before the edit.
   */
  method ShortWriteReportsSuccess(generated: BootControl) returns (r: int, misc: MiscPartition)
    requires CheckMetadata(generated)
    ensures r == 0 && WriteStatus(SHORT_WRITE) == -EIO
    ensures misc.region[RECORD_SIZE - CRC_SIZE..] == Encode(generated)[RECORD_SIZE - CRC_SIZE..]
  {
    misc := new MiscPartition(Encode(generated));
    DecodeEncode(generated);
    FullReadLoadsStored(misc.region, FullRead(generated));
    r := SetSlotAsUnbootable(misc, 0, FullRead(generated), SHORT_WRITE);
  }
}
