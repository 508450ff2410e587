/**
  The persisted A/B boot-control record (`struct bootloader_control`) and the
  constants of `bootctrl.h` it is built on.
 */
module BootRecord {

  /** `BOOTCTRL_VERSION`: the only record version this implementation understands. */
  const BOOTCTRL_VERSION: int := 1
  /** `BOOTCTRL_NUM_SLOT`: the system is hard-wired for two slots. */
  const NUM_SLOTS: nat := 2
  const SUFFIX_A: string := "_a"
  const SUFFIX_B: string := "_b"

  /** Top priority, given to the slot that was activated last. */
  const MAX_PRIORITY: int := 15
  /** Trial budget given to a freshly activated slot. */
  const MAX_TRIES: int := 7

  type Byte = x: int | 0 <= x < 0x100
  type Uint32 = x: int | 0 <= x < 0x1_0000_0000

  /** The value ranges of the 4-bit `priority` and 3-bit `tries_remaining` fields. */
  type Priority = p: int | 0 <= p <= 15
  type Tries = t: int | 0 <= t <= 7

  /** A valid index into `slot_info`. */
  type SlotIndex = i: nat | i < 2

  datatype SlotInfo = SlotInfo(priority: Priority, triesRemaining: Tries, successfulBoot: bool)

  /** The record as the C code sees it after reading it into memory. */
  datatype BootControl = BootControl(
    magic: Uint32,
    version: Byte,
    slotA: SlotInfo,
    slotB: SlotInfo,
    recoveryTriesRemaining: Byte,
    crc32Le: Uint32)
  {
    /** `slot_info[i]` */
    function Slot(i: SlotIndex): SlotInfo {
      if i == 0 then slotA else slotB
    }

    /** The record with `slot_info[i]` replaced by `s` and every other field kept. */
    function WithSlot(i: SlotIndex, s: SlotInfo): (r: BootControl)
      ensures r.Slot(i) == s
      ensures r.Slot(Other(i)) == Slot(Other(i))
      ensures SameOutsideSlots(r)
    {
      if i == 0 then this.(slotA := s) else this.(slotB := s)
    }

    /** The fields no slot operation touches agree between this record and `r`. */
    predicate SameOutsideSlots(r: BootControl) {
      r.magic == magic && r.version == version &&
      r.recoveryTriesRemaining == recoveryTriesRemaining && r.crc32Le == crc32Le
    }
  }

  /** `other_slot = 1 - slot`: the index of the slot that is not `i`. */
  function Other(i: SlotIndex): (o: SlotIndex)
    ensures o != i
  {
    1 - i
  }
}
