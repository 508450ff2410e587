# A/B boot control: a verified model

This project models the A/B boot-control library of an STMicroelectronics
Android platform (`bootctrl.c`) and its offline record generator
(`tool/miscgen.c`). Both work on one small record, `struct bootloader_control`,
kept in the misc partition: `magic`, `version`, two `slot_info` entries of
(`priority`, `tries_remaining`, `successful_boot`), `recovery_tries_remaining`
and a trailing `crc32_le`.

Modules, one per component:

- `BootRecord` (`record.dfy`): the record datatype and the constants of `bootctrl.h`
  (version 1, two slots, suffixes `"_a"` and `"_b"`).
- `Checksum` (`checksum.dfy`): zlib's `crc32`, the CRC-32 of ISO 3309 / ITU-T V.42,
  computed bit by bit with the reflected polynomial 0xEDB88320.
- `Codec` (`codec.dfy`): the byte image of the record and the "all but the last
  4 bytes" input of the CRC.
- `Validator` (`validator.dfy`): the magic, version and CRC checks and their
  short-circuit composition.
- `Store` (`store.dfy`): the misc partition as a class holding the record-sized
  window at the record's offset, with `bootctrl_read_metadata` and
  `bootctrl_write_metadata` as methods. The outcomes of `open`, `lseek`,
  `read`/`write` and the final `errno` are parameters (an oracle).
- `Slots` (`slots.dfy`): the boot_control operations, each a read, an in-memory
  edit and a write, proved against pure edit functions.
- `MiscGen` (`miscgen.dfy`): argument validation, record construction and output
  path selection of the generator.
- `Scenarios` (`scenarios.dfy`): three client sessions verified against the contracts.

Results follow the C convention: 0 for success, `-EINVAL` (-22) for a slot index
of 2 or more, and `-errno` when the record cannot be loaded or written.

Two behaviours of the code are modelled as written although a reader might
expect otherwise: the code never compares the byte count of `read` with the record size (a short
read is completed with whatever the caller's struct held and then validated),
and a short `write` leaves the partially written record on the partition before
reporting failure. `errno` is a parameter that may be 0: a failed validation or
a short `write` sets none, so `-errno` can be 0 and read as success although the
operation failed (`Scenarios.ShortWriteReportsSuccess`; see "## Findings").
The mutators model the code as written; `Slots.WriteStatus` is the result the
code evidently means to report.

## Model

| member | source | states |
|---|---|---|
| `BootRecord.Other` | bootctrl.c:259 | the other slot index differs from the given one |
| `BootRecord.BootControl.WithSlot` | bootctrl.c:234-235 | assigning `slot_info[i]` changes that entry only; the other entry, magic, version, recovery tries and CRC stay |
| `Checksum.CheckValue` | bootctrl.c:86 | the modelled `crc32(0, data, len)` gives 0xCBF43926 on "123456789", the check value of zlib's CRC-32 |
| `Codec.DecodeEncode` | bootctrl.c:176-179 | reading back the bytes a record was written as yields that record |
| `Codec.EncodeDecode` | bootctrl.c:131-134 | every record-sized buffer read into the struct is the image of the record it decodes to |
| `Codec.CrcInputIgnoresCrc` | bootctrl.c:83-84 | the CRC input is the record minus its trailing 4 bytes, which hold `crc32_le`, so it does not depend on the stored CRC |
| `Checksum.Crc32` | bootctrl.c:86 | `crc32(0, data, len)`: the register starts at all ones, each byte is folded in bit by bit with the reflected polynomial 0xEDB88320, and the result is complemented |
| `Validator.CheckMagic` | bootctrl.c:53-67 | the magic check passes iff the stored magic is 0x00535400 |
| `Validator.CheckVersion` | bootctrl.c:69-75 | the version check passes iff the stored version is `BOOTCTRL_VERSION` (1) |
| `Validator.CheckCrc` | bootctrl.c:77-96 | the CRC check passes iff the stored `crc32_le` equals the CRC-32 of every byte before it, i.e. iff the trailing 4 bytes are that CRC in little-endian order |
| `Validator.ExpectedMagic` | bootctrl.c:55-59 | the magic assembled big-endian from `{'\0','S','T',0}` is 0x00535400 |
| `Validator.Diagnose` | bootctrl.c:98-116 | the checks run magic, then version, then CRC; the logged failure is the first one that fails |
| `Validator.CheckMetadata` | bootctrl.c:98-116 | a record is trusted iff magic is 0x00535400, version is 1 and the stored CRC equals the CRC of every byte before it |
| `Validator.WrongMagicDecides` | bootctrl.c:100-103 | with a wrong magic the verdict is "wrong magic" whatever the version and stored CRC are |
| `Validator.WrongVersionDecides` | bootctrl.c:105-108 | with the right magic and a wrong version the verdict is "wrong version" whatever the stored CRC is |
| `Validator.RefreshCrc` | bootctrl.c:170-174 | recomputing `crc32_le` makes the CRC check pass and changes no other field |
| `Validator.RefreshedIsValid` | tool/miscgen.c:101-109 | a record with the right magic and version and a refreshed CRC passes the whole validator |
| `Store.Loaded` | bootctrl.c:131-134 | the struct after `read` holds the bytes read from the partition followed by what the caller's struct held before; when nothing was read it is the old struct unchanged |
| `Store.Written` | bootctrl.c:170-179 | nothing changes unless open and seek succeed; then the first bytes written are those of the record with a recomputed CRC and the rest keep their old value; after a complete write the partition decodes to that record |
| `Store.FullReadLoadsStored` | bootctrl.c:131-136 | a complete read loads exactly the record held on the partition |
| `Store.WriteThenRead` | bootctrl.c:170-187 | for a record with magic 0x00535400 and version 1, a successful write followed by a complete read succeeds and returns the written record with its recomputed CRC |
| `Store.MiscPartition.ReadMetadata` | bootctrl.c:118-153 | the load succeeds iff open and seek succeed and what was read (a short read completed by stale struct bytes) passes the validator; a loaded record always passes it, and after a complete read it is the stored record |
| `Store.MiscPartition.WriteMetadata` | bootctrl.c:155-187 | nothing is written unless open and seek succeed; then the CRC is recomputed and the written prefix replaces the stored bytes; success iff the whole record was written, and then the partition holds the record with its fresh CRC |
| `Slots.GetSuffix` | bootctrl.c:345-352 | a suffix exists iff the slot is 0 or 1, and resolving it as the current-slot property gives that slot back |
| `Slots.GetNumberSlots` | bootctrl.c:194-197 | the slot count is the number of indices that have a suffix |
| `Slots.StrNCmp` | bootctrl.c:209 | the modelled `strncmp` returns -1, 0 or 1; when both strings are non-empty and differ at their first character, it is negative iff the first string's character is smaller |
| `Slots.StrNCmpSign` | bootctrl.c:209 | when the strings first differ at an index below `n`, `strncmp` is non-zero and negative iff the first string's character there is smaller |
| `Slots.StrNCmpZero` | bootctrl.c:209 | the modelled `strncmp(s, t, n)` is 0 exactly when the first `n` characters of both strings agree |
| `Slots.StrNCmpTwo` | bootctrl.c:209 | `strncmp` against a 2-character suffix over 2 characters is a prefix match |
| `Slots.SuffixSlot` | bootctrl.c:199-220 | the current slot is 1 iff the property starts with "_b"; it is 0 for "_a", for the empty string and for anything else |
| `Slots.GetCurrentSlot` | bootctrl.c:199-220 | the loop over the two suffixes returns the first match, else slot 0, which agrees with `SuffixSlot` |
| `Slots.IsBootable` | bootctrl.c:317-322 | a slot is unbootable only with priority 0, tries 0 and no successful boot |
| `Slots.UnbootableState` | bootctrl.c:317-322 | a slot is unbootable iff it is (priority 0, tries 0, not successful); a successful slot is always bootable |
| `Slots.MarkSuccessful` | bootctrl.c:234-235 | the slot keeps its priority, gets tries 0 and the successful flag, is bootable; the other slot and all other fields are unchanged |
| `Slots.Activate` | bootctrl.c:259-265 | the target gets priority 15, tries 7, not successful; the other slot drops from 15 to 14 and keeps its other fields; afterwards at most one slot has priority 15 |
| `Slots.MakeUnbootable` | bootctrl.c:290-292 | the target becomes (0, 0, not successful) and unbootable; the other slot and all other fields are unchanged |
| `Slots.EditsKeepHeader` | bootctrl.c:237-240 | each slot edit keeps magic and version, so the record written back passes the validator |
| `Slots.MarkBootSuccessful` | bootctrl.c:222-243 | a failed load returns -errno and writes nothing; otherwise the current slot's edit is written and the result is 0 if the whole record was written, else -errno (0 when `errno` is 0); after a complete write the partition holds a valid record with that edit |
| `Slots.SetActiveBootSlot` | bootctrl.c:245-273 | slot >= 2 returns -EINVAL and leaves the partition untouched; a failed load returns -errno and writes nothing; otherwise the activation edit is written and the result is 0 if the whole record was written, else -errno; after a complete write the stored record is valid and activated |
| `Slots.SetSlotAsUnbootable` | bootctrl.c:275-300 | as for activation, with the unbootable edit of the target slot only |
| `Slots.IsSlotBootable` | bootctrl.c:302-323 | -EINVAL for slot >= 2, -errno on a failed load, otherwise 1 iff the loaded slot is bootable and 0 otherwise |
| `Slots.IsSlotMarkedSuccessful` | bootctrl.c:325-343 | -EINVAL for slot >= 2, -errno on a failed load, otherwise 1 or 0 exactly as `successful_boot` |
| `MiscGen.PriorityField` | tool/miscgen.c:89 | an `int` assigned to the 4-bit priority field is stored exactly when in 0..15, and otherwise as its residue modulo 16 |
| `MiscGen.TriesField` | tool/miscgen.c:90 | an `int` assigned to the 3-bit tries field is stored exactly when in 0..7, and otherwise as its residue modulo 8 |
| `MiscGen.SuccessField` | tool/miscgen.c:91 | an `int` assigned to the 1-bit successful flag is stored exactly when 0 or 1, and otherwise as its lowest bit |
| `MiscGen.ArgsAccepted` | tool/miscgen.c:80-82 | the arguments pass the check iff no priority exceeds 15, no tries count exceeds 7 and no success flag exceeds 1 |
| `MiscGen.NegativePriorityAccepted` | tool/miscgen.c:80-85 | the upper-bound-only check accepts priority -1, which the 4-bit field stores as 15 |
| `MiscGen.UsageRangeStoredExactly` | tool/miscgen.c:35-38 | the ranges of the usage message are the accepted arguments without negatives, and values in them are stored exactly |
| `MiscGen.Generate` | tool/miscgen.c:71-123 | fewer than 7 argv entries or a bound violation gives status 1 and no image; otherwise status 0, slot fields from arguments 1-6, recovery tries 7, the validator's magic and version 1, a record that passes `bootctrl_check_metadata`, and output path argv[7] or "misc.img" |
| `Scenarios.GenerateThenMarkSuccessful` | tool/miscgen.c:88-109 | generating `15 7 0 0 0 0`, booting from "_a" and marking the boot successful leaves slot A at (15, 0, successful), slot B unchanged, and a valid record |
| `Scenarios.ActivateSecondSlot` | bootctrl.c:259-265 | activating slot B while slot A holds priority 15 demotes A to 14 and gives B (15, 7, not successful) |
| `Scenarios.ShortWriteReportsSuccess` | bootctrl.c:292-299 | a `write` that stops after 6 bytes and leaves `errno` at 0 makes `bootctrl_set_slot_as_unbootable` return 0 while the partition still holds the old checksum; the corrected status for that write is -EIO |
| `Slots.WriteStatus` | bootctrl.c:181-184 | the corrected mutator result: 0 iff the whole record was written, otherwise negative, and `-errno` whenever `errno` is set |
| `Slots.WriteStatusAgreesWhenErrnoSet` | bootctrl.c:237-241 | the result as written (0 or `-errno`) equals the corrected one whenever `errno` is positive, and differs from it exactly on a failed write that left `errno` at 0 |

## Left out

- HAL registration (`bootctrl_open`, `bootctrl_methods`, `HAL_MODULE_INFO_SYM`) and the empty `bootctrl_init`: platform plumbing with no behaviour.
- The `EINTR` retry loops around `read` and `write`: the oracle gives the outcome of the last, uninterrupted call.
- The results of `close` and the generator's `fsync`, and `bootctrl_open_misc`'s device path: they do not affect any result.
- `property_get`: the value of `ro.boot.slot_suffix` is a parameter, taken as a string holding no NUL; truncation to `PROPERTY_VALUE_MAX` is not modelled.
- Logging (`ALOG*`) and the generator's `printf` output, including the usage text.
- The byte layout and bit-field packing of `struct bootloader_control` and the value of `BOOTCTRL_OFFSET_SUFFIX`: `bootloader.h` is not part of this model. `Codec` is a byte-aligned stand-in holding the fields the code names, in an order chosen for this model, with the CRC last; the partition is only the record-sized window at the offset.
- `MiscGen.PriorityField`: bit-field assignment is modelled as reduction modulo 2^width with widths 4, 3 and 1, which assumes unsigned bit-fields of those widths.
- `atoi`: a parameter of type `string -> int`.
- `write_misc_suffix`: the generator returns the image it asks to write and where; file creation, truncation and write failures (which the generator only prints while still returning 0) are not modelled.
- Error-detection strength of CRC-32 (a flipped bit is always caught): not proved.
- Decoding a buffer shorter than the record: every buffer in the model is record-sized.
- Concurrent access to the misc partition: the code takes no lock, and the model has one caller.

## Findings

| source | as written | input that shows it | evidently intended | confidence | as-written member | corrected member |
|---|---|---|---|---|---|---|
| tool/miscgen.c:80-82 | arguments are bounded from above only, so negative values pass and are reduced by the bit-field | `miscgen -1 0 0 0 0 0` is accepted and stores priority 15 for slot A | reject values outside the usage message's ranges (priority 0..15, tries 0..7, success 0 or 1) | not executed; medium, depends on the bit-field declarations in `bootloader.h` | `MiscGen.NegativePriorityAccepted` | `MiscGen.UsageRangeStoredExactly` |
| bootctrl.c:237-241 | a failed `bootctrl_write_metadata` is reported as `-errno`, but a short `write` (bootctrl.c:181-184) sets no `errno`, so the mutator can return 0 after a partial write | `bootctrl_set_slot_as_unbootable(module, 0)` whose `write` returns 6 of the record's bytes with `errno` still 0 returns 0, while the partition keeps the checksum of the record from before the edit | every write that does not store the whole record is reported with a negative result | not executed; high for the return value, the effect on the partition depends on the record layout | `Scenarios.ShortWriteReportsSuccess` | `Slots.WriteStatus` |
