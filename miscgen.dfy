/**
  The offline record generator `miscgen`: it checks six numeric arguments,
  fills a record, sets magic, version and CRC, and picks the output file.
  `atoi` is a parameter, and the final `write_misc_suffix` is abstract: the
  generator hands back the image it asks to be written and where.
 */
module MiscGen {
  import opened Wrappers
  import opened BootRecord
  import opened Codec
  import opened Validator
  import opened Checksum

  /** Output file used when no path argument is given. */
  const DEFAULT_MISC_FILE: string := "misc.img"
  /** `recovery_tries_remaining` of every generated record. */
  const RECOVERY_TRIES: Byte := 7

  /** A request to write `record` at the record offset of a fresh file `path`. */
  datatype MiscImage = MiscImage(path: string, record: BootControl)

  /** The `int` stored in the 4-bit unsigned `priority` bit-field: reduced modulo 16. */
  function PriorityField(v: int): (p: Priority)
    ensures 0 <= v < 16 ==> p == v
    ensures (v - p) % 16 == 0
  {
    v % 16
  }

  /** The `int` stored in the 3-bit unsigned `tries_remaining` bit-field: reduced modulo 8. */
  function TriesField(v: int): (t: Tries)
    ensures 0 <= v < 8 ==> t == v
    ensures (v - t) % 8 == 0
  {
    v % 8
  }

  /** The `int` stored in the 1-bit `successful_boot` bit-field: its lowest bit. */
  function SuccessField(v: int): (s: bool)
    ensures v == 0 || v == 1 ==> (s <==> v == 1)
    ensures s <==> (v - 1) % 2 == 0
  {
    v % 2 == 1
  }

  /** The bounds check of `main`, as written: upper bounds only. */
  predicate ArgsAccepted(aPrio: int, aTry: int, aSuccess: int, bPrio: int, bTry: int, bSuccess: int) {
    !(aPrio > 15 || bPrio > 15 || aTry > 7 || bTry > 7 || aSuccess > 1 || bSuccess > 1)
  }

  /** The ranges the usage message announces: priority 0..15, tries 0..7, success 0 or 1. */
  predicate ArgsInUsageRange(aPrio: int, aTry: int, aSuccess: int, bPrio: int, bTry: int, bSuccess: int) {
    0 <= aPrio <= 15 && 0 <= bPrio <= 15 && 0 <= aTry <= 7 && 0 <= bTry <= 7
    && 0 <= aSuccess <= 1 && 0 <= bSuccess <= 1
  }

  /**
    The check as written lets a negative argument through, and the bit-field
    stores something else than was asked for: priority -1 becomes 15.
   */
  lemma NegativePriorityAccepted()
    ensures ArgsAccepted(-1, 0, 0, 0, 0, 0)
    ensures !ArgsInUsageRange(-1, 0, 0, 0, 0, 0)
    ensures PriorityField(-1) == 15
  {
  }

  /**
    Arguments in the announced ranges are accepted by the check as written and
    stored exactly as given; so the two checks differ only on negative arguments.
   */
  lemma UsageRangeStoredExactly(aPrio: int, aTry: int, aSuccess: int, bPrio: int, bTry: int, bSuccess: int)
    ensures ArgsInUsageRange(aPrio, aTry, aSuccess, bPrio, bTry, bSuccess) <==>
      ArgsAccepted(aPrio, aTry, aSuccess, bPrio, bTry, bSuccess)
      && aPrio >= 0 && aTry >= 0 && aSuccess >= 0 && bPrio >= 0 && bTry >= 0 && bSuccess >= 0
    ensures ArgsInUsageRange(aPrio, aTry, aSuccess, bPrio, bTry, bSuccess) ==>
      PriorityField(aPrio) == aPrio && TriesField(aTry) == aTry && SuccessField(aSuccess) == (aSuccess == 1)
      && PriorityField(bPrio) == bPrio && TriesField(bTry) == bTry && SuccessField(bSuccess) == (bSuccess == 1)
  {
  }

  /**
    `main(argc, argv)`: exit status 1 and nothing written on too few arguments
    or a bound violation; otherwise status 0 and a record with the given slot
    fields, recovery tries 7, the library's magic and version, and a CRC that
    makes it pass `bootctrl_check_metadata`.
   */
  method Generate(argv: seq<string>, atoi: string -> int) returns (status: int, image: Option<MiscImage>)
    ensures status == 0 || status == 1
    ensures status == 1 <==>
      |argv| < 7
      || !ArgsAccepted(atoi(argv[1]), atoi(argv[2]), atoi(argv[3]), atoi(argv[4]), atoi(argv[5]), atoi(argv[6]))
    ensures status == 1 ==> image == None
    ensures status == 0 ==>
      image.Some?
      && image.value.path == (if |argv| >= 8 then argv[7] else DEFAULT_MISC_FILE)
      && image.value.record.slotA == SlotInfo(PriorityField(atoi(argv[1])), TriesField(atoi(argv[2])), SuccessField(atoi(argv[3])))
      && image.value.record.slotB == SlotInfo(PriorityField(atoi(argv[4])), TriesField(atoi(argv[5])), SuccessField(atoi(argv[6])))
      && image.value.record.recoveryTriesRemaining == RECOVERY_TRIES
      && image.value.record.magic == ExpectedMagic()
      && image.value.record.version == BOOTCTRL_VERSION
      && CheckMetadata(image.value.record)
  {
    if |argv| < 7 {
      return 1, None;
    }
    if atoi(argv[1]) > 15 || atoi(argv[4]) > 15
      || atoi(argv[2]) > 7 || atoi(argv[5]) > 7
      || atoi(argv[3]) > 1 || atoi(argv[6]) > 1
    {
      return 1, None;
    }
    // the static record starts zeroed
    var bctrl := BootControl(0, 0, SlotInfo(0, 0, false), SlotInfo(0, 0, false), 0, 0);
    bctrl := bctrl.(recoveryTriesRemaining := 7);
    bctrl := bctrl.(slotA := bctrl.slotA.(priority := PriorityField(atoi(argv[1]))));
    bctrl := bctrl.(slotA := bctrl.slotA.(triesRemaining := TriesField(atoi(argv[2]))));
    bctrl := bctrl.(slotA := bctrl.slotA.(successfulBoot := SuccessField(atoi(argv[3]))));
    bctrl := bctrl.(slotB := bctrl.slotB.(priority := PriorityField(atoi(argv[4]))));
    bctrl := bctrl.(slotB := bctrl.slotB.(triesRemaining := TriesField(atoi(argv[5]))));
    bctrl := bctrl.(slotB := bctrl.slotB.(successfulBoot := SuccessField(atoi(argv[6]))));
    var miscFile := DEFAULT_MISC_FILE;
    if |argv| >= 8 {
      miscFile := argv[7];
    }
    bctrl := bctrl.(magic := BigEndian32(MAGIC_BUFFER));
    bctrl := bctrl.(version := BOOTCTRL_VERSION);
    bctrl := bctrl.(crc32Le := Crc32(CrcInput(bctrl)));
    RefreshedIsValid(bctrl);
    assert bctrl == RefreshCrc(bctrl);
    return 0, Some(MiscImage(miscFile, bctrl));
  }
}
