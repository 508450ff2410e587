/**
  The slot state machine of `bootctrl.c`: the boot_control operations. Each
  mutator validates its slot argument before any I/O, reads the record,
  edits fields of one or two `slot_info` entries in memory, and writes the
  record back. Results follow the C convention: 0 for success, a negative
  errno for failure, and 0/1 for the boolean queries.
 */
module Slots {
  import opened Wrappers
  import opened BootRecord
  import opened Validator
  import opened Store

  /** The Linux value of `EINVAL`. */
  const EINVAL: int := 22
  /** The Linux value of `EIO`. */
  const EIO: int := 5

  /** `bootctrl_get_suffix`: the suffix of a valid slot, NULL for any other index. */
  function GetSuffix(slot: nat): (suffix: Option<string>)
    ensures suffix.Some? <==> slot < NUM_SLOTS
    ensures suffix.Some? ==> SuffixSlot(suffix.value) == slot
  {
    if slot >= 2 then None
    else Some([SUFFIX_A, SUFFIX_B][slot])
  }

  /** `bootctrl_get_number_slots`: the number of slots, which are exactly the indices that have a suffix. */
  function GetNumberSlots(): (n: nat)
    ensures forall slot: nat :: slot < n <==> GetSuffix(slot).Some?
  {
    NUM_SLOTS
  }

  /** The first `n` characters of `s`, or all of it when it is shorter. */
  function Take(s: string, n: nat): string {
    if |s| <= n then s else s[..n]
  }

  /**
    `strncmp(s, t, n)` for strings that hold no NUL character: characters are
    compared in order until `n` have been compared or a string ends, the end
    of a string ordering before any character.
   */
  function StrNCmp(s: string, t: string, n: nat): (r: int)
    ensures -1 <= r <= 1
    ensures n > 0 && |s| > 0 && |t| > 0 && s[0] != t[0] ==> (r < 0 <==> s[0] < t[0]) && r != 0
    decreases n
  {
    if n == 0 || (|s| == 0 && |t| == 0) then 0
    else if |s| == 0 then -1
    else if |t| == 0 then 1
    else if s[0] < t[0] then -1
    else if s[0] > t[0] then 1
    else StrNCmp(s[1..], t[1..], n - 1)
  }

  /** `strncmp` reports equality exactly when the first `n` characters agree. */
  lemma {:induction false} StrNCmpZero(s: string, t: string, n: nat)
    ensures StrNCmp(s, t, n) == 0 <==> Take(s, n) == Take(t, n)
    decreases n
  {
    if n == 0 {
      assert Take(s, n) == [] && Take(t, n) == [];
    } else if |s| == 0 || |t| == 0 {
      assert |s| == 0 ==> Take(s, n) == [];
      assert |t| == 0 ==> Take(t, n) == [];
    } else {
      assert Take(s, n)[0] == s[0] && Take(t, n)[0] == t[0];
      if s[0] == t[0] {
        StrNCmpZero(s[1..], t[1..], n - 1);
        assert Take(s, n) == [s[0]] + Take(s[1..], n - 1);
        assert Take(t, n) == [t[0]] + Take(t[1..], n - 1);
      }
    }
  }

  /**
    `strncmp` orders two strings by their first differing character within the
    first `n`: the result is negative exactly when that character of `s` is the
    smaller one.
   */
  lemma {:induction false} StrNCmpSign(s: string, t: string, n: nat, k: nat)
    requires k < n && k < |s| && k < |t|
    requires s[..k] == t[..k] && s[k] != t[k]
    ensures StrNCmp(s, t, n) < 0 <==> s[k] < t[k]
    ensures StrNCmp(s, t, n) != 0
    decreases k
  {
    if k > 0 {
      assert s[0] == s[..k][0] == t[..k][0] == t[0];
      assert s[1..][..k - 1] == s[..k][1..] == t[..k][1..] == t[1..][..k - 1];
      StrNCmpSign(s[1..], t[1..], n - 1, k - 1);
    }
  }

  lemma StrNCmpTwo(s: string, t: string)
    requires |t| == 2
    ensures StrNCmp(s, t, 2) == 0 <==> |s| >= 2 && s[..2] == t
  {
    StrNCmpZero(s, t, 2);
    if |s| < 2 {
      assert |Take(s, 2)| < 2;
    } else {
      assert Take(s, 2) == s[..2];
    }
  }

  /**
    The slot that `bootctrl_get_current_slot` resolves the value of
    `ro.boot.slot_suffix` to: 1 exactly when it starts with "_b", 0 when it
    starts with "_a", is empty, or is anything else.
   */
  function SuffixSlot(prop: string): (slot: SlotIndex)
    ensures slot == 1 <==> |prop| >= 2 && prop[..2] == SUFFIX_B
    ensures |prop| >= 2 && prop[..2] == SUFFIX_A ==> slot == 0
  {
    StrNCmpTwo(prop, SUFFIX_A);
    StrNCmpTwo(prop, SUFFIX_B);
    if |prop| == 0 then 0
    else if StrNCmp(prop, SUFFIX_A, 2) == 0 then 0
    else if StrNCmp(prop, SUFFIX_B, 2) == 0 then 1
    else 0
  }

  /**
    `bootctrl_get_current_slot`, with the property value as a parameter: the
    suffixes are tried in order and the first one whose two characters match
    wins; slot 0 is the fallback.
   */
  method GetCurrentSlot(prop: string) returns (slot: SlotIndex)
    ensures slot == SuffixSlot(prop)
  {
    if |prop| > 0 {
      var suffix := [SUFFIX_A, SUFFIX_B];
      var i := 0;
      while i < 2
        invariant 0 <= i <= 2
        invariant forall j :: 0 <= j < i ==> StrNCmp(prop, suffix[j], 2) != 0
      {
        if StrNCmp(prop, suffix[i], 2) == 0 {
          return i;
        }
        i := i + 1;
      }
      assert StrNCmp(prop, suffix[0], 2) != 0 && StrNCmp(prop, suffix[1], 2) != 0;
    }
    return 0;
  }

  /** At most one slot holds the top priority. */
  predicate AtMostOneTop(b: BootControl) {
    !(b.slotA.priority == MAX_PRIORITY && b.slotB.priority == MAX_PRIORITY)
  }

  /** A slot is unbootable only with priority 0, no tries left and no successful boot. */
  predicate IsBootable(s: SlotInfo) {
    !(s.priority == 0 && s.triesRemaining == 0 && !s.successfulBoot)
  }

  /**
    Exactly one slot state is unbootable; in particular a successful boot
    keeps a slot bootable even with priority 0 and no tries left.
   */
  lemma UnbootableState(s: SlotInfo)
    ensures !IsBootable(s) <==> s == SlotInfo(0, 0, false)
    ensures s.successfulBoot ==> IsBootable(s)
  {
  }

  /** The in-memory edit of `bootctrl_mark_boot_successful`. */
  function MarkSuccessful(b: BootControl, slot: SlotIndex): (r: BootControl)
    ensures r.Slot(slot).priority == b.Slot(slot).priority
    ensures r.Slot(slot).triesRemaining == 0 && r.Slot(slot).successfulBoot
    ensures r.Slot(Other(slot)) == b.Slot(Other(slot))
    ensures b.SameOutsideSlots(r)
    ensures IsBootable(r.Slot(slot))
  {
    b.WithSlot(slot, b.Slot(slot).(triesRemaining := 0, successfulBoot := true))
  }

  /**
    The in-memory edit of `bootctrl_set_active_boot_slot`: the target becomes
    a fresh top-priority candidate, the other slot loses the top priority if
    it had it, and afterwards exactly the target holds it.
   */
  function Activate(b: BootControl, slot: SlotIndex): (r: BootControl)
    ensures r.Slot(slot) == SlotInfo(MAX_PRIORITY, MAX_TRIES, false)
    ensures var o := b.Slot(Other(slot));
      r.Slot(Other(slot)) == o.(priority := if o.priority == MAX_PRIORITY then 14 else o.priority)
    ensures b.SameOutsideSlots(r)
    ensures AtMostOneTop(r) && IsBootable(r.Slot(slot))
  {
    var other := Other(slot);
    var demoted := if b.Slot(other).priority == 15 then b.WithSlot(other, b.Slot(other).(priority := 14)) else b;
    demoted.WithSlot(slot, SlotInfo(15, 7, false))
  }

  /** The in-memory edit of `bootctrl_set_slot_as_unbootable`. */
  function MakeUnbootable(b: BootControl, slot: SlotIndex): (r: BootControl)
    ensures r.Slot(slot) == SlotInfo(0, 0, false) && !IsBootable(r.Slot(slot))
    ensures r.Slot(Other(slot)) == b.Slot(Other(slot))
    ensures b.SameOutsideSlots(r)
    ensures AtMostOneTop(b) ==> AtMostOneTop(r)
  {
    b.WithSlot(slot, SlotInfo(0, 0, false))
  }

  /** Every slot edit keeps magic and version, so the written record passes validation. */
  lemma EditsKeepHeader(b: BootControl, slot: SlotIndex)
    requires CheckMagic(b) && CheckVersion(b)
    ensures CheckMetadata(RefreshCrc(MarkSuccessful(b, slot)))
    ensures CheckMetadata(RefreshCrc(Activate(b, slot)))
    ensures CheckMetadata(RefreshCrc(MakeUnbootable(b, slot)))
  {
  }

  /**
    `bootctrl_mark_boot_successful`: read, resolve the current slot from the
    property value, set its tries to 0 and its successful flag, write.
   */
  method MarkBootSuccessful(misc: MiscPartition, prop: string, rio: ReadIo, wio: WriteIo) returns (r: int)
    modifies misc
    ensures !ReadSucceeds(old(misc.region), rio) ==> r == -(rio.errno as int) && misc.region == old(misc.region)
    ensures ReadSucceeds(old(misc.region), rio) ==>
      misc.region == Written(old(misc.region), MarkSuccessful(Loaded(old(misc.region), rio), SuffixSlot(prop)), wio)
      && r == (if WriteSucceeds(wio) then 0 else -(wio.errno as int))
    ensures ReadSucceeds(old(misc.region), rio) && WriteSucceeds(wio) ==>
      CheckMetadata(misc.Stored()) && misc.Stored() == RefreshCrc(MarkSuccessful(Loaded(old(misc.region), rio), SuffixSlot(prop)))
  {
    var loaded := misc.ReadMetadata(rio);
    if loaded.None? {
      return -(rio.errno as int);
    }
    var bootctrl := loaded.value;
    var slot := GetCurrentSlot(prop);
    var info := bootctrl.Slot(slot);
    info := info.(triesRemaining := 0);
    info := info.(successfulBoot := true);
    bootctrl := bootctrl.WithSlot(slot, info);
    var ok := misc.WriteMetadata(bootctrl, wio);
    if !ok {
      return -(wio.errno as int);
    }
    EditsKeepHeader(loaded.value, slot);
    return 0;
  }

  /**
    `bootctrl_set_active_boot_slot`: reject a slot index of 2 or more before
    any I/O; otherwise read, demote the other slot from 15 to 14, give the
    target priority 15, 7 tries and no successful boot, write.
   */
  method SetActiveBootSlot(misc: MiscPartition, slot: nat, rio: ReadIo, wio: WriteIo) returns (r: int)
    modifies misc
    ensures slot >= NUM_SLOTS ==> r == -EINVAL && misc.region == old(misc.region)
    ensures slot < NUM_SLOTS && !ReadSucceeds(old(misc.region), rio) ==>
      r == -(rio.errno as int) && misc.region == old(misc.region)
    ensures slot < NUM_SLOTS && ReadSucceeds(old(misc.region), rio) ==>
      misc.region == Written(old(misc.region), Activate(Loaded(old(misc.region), rio), slot), wio)
      && r == (if WriteSucceeds(wio) then 0 else -(wio.errno as int))
    ensures slot < NUM_SLOTS && ReadSucceeds(old(misc.region), rio) && WriteSucceeds(wio) ==>
      CheckMetadata(misc.Stored()) && misc.Stored() == RefreshCrc(Activate(Loaded(old(misc.region), rio), slot))
  {
    if slot >= 2 {
      return -EINVAL;
    }
    var loaded := misc.ReadMetadata(rio);
    if loaded.None? {
      return -(rio.errno as int);
    }
    var bootctrl := loaded.value;
    var other := 1 - slot;
    if bootctrl.Slot(other).priority == 15 {
      bootctrl := bootctrl.WithSlot(other, bootctrl.Slot(other).(priority := 14));
    }
    var info := bootctrl.Slot(slot);
    info := info.(priority := 15);
    info := info.(triesRemaining := 7);
    info := info.(successfulBoot := false);
    bootctrl := bootctrl.WithSlot(slot, info);
    var ok := misc.WriteMetadata(bootctrl, wio);
    if !ok {
      return -(wio.errno as int);
    }
    EditsKeepHeader(loaded.value, slot);
    return 0;
  }

  /**
    `bootctrl_set_slot_as_unbootable`: reject an invalid slot before any I/O;
    otherwise read, clear the target's priority, tries and successful flag, write.
   */
  method SetSlotAsUnbootable(misc: MiscPartition, slot: nat, rio: ReadIo, wio: WriteIo) returns (r: int)
    modifies misc
    ensures slot >= NUM_SLOTS ==> r == -EINVAL && misc.region == old(misc.region)
    ensures slot < NUM_SLOTS && !ReadSucceeds(old(misc.region), rio) ==>
      r == -(rio.errno as int) && misc.region == old(misc.region)
    ensures slot < NUM_SLOTS && ReadSucceeds(old(misc.region), rio) ==>
      misc.region == Written(old(misc.region), MakeUnbootable(Loaded(old(misc.region), rio), slot), wio)
      && r == (if WriteSucceeds(wio) then 0 else -(wio.errno as int))
    ensures slot < NUM_SLOTS && ReadSucceeds(old(misc.region), rio) && WriteSucceeds(wio) ==>
      CheckMetadata(misc.Stored()) && misc.Stored() == RefreshCrc(MakeUnbootable(Loaded(old(misc.region), rio), slot))
  {
    if slot >= 2 {
      return -EINVAL;
    }
    var loaded := misc.ReadMetadata(rio);
    if loaded.None? {
      return -(rio.errno as int);
    }
    var bootctrl := loaded.value;
    var info := bootctrl.Slot(slot);
    info := info.(priority := 0);
    info := info.(triesRemaining := 0);
    info := info.(successfulBoot := false);
    bootctrl := bootctrl.WithSlot(slot, info);
    var ok := misc.WriteMetadata(bootctrl, wio);
    if !ok {
      return -(wio.errno as int);
    }
    EditsKeepHeader(loaded.value, slot);
    return 0;
  }

  /**
    The result a mutator evidently means to report after its write: 0 only
    when the whole record was written, otherwise `-errno`, or `-EIO` when the
    failed call left `errno` at 0 (as a short `write` does).
   */
  function WriteStatus(wio: WriteIo): (r: int)
    ensures r == 0 <==> WriteSucceeds(wio)
    ensures !WriteSucceeds(wio) ==> r < 0
    ensures !WriteSucceeds(wio) && wio.errno > 0 ==> r == -(wio.errno as int)
  {
    if WriteSucceeds(wio) then 0 else if wio.errno > 0 then -(wio.errno as int) else -EIO
  }

  /**
    The mutators' result as written, `0` or `-errno`, differs from `WriteStatus`
    only when a failed write left `errno` at 0.
   */
  lemma WriteStatusAgreesWhenErrnoSet(wio: WriteIo)
    ensures wio.errno > 0 ==> (if WriteSucceeds(wio) then 0 else -(wio.errno as int)) == WriteStatus(wio)
    ensures !WriteSucceeds(wio) && wio.errno == 0 ==> (if WriteSucceeds(wio) then 0 else -(wio.errno as int)) != WriteStatus(wio)
  {
  }

  /**
    `bootctrl_is_slot_bootable`: -EINVAL for an invalid slot, -errno when the
    record cannot be loaded, otherwise 1 or 0 as the slot is bootable or not.
   */
  method IsSlotBootable(misc: MiscPartition, slot: nat, rio: ReadIo) returns (r: int)
    ensures slot >= NUM_SLOTS ==> r == -EINVAL
    ensures slot < NUM_SLOTS && !ReadSucceeds(misc.region, rio) ==> r == -(rio.errno as int)
    ensures slot < NUM_SLOTS && ReadSucceeds(misc.region, rio) ==>
      (r == 0 || r == 1) && (r == 1 <==> IsBootable(Loaded(misc.region, rio).Slot(slot)))
  {
    if slot >= 2 {
      return -EINVAL;
    }
    var loaded := misc.ReadMetadata(rio);
    if loaded.None? {
      return -(rio.errno as int);
    }
    var info := loaded.value.Slot(slot);
    if info.priority == 0 && info.triesRemaining == 0 && info.successfulBoot == false {
      return 0;
    }
    return 1;
  }

  /**
    `bootctrl_isSlotMarkedSuccessful`: -EINVAL for an invalid slot, -errno
    when the record cannot be loaded, otherwise the slot's successful flag as 1 or 0.
   */
  method IsSlotMarkedSuccessful(misc: MiscPartition, slot: nat, rio: ReadIo) returns (r: int)
    ensures slot >= NUM_SLOTS ==> r == -EINVAL
    ensures slot < NUM_SLOTS && !ReadSucceeds(misc.region, rio) ==> r == -(rio.errno as int)
    ensures slot < NUM_SLOTS && ReadSucceeds(misc.region, rio) ==>
      (r == 0 || r == 1) && (r == 1 <==> Loaded(misc.region, rio).Slot(slot).successfulBoot)
  {
    if slot >= 2 {
      return -EINVAL;
    }
    var loaded := misc.ReadMetadata(rio);
    if loaded.None? {
      return -(rio.errno as int);
    }
    var isMarkedSuccessful := loaded.value.Slot(slot).successfulBoot;
    return if isMarkedSuccessful then 1 else 0;
  }
}
