/**
 * From the three words of a boot note to the owners of the devices and the
 * statuses that Linux finds (rp1_note.rs:149-161, rp1_dtb_policy.rs:41-100,
 * main.rs:1630-1670).
 */
module NotePolicy {
  import opened Prelude
  import opened Policy
  import opened LittleEndian
  import opened BootNote
  import DtbPatch
  import ElfSections

  // Bit p of a word.
  predicate HasBit(w: nat, p: nat) {
    w / Pow2(p) % 2 == 1
  }

  predicate OneOf(a: bool, b: bool, c: bool) {
    (a && !b && !c) || (!a && b && !c) || (!a && !b && c)
  }

  // Each of the ten device bits is in exactly one of the words, no other bit is in any, and neither PIO bit is in
  // the word for Linux.
  ghost predicate Partition(info: Rp1BootInfo, bit: DeviceNumbers) {
    && (forall d :: OneOf(HasBit(info.ownerRp1, bit(d)), HasBit(info.ownerLinux, bit(d)), HasBit(info.ownerDisabled, bit(d))))
    && (forall p: nat :: HasBit(info.ownerRp1, p) || HasBit(info.ownerLinux, p) || HasBit(info.ownerDisabled, p) ==>
          exists d :: bit(d) == p)
    && !HasBit(info.ownerLinux, bit(Pio0)) && !HasBit(info.ownerLinux, bit(Pio1))
  }

  // The image has a note section, a list of notes, and its first RP1 note is a record of this information.
  ghost predicate Carries(elf: Bytes, abi: NoteAbi, info: Rp1BootInfo) {
    exists entries, n, gap, more, tail :: CarriedBy(elf, abi, info, entries, n, gap, more, tail)
  }

  predicate CarriedBy(elf: Bytes, abi: NoteAbi, info: Rp1BootInfo, entries: seq<Entry>, n: Note,
                      gap: Bytes, more: Bytes, tail: Bytes)
  {
    && AllFit(entries) && ElfSections.NoteSection(elf) == Some(EncodeEntries(entries))
    && FirstRp1(entries, abi) == Some(n) && n.desc == BootRecord(info, abi, gap, more, tail)
    && |gap| == 4 && |more| == 28 && abi.infoSize <= 80 + |tail|
    && InfoFits(info, abi)
  }

  lemma CarriedIsRead(elf: Bytes, abi: NoteAbi, info: Rp1BootInfo)
    requires AbiFits(abi) && Carries(elf, abi, info)
    ensures ParseRp1Note(elf, abi) == Valid(info) && ElfSections.NoteSection(elf).Some?
  {
    hide ParseBootInfo, BootRecord, EncodeEntries, FirstRp1, ParseNotes, ElfSections.NoteSection, InfoFits;
    var entries, n, gap, more, tail :| CarriedBy(elf, abi, info, entries, n, gap, more, tail);
    FirstRp1NoteDecides(entries, abi);
    RecordRoundTrip(info, abi, gap, more, tail);
  }

  function MasksOfWords(info: Rp1BootInfo): Masks {
    Masks(Positions(info.ownerRp1), Positions(info.ownerLinux), Positions(info.ownerDisabled))
  }

  lemma PositionIsBit(w: nat, p: nat)
    ensures p in Positions(w) <==> HasBit(w, p)
  {
    PositionsAreBits(w, 0, p);
  }

  lemma OwnersAreBits(info: Rp1BootInfo, p: nat)
    ensures var m := MasksOfWords(info);
            && (p in m.rp1 <==> HasBit(info.ownerRp1, p))
            && (p in m.linux <==> HasBit(info.ownerLinux, p))
            && (p in m.disabled <==> HasBit(info.ownerDisabled, p))
  {
    PositionIsBit(info.ownerRp1, p);
    PositionIsBit(info.ownerLinux, p);
    PositionIsBit(info.ownerDisabled, p);
  }

  lemma ValidIffPartition(info: Rp1BootInfo, bit: DeviceNumbers)
    requires Distinct(bit)
    ensures Validate(MasksOfWords(info), bit).Ok? <==> Partition(info, bit)
  {
    hide HasBit, Positions, Validate;
    var m := MasksOfWords(info);
    ValidateIsPartition(m, bit);
    forall p: nat ensures
      && (p in m.rp1 <==> HasBit(info.ownerRp1, p)) && (p in m.linux <==> HasBit(info.ownerLinux, p))
      && (p in m.disabled <==> HasBit(info.ownerDisabled, p))
    {
      OwnersAreBits(info, p);
    }
    hide MasksOfWords;
    MasksMeanPartition(m, bit);
  }

  // The same for masks as sets.
  lemma MasksMeanPartition(m: Masks, bit: DeviceNumbers)
    requires Distinct(bit)
    ensures m == MasksOf(OwnersIn(m, bit), bit) && Acceptable(OwnersIn(m, bit)) <==>
            && (forall d :: OneOf(bit(d) in m.rp1, bit(d) in m.linux, bit(d) in m.disabled))
            && (forall p: nat :: p in m.rp1 || p in m.linux || p in m.disabled ==> exists d :: bit(d) == p)
            && bit(Pio0) !in m.linux && bit(Pio1) !in m.linux
  {
    var owner := OwnersIn(m, bit);
    var again := MasksOf(owner, bit);
    assert forall d :: owner(d) == OwnerOf(m, bit(d));
    if m == again && Acceptable(owner) {
      forall d ensures OneOf(bit(d) in m.rp1, bit(d) in m.linux, bit(d) in m.disabled) {
        assert bit(d) in again.rp1 <==> owner(d) == OwnedByRp1;
        assert bit(d) in again.linux <==> owner(d) == OwnedByLinux;
        assert bit(d) in again.disabled <==> owner(d) == OwnedByNobody;
      }
    }
  }

  // Main result: an image with a boot note has a policy exactly when the note's three words partition the ten
  // devices with no PIO block for Linux, and then every device has the owner in whose word its bit is.
  lemma NotePolicyIff(elf: Bytes, config: Option<Bytes>, abi: NoteAbi, bit: DeviceNumbers, info: Rp1BootInfo)
    requires AbiFits(abi) && Distinct(bit) && Carries(elf, abi, info)
    ensures var r := PolicyForBoot(elf, config, abi, bit);
            && (r.Ok? <==> Partition(info, bit))
            && (r.Ok? ==> forall d ::
                  && (OwnerOf(r.value.masks, bit(d)) == OwnedByRp1 <==> HasBit(info.ownerRp1, bit(d)))
                  && (OwnerOf(r.value.masks, bit(d)) == OwnedByLinux <==> HasBit(info.ownerLinux, bit(d)))
                  && (OwnerOf(r.value.masks, bit(d)) == OwnedByNobody <==> HasBit(info.ownerDisabled, bit(d))))
  {
    hide ParseRp1Note, Positions, HasBit, Validate, Carries;
    CarriedIsRead(elf, abi, info);
    ValidIffPartition(info, bit);
    var r := PolicyForBoot(elf, config, abi, bit);
    if r.Ok? {
      assert r.value.masks == MasksOfWords(info);
      forall d ensures
        && (OwnerOf(r.value.masks, bit(d)) == OwnedByRp1 <==> HasBit(info.ownerRp1, bit(d)))
        && (OwnerOf(r.value.masks, bit(d)) == OwnedByLinux <==> HasBit(info.ownerLinux, bit(d)))
        && (OwnerOf(r.value.masks, bit(d)) == OwnedByNobody <==> HasBit(info.ownerDisabled, bit(d)))
      {
        OwnersAreBits(info, bit(d));
        assert OneOf(HasBit(info.ownerRp1, bit(d)), HasBit(info.ownerLinux, bit(d)), HasBit(info.ownerDisabled, bit(d)));
      }
    }
  }

  // And in the patched tree the first existing place of a device says "okay" exactly when its bit is in the word
  // for Linux.
  lemma NoteReachesTheTree(elf: Bytes, config: Option<Bytes>, abi: NoteAbi, bit: DeviceNumbers, info: Rp1BootInfo,
                           nodes: DtbPatch.Nodes, d: Device, i: nat)
    requires AbiFits(abi) && Distinct(bit) && Carries(elf, abi, info) && d != Timer
    requires PolicyForBoot(elf, config, abi, bit).Ok?
    requires DtbPatch.ApplyPolicy(nodes, PolicyForBoot(elf, config, abi, bit).value.masks, bit).1.Ok?
    requires i < 3 && DtbPatch.Places(d)[i] in nodes && forall j :: 0 <= j < i ==> DtbPatch.Places(d)[j] !in nodes
    ensures var after := DtbPatch.ApplyPolicy(nodes, PolicyForBoot(elf, config, abi, bit).value.masks, bit).0;
            var at := DtbPatch.Places(d)[i];
            at in after && after[at] == nodes[at]["status" := if HasBit(info.ownerLinux, bit(d)) then "okay\0" else "disabled\0"]
  {
    hide PolicyForBoot, DtbPatch.ApplyPolicy, DtbPatch.Places, Carries, HasBit, OwnerOf;
    NotePolicyIff(elf, config, abi, bit, info);
    DtbPatch.PlacesShowOwners(nodes, PolicyForBoot(elf, config, abi, bit).value.masks, bit, d);
  }
}
