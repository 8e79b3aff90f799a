/**
 * The RP1 boot note and the policy it yields (rp1_note.rs:22-200,
 * main.rs:1630-1670).
 */
module BootNote {
  import opened Prelude
  import opened Policy
  import opened LittleEndian
  import ElfSections
  import ConfigText
  import Utf8

  // The layout of notes is fixed by the format; these values by the ABI crate.
  datatype NoteAbi = NoteAbi(magic: Bytes, name: Bytes, bootType: u32, version: nat, infoSize: nat, nonPio: u32)

  // What this model relies on: an 8-byte magic, 16-bit version and size, and
  // room in the record for every field that is read.
  predicate AbiFits(abi: NoteAbi) {
    |abi.magic| == 8 && abi.version < 0x1_0000 && 80 <= abi.infoSize < 0x1_0000
  }

  datatype Rp1BootInfo = Rp1BootInfo(
    ownerRp1: nat, ownerLinux: nat, ownerDisabled: nat, mailboxFlags: nat, versionKind: nat)

  datatype NoteState = Valid(info: Rp1BootInfo) | Missing | Invalid

  // ---- The boot record ----------------------------------------------------

  function ParseBootInfo(desc: Bytes, abi: NoteAbi): NoteState
    requires AbiFits(abi)
  {
    if |desc| < abi.infoSize then Invalid
    else if desc[0..8] != abi.magic then Invalid
    else if Le(desc[8..10]) != abi.version then Invalid
    else if Le(desc[10..12]) != abi.infoSize then Invalid
    else if Le(desc[16..20]) != 0 then Invalid
    else if Le(desc[76..80]) != abi.nonPio then Invalid
    else
      var mailboxFlags := Le(desc[72..76]);
      // Only the two low flags are supported.
      if mailboxFlags / 4 != 0 then Invalid
      else Valid(Rp1BootInfo(Le(desc[48..56]), Le(desc[56..64]), Le(desc[64..72]), mailboxFlags, Le(desc[76..80])))
  }

  // The record that carries some information; the bytes no one reads are free.
  function BootRecord(info: Rp1BootInfo, abi: NoteAbi, gap: Bytes, more: Bytes, tail: Bytes): Bytes {
    abi.magic + ToLe(abi.version, 2) + ToLe(abi.infoSize, 2) + gap + ToLe(0, 4) + more
      + ToLe(info.ownerRp1, 8) + ToLe(info.ownerLinux, 8) + ToLe(info.ownerDisabled, 8)
      + ToLe(info.mailboxFlags, 4) + ToLe(info.versionKind, 4) + tail
  }

  predicate InfoFits(info: Rp1BootInfo, abi: NoteAbi) {
    && info.ownerRp1 < Pow256(8) && info.ownerLinux < Pow256(8) && info.ownerDisabled < Pow256(8)
    && info.mailboxFlags < 4 && info.versionKind == abi.nonPio
  }

  // ---- The notes ----------------------------------------------------------

  // One note with the padding its writer chose.
  datatype Note = Note(noteType: nat, name: Bytes, namePad: Bytes, desc: Bytes)

  function Align4(n: nat): (r: nat)
    ensures n <= r <= n + 3 && r % 4 == 0
  {
    (n + 3) / 4 * 4
  }

  predicate NoteFits(n: Note) {
    && n.noteType < TWO_32 && |n.name| < TWO_32 && |n.desc| < TWO_32
    && |n.namePad| == Align4(|n.name|) - |n.name|
  }

  function EncodeNote(n: Note): Bytes
    requires NoteFits(n)
  {
    ToLe(|n.name|, 4) + ToLe(|n.desc|, 4) + ToLe(n.noteType, 4) + n.name + n.namePad + n.desc
  }

  // The note at the front of some bytes, or nothing when they stop short.
  function ReadNote(t: Bytes): Option<Note> {
    if |t| < 12 then None else
    var nameEnd := 12 + Le(t[0..4]);
    var descStart := Align4(nameEnd);
    var descEnd := descStart + Le(t[4..8]);
    if descEnd > |t| then None
    else Some(Note(Le(t[8..12]), t[12..nameEnd], t[nameEnd..descStart], t[descStart..descEnd]))
  }

  // What follows a note that starts some bytes.
  function AfterNote(t: Bytes, n: Note): Bytes {
    var next := Align4(Align4(12 + |n.name|) + |n.desc|);
    if next <= |t| then t[next..] else []
  }

  predicate IsRp1(n: Note, abi: NoteAbi) {
    n.name == abi.name && n.noteType == abi.bootType
  }

  function ParseNotes(t: Bytes, abi: NoteAbi): NoteState
    requires AbiFits(abi)
    decreases |t|
  {
    if t == [] then Invalid else
    match ReadNote(t)
    case None => Invalid
    case Some(n) => if IsRp1(n, abi) then ParseBootInfo(n.desc, abi) else ParseNotes(AfterNote(t, n), abi)
  }

  // What is left of a section from some offset on.
  function Rest(section: Bytes, off: nat): Bytes {
    if off <= |section| then section[off..] else []
  }

  method ParseNoteSection(section: Bytes, abi: NoteAbi) returns (r: NoteState)
    requires AbiFits(abi)
    ensures r == ParseNotes(section, abi)
  {
    hide ParseBootInfo, ParseNotes, Le, Align4;
    var off := 0;
    while off < |section|
      invariant off % 4 == 0
      invariant ParseNotes(Rest(section, off), abi) == ParseNotes(section, abi)
      decreases |section| - off
    {
      if off + 12 > |section| {
        ShortAt(section, off, abi);
        return Invalid;
      }
      var nameSize := Le(section[off..off + 4]);
      var descSize := Le(section[off + 4..off + 8]);
      var noteType := Le(section[off + 8..off + 12]);
      var nameStart := off + 12;
      var nameEnd := nameStart + nameSize;
      var descStart := Align4(nameEnd);
      var descEnd := descStart + descSize;
      var next := Align4(descEnd);
      if nameEnd > |section| || descEnd > |section| {
        ShortAt(section, off, abi);
        return Invalid;
      }
      NoteAt(section, off, nameSize, descSize, abi);
      var name := section[nameStart..nameEnd];
      var desc := section[descStart..descEnd];
      if name == abi.name && noteType == abi.bootType {
        r := ParseBootInfo(desc, abi);
        return;
      }
      // The header alone moves the walk forward: it cannot stall.
      assert off < next;
      off := next;
    }
    assert Rest(section, off) == [];
    EmptySection(abi);
    r := Invalid;
  }

  lemma EmptySection(abi: NoteAbi)
    requires AbiFits(abi)
    ensures ParseNotes([], abi) == Invalid
  { }

  lemma AlignShift(off: nat, n: nat)
    requires off % 4 == 0
    ensures Align4(off + n) == off + Align4(n)
  { }

  lemma SlicesAt(section: Bytes, off: nat, i: nat, j: nat)
    requires i <= j && off + j <= |section|
    ensures section[off..][i..j] == section[off + i..off + j]
  { }

  lemma ShortAt(section: Bytes, off: nat, abi: NoteAbi)
    requires AbiFits(abi) && off % 4 == 0 && off < |section|
    requires off + 12 <= |section| ==>
               Align4(off + 12 + Le(section[off..off + 4])) + Le(section[off + 4..off + 8]) > |section|
    ensures ParseNotes(Rest(section, off), abi) == Invalid
  {
    hide Le, ParseBootInfo, Align4;
    if off + 12 <= |section| {
      SlicesAt(section, off, 0, 4);
      SlicesAt(section, off, 4, 8);
      AlignShift(off, 12 + Le(section[off..off + 4]));
    }
    assert ReadNote(section[off..]) == None;
  }

  lemma ReadAt(section: Bytes, off: nat, nameSize: nat, descSize: nat)
    requires off % 4 == 0 && off + 12 <= |section|
    requires nameSize == Le(section[off..off + 4]) && descSize == Le(section[off + 4..off + 8])
    requires Align4(off + 12 + nameSize) + descSize <= |section|
    ensures var r := ReadNote(section[off..]); var descStart := Align4(off + 12 + nameSize);
            && r.Some?
            && r.value.noteType == Le(section[off + 8..off + 12])
            && r.value.name == section[off + 12..off + 12 + nameSize]
            && r.value.desc == section[descStart..descStart + descSize]
  {
    hide Le, Align4;
    var t := section[off..];
    AlignShift(off, 12 + nameSize);
    SlicesAt(section, off, 0, 4);
    SlicesAt(section, off, 4, 8);
    SlicesAt(section, off, 8, 12);
    SlicesAt(section, off, 12, 12 + nameSize);
    SlicesAt(section, off, Align4(12 + nameSize), Align4(12 + nameSize) + descSize);
    assert |t| >= 12 && Le(t[0..4]) == nameSize && Le(t[4..8]) == descSize;
    assert ReadNote(t).Some?;
  }

  // The note at an aligned offset is the one at the front of what is left.
  lemma NoteAt(section: Bytes, off: nat, nameSize: nat, descSize: nat, abi: NoteAbi)
    requires AbiFits(abi) && off % 4 == 0 && off + 12 <= |section|
    requires nameSize == Le(section[off..off + 4]) && descSize == Le(section[off + 4..off + 8])
    requires Align4(off + 12 + nameSize) + descSize <= |section|
    ensures var descStart := Align4(off + 12 + nameSize);
            ParseNotes(Rest(section, off), abi) ==
            if section[off + 12..off + 12 + nameSize] == abi.name && Le(section[off + 8..off + 12]) == abi.bootType
            then ParseBootInfo(section[descStart..descStart + descSize], abi)
            else ParseNotes(Rest(section, Align4(descStart + descSize)), abi)
  {
    hide Le, ParseBootInfo, Align4, ReadNote;
    ReadAt(section, off, nameSize, descSize);
    var t := section[off..];
    var n := ReadNote(t).value;
    AlignShift(off, 12 + nameSize);
    AlignShift(off, Align4(12 + nameSize) + descSize);
    assert AfterNote(t, n) == Rest(section, off + Align4(Align4(12 + nameSize) + descSize));
  }

  // ---- Sections as lists of notes -----------------------------------------

  // A note, and the padding that brings the next one to a multiple of four.
  datatype Entry = Entry(note: Note, descPad: Bytes)

  predicate EntryFits(e: Entry) {
    NoteFits(e.note) && |e.descPad| == Align4(|e.note.desc|) - |e.note.desc|
  }

  predicate AllFit(entries: seq<Entry>) {
    forall i :: 0 <= i < |entries| ==> EntryFits(entries[i])
  }

  function EncodeEntries(entries: seq<Entry>): Bytes
    requires AllFit(entries)
  {
    if entries == [] then [] else EncodeNote(entries[0].note) + entries[0].descPad + EncodeEntries(entries[1..])
  }

  function FirstRp1(entries: seq<Entry>, abi: NoteAbi): Option<Note> {
    if entries == [] then None
    else if IsRp1(entries[0].note, abi) then Some(entries[0].note)
    else FirstRp1(entries[1..], abi)
  }

  lemma EncodedSlices(n: Note, rest: Bytes)
    requires NoteFits(n)
    ensures var t := EncodeNote(n) + rest;
            var nameEnd := 12 + |n.name|; var descStart := nameEnd + |n.namePad|; var descEnd := descStart + |n.desc|;
            && descEnd <= |t|
            && t[0..4] == ToLe(|n.name|, 4) && t[4..8] == ToLe(|n.desc|, 4) && t[8..12] == ToLe(n.noteType, 4)
            && t[12..nameEnd] == n.name && t[nameEnd..descStart] == n.namePad
            && t[descStart..descEnd] == n.desc && t[descEnd..] == rest
  { }

  lemma ReadEncoded(n: Note, rest: Bytes)
    requires NoteFits(n)
    ensures ReadNote(EncodeNote(n) + rest) == Some(n)
  {
    hide Le, ToLe, Align4, Pow256, EncodeNote;
    var t := EncodeNote(n) + rest;
    EncodedSlices(n, rest);
    assert Le(t[0..4]) == |n.name| && Le(t[4..8]) == |n.desc| && Le(t[8..12]) == n.noteType by {
      Widths();
      ToLeThenLe(|n.name|, 4);
      ToLeThenLe(|n.desc|, 4);
      ToLeThenLe(n.noteType, 4);
    }
    AlignShift(12, |n.name|);
  }

  lemma AfterEncoded(n: Note, rest: Bytes)
    requires NoteFits(n) && Align4(|n.desc|) - |n.desc| <= |rest|
    ensures AfterNote(EncodeNote(n) + rest, n) == rest[Align4(|n.desc|) - |n.desc|..]
  {
    hide ToLe, Align4, EncodeNote;
    EncodedSlices(n, rest);
    AlignShift(12, |n.name|);
    var descStart := 12 + |n.name| + |n.namePad|;
    IsAligned(12 + |n.name|);
    AlignShift(descStart, |n.desc|);
    var t := EncodeNote(n) + rest;
    var pad := Align4(|n.desc|) - |n.desc|;
    assert t[descStart + |n.desc| + pad..] == t[descStart + |n.desc|..][pad..];
  }

  lemma IsAligned(n: nat)
    ensures Align4(n) % 4 == 0
  { }

  // A well-formed section gives the record of its first RP1 note, and nothing
  // that comes before or after that note matters.
  lemma {:induction false} FirstRp1NoteDecides(entries: seq<Entry>, abi: NoteAbi)
    requires AbiFits(abi) && AllFit(entries)
    ensures ParseNotes(EncodeEntries(entries), abi) ==
            match FirstRp1(entries, abi)
            case Some(n) => ParseBootInfo(n.desc, abi)
            case None => Invalid
  {
    hide EncodeNote, ReadNote, AfterNote, ParseBootInfo, IsRp1, Align4;
    if entries != [] {
      var e := entries[0];
      assert EntryFits(e) && AllFit(entries[1..]);
      var rest := e.descPad + EncodeEntries(entries[1..]);
      assert EncodeEntries(entries) == EncodeNote(e.note) + rest;
      ReadEncoded(e.note, rest);
      AfterEncoded(e.note, rest);
      assert rest[|e.descPad|..] == EncodeEntries(entries[1..]);
      NotesAreNotEmpty(e.note);
      FirstRp1NoteDecides(entries[1..], abi);
    }
  }

  lemma NotesAreNotEmpty(n: Note)
    requires NoteFits(n)
    ensures |EncodeNote(n)| >= 12
  { }

  // A section is accepted only if it is such a list of notes up to its first
  // RP1 note, whose record is accepted; the bytes after that note are free.
  lemma {:induction false} AcceptedSectionsAreLists(t: Bytes, abi: NoteAbi)
    returns (before: seq<Entry>, n: Note, after: Bytes)
    requires AbiFits(abi) && ParseNotes(t, abi).Valid?
    ensures AllFit(before) && NoteFits(n)
    ensures t == EncodeEntries(before) + EncodeNote(n) + after
    ensures FirstRp1(before, abi) == None && IsRp1(n, abi)
    ensures ParseNotes(t, abi) == ParseBootInfo(n.desc, abi)
    decreases |t|
  {
    hide EncodeNote, AfterNote, ParseBootInfo, IsRp1, Align4, ReadNote;
    n := ReadNote(t).value;
    var rest := EncodeRead(t);
    if IsRp1(n, abi) {
      before, after := [], rest;
    } else {
      // An accepted section goes on after this note, so its padding is there.
      var tail := AfterNote(t, n);
      var first := n;
      AfterIsShorter(t, n);
      before, n, after := AcceptedSectionsAreLists(tail, abi);
      assert tail != [];
      var pad := PadBefore(first, rest);
      var e := Entry(first, pad);
      assert ([e] + before)[1..] == before;
      before := [e] + before;
      assert EncodeEntries(before) == EncodeNote(first) + pad + EncodeEntries(before[1..]);
    }
  }

  lemma AfterIsShorter(t: Bytes, n: Note)
    requires t != []
    ensures |AfterNote(t, n)| < |t|
  { }

  lemma EncodeRead(t: Bytes) returns (rest: Bytes)
    requires ReadNote(t).Some?
    ensures NoteFits(ReadNote(t).value)
    ensures t == EncodeNote(ReadNote(t).value) + rest
  {
    hide Le, ToLe, Align4;
    var n := ReadNote(t).value;
    Widths();
    LeThenToLe(t[0..4]);
    LeThenToLe(t[4..8]);
    LeThenToLe(t[8..12]);
    AlignShift(12, |n.name|);
    rest := t[Align4(12 + |n.name|) + |n.desc|..];
    Glue(t, 12 + |n.name|, Align4(12 + |n.name|), Align4(12 + |n.name|) + |n.desc|);
  }

  lemma Glue(t: Bytes, nameEnd: nat, descStart: nat, descEnd: nat)
    requires 12 <= nameEnd <= descStart <= descEnd <= |t|
    ensures t == t[0..4] + t[4..8] + t[8..12] + t[12..nameEnd] + t[nameEnd..descStart] + t[descStart..descEnd] + t[descEnd..]
  { }

  lemma PadBefore(n: Note, rest: Bytes) returns (pad: Bytes)
    requires NoteFits(n)
    ensures var after := AfterNote(EncodeNote(n) + rest, n);
            after != [] ==> EntryFits(Entry(n, pad)) && rest == pad + after
  {
    hide EncodeNote, Align4;
    var size := Align4(|n.desc|) - |n.desc|;
    if size <= |rest| {
      pad := rest[..size];
      AfterEncoded(n, rest);
    } else {
      pad := [];
      NoRoomForPad(n, rest);
    }
  }

  lemma NoRoomForPad(n: Note, rest: Bytes)
    requires NoteFits(n) && |rest| < Align4(|n.desc|) - |n.desc|
    ensures AfterNote(EncodeNote(n) + rest, n) == []
  {
    hide ToLe, Align4;
    AlignShift(12, |n.name|);
    IsAligned(12 + |n.name|);
    AlignShift(12 + |n.name| + |n.namePad|, |n.desc|);
  }

  // ---- Records as encodings -----------------------------------------------

  // The fields of a record, cut at their offsets.
  function Cut(desc: Bytes): seq<Bytes>
    requires |desc| >= 80
  {
    [desc[0..8], desc[8..10], desc[10..12], desc[12..16], desc[16..20], desc[20..48],
     desc[48..56], desc[56..64], desc[64..72], desc[72..76], desc[76..80], desc[80..]]
  }

  lemma CutRecord(info: Rp1BootInfo, abi: NoteAbi, gap: Bytes, more: Bytes, tail: Bytes)
    requires AbiFits(abi) && |gap| == 4 && |more| == 28
    ensures |BootRecord(info, abi, gap, more, tail)| == 80 + |tail|
    ensures Cut(BootRecord(info, abi, gap, more, tail)) ==
            [abi.magic, ToLe(abi.version, 2), ToLe(abi.infoSize, 2), gap, ToLe(0, 4), more,
             ToLe(info.ownerRp1, 8), ToLe(info.ownerLinux, 8), ToLe(info.ownerDisabled, 8),
             ToLe(info.mailboxFlags, 4), ToLe(info.versionKind, 4), tail]
  {
    hide ToLe;
    var d := BootRecord(info, abi, gap, more, tail);
    assert d[0..8] == abi.magic;
    assert d[8..10] == ToLe(abi.version, 2);
    assert d[10..12] == ToLe(abi.infoSize, 2);
    assert d[12..16] == gap;
    assert d[16..20] == ToLe(0, 4);
    assert d[20..48] == more;
    assert d[48..56] == ToLe(info.ownerRp1, 8);
    assert d[56..64] == ToLe(info.ownerLinux, 8);
    assert d[64..72] == ToLe(info.ownerDisabled, 8);
    assert d[72..76] == ToLe(info.mailboxFlags, 4);
    assert d[76..80] == ToLe(info.versionKind, 4);
    assert d[80..] == tail;
  }

  lemma RecordRoundTrip(info: Rp1BootInfo, abi: NoteAbi, gap: Bytes, more: Bytes, tail: Bytes)
    requires AbiFits(abi) && InfoFits(info, abi)
    requires |gap| == 4 && |more| == 28 && abi.infoSize <= 80 + |tail|
    ensures ParseBootInfo(BootRecord(info, abi, gap, more, tail), abi) == Valid(info)
  {
    var d := BootRecord(info, abi, gap, more, tail);
    CutRecord(info, abi, gap, more, tail);
    Widths();
    ToLeThenLe(abi.version, 2);
    ToLeThenLe(abi.infoSize, 2);
    ToLeThenLe(0, 4);
    ToLeThenLe(info.ownerRp1, 8);
    ToLeThenLe(info.ownerLinux, 8);
    ToLeThenLe(info.ownerDisabled, 8);
    ToLeThenLe(info.mailboxFlags, 4);
    ToLeThenLe(info.versionKind, 4);
    hide ToLe, Le, BootRecord;
    var c := Cut(d);
    assert c[0] == d[0..8] && c[1] == d[8..10] && c[2] == d[10..12] && c[4] == d[16..20];
    assert c[6] == d[48..56] && c[7] == d[56..64] && c[8] == d[64..72] && c[9] == d[72..76] && c[10] == d[76..80];
  }

  // Only such records are accepted: their free bytes are the two gaps and
  // whatever follows.
  lemma AcceptedRecordIsEncoding(desc: Bytes, abi: NoteAbi)
    requires AbiFits(abi) && ParseBootInfo(desc, abi).Valid?
    ensures var info := ParseBootInfo(desc, abi).info;
            && InfoFits(info, abi)
            && desc == BootRecord(info, abi, desc[12..16], desc[20..48], desc[80..])
  {
    hide ToLe, Le;
    AcceptedFields(desc, abi);
    FieldsMakeRecord(desc);
  }

  lemma AcceptedFields(desc: Bytes, abi: NoteAbi)
    requires AbiFits(abi) && ParseBootInfo(desc, abi).Valid?
    ensures var info := ParseBootInfo(desc, abi).info;
            && InfoFits(info, abi)
            && desc[0..8] == abi.magic && desc[8..10] == ToLe(abi.version, 2) && desc[10..12] == ToLe(abi.infoSize, 2)
            && desc[16..20] == ToLe(0, 4) && desc[48..56] == ToLe(info.ownerRp1, 8)
            && desc[56..64] == ToLe(info.ownerLinux, 8) && desc[64..72] == ToLe(info.ownerDisabled, 8)
            && desc[72..76] == ToLe(info.mailboxFlags, 4) && desc[76..80] == ToLe(info.versionKind, 4)
  {
    hide ToLe, Le, Pow256;
    LeThenToLe(desc[8..10]);
    LeThenToLe(desc[10..12]);
    LeThenToLe(desc[16..20]);
    LeThenToLe(desc[48..56]);
    LeThenToLe(desc[56..64]);
    LeThenToLe(desc[64..72]);
    LeThenToLe(desc[72..76]);
    LeThenToLe(desc[76..80]);
  }

  lemma FieldsMakeRecord(desc: Bytes)
    requires |desc| >= 80
    ensures desc == desc[0..8] + desc[8..10] + desc[10..12] + desc[12..16] + desc[16..20] + desc[20..48]
                  + desc[48..56] + desc[56..64] + desc[64..72] + desc[72..76] + desc[76..80] + desc[80..]
  { }

  // ---- The policy of a boot -----------------------------------------------

  function ParseRp1Note(elf: Bytes, abi: NoteAbi): NoteState
    requires AbiFits(abi)
  {
    match ElfSections.NoteSection(elf)
    case None => Missing
    case Some(section) => ParseNotes(section, abi)
  }

  function PolicyForBoot(elf: Bytes, config: Option<Bytes>, abi: NoteAbi, bit: DeviceNumbers)
    : Result<Rp1DtbPolicy, BootError>
    requires AbiFits(abi)
  {
    match ParseRp1Note(elf, abi)
    case Valid(info) => FromNote(info.ownerRp1, info.ownerLinux, info.ownerDisabled, bit)
    case Missing =>
      (match ConfigText.ParseFile(config, bit)
       case Err(_) => Err(Rp1ConfigInvalid)
       case Ok(c) => if c.forceBoot then FromConfig(c.ownerTableSeen, c.owners, bit) else Err(MissingRp1Note))
    case Invalid => Err(InvalidRp1Note)
  }

  method EnforceNotePolicy(elf: Bytes, config: Option<Bytes>, abi: NoteAbi, bit: DeviceNumbers)
    returns (r: Result<Rp1DtbPolicy, BootError>)
    requires AbiFits(abi)
    ensures r == PolicyForBoot(elf, config, abi, bit)
  {
    hide ElfSections.NoteSection, ParseNotes, ConfigText.ParseFile, FromNote, FromConfig;
    var section := ElfSections.FindNoteSection(elf);
    var state := Missing;
    if section.Some? {
      state := ParseNoteSection(section.value, abi);
    }
    match state {
      case Valid(info) =>
        r := FromNote(info.ownerRp1, info.ownerLinux, info.ownerDisabled, bit);
      case Missing =>
        var parsed := ConfigText.ParseOptionalConfig(config, bit);
        if parsed.Err? {
          r := Err(Rp1ConfigInvalid);
        } else if parsed.value.forceBoot {
          r := FromConfig(parsed.value.ownerTableSeen, parsed.value.owners, bit);
        } else {
          r := Err(MissingRp1Note);
        }
      case Invalid =>
        r := Err(InvalidRp1Note);
    }
  }

  // No walk reports a missing note: that verdict means there was no section.
  lemma {:induction false} WalkNeverMissing(t: Bytes, abi: NoteAbi)
    requires AbiFits(abi)
    ensures ParseNotes(t, abi) != Missing
    decreases |t|
  {
    hide ReadNote, AfterNote, IsRp1;
    if t != [] && ReadNote(t).Some? {
      AfterIsShorter(t, ReadNote(t).value);
      WalkNeverMissing(AfterNote(t, ReadNote(t).value), abi);
    }
  }

  // Whatever the image and the file contain, a policy that comes out of them
  // is an acceptable decision for the ten devices; and the file is heard only
  // when the image has no note section at all.
  lemma BootPolicyIsValid(elf: Bytes, config: Option<Bytes>, abi: NoteAbi, bit: DeviceNumbers)
    requires AbiFits(abi) && Distinct(bit) && PolicyForBoot(elf, config, abi, bit).Ok?
    ensures var m := PolicyForBoot(elf, config, abi, bit).value.masks;
            Validate(m, bit).Ok? && m == MasksOf(OwnersIn(m, bit), bit) && Acceptable(OwnersIn(m, bit))
    ensures PolicyForBoot(elf, config, abi, bit).value.source == FromConfigSource <==> ElfSections.NoteSection(elf) == None
  {
    hide Validate, ParseNotes, ConfigText.ParseFile, ElfSections.NoteSection;
    if ElfSections.NoteSection(elf).Some? {
      WalkNeverMissing(ElfSections.NoteSection(elf).value, abi);
    }
    ValidateIsPartition(PolicyForBoot(elf, config, abi, bit).value.masks, bit);
  }

  // A damaged note refuses the boot even if the file would allow it.
  lemma FileNeverOverridesANote(elf: Bytes, a: Option<Bytes>, b: Option<Bytes>, abi: NoteAbi, bit: DeviceNumbers)
    requires AbiFits(abi) && ElfSections.NoteSection(elf).Some?
    ensures PolicyForBoot(elf, a, abi, bit) == PolicyForBoot(elf, b, abi, bit)
  {
    hide ElfSections.NoteSection, ParseNotes;
    WalkNeverMissing(ElfSections.NoteSection(elf).value, abi);
  }

  // Without a note section, the file yields a policy exactly when it is a text all of whose lines can be read
  // where they stand, names no device twice, forces the boot in its last line about that, and has an owner
  // table that names a policy; without a file there is none.
  lemma FilePolicyIff(elf: Bytes, bytes: Bytes, abi: NoteAbi, bit: DeviceNumbers)
    requires AbiFits(abi) && Distinct(bit) && ElfSections.NoteSection(elf) == None
    ensures PolicyForBoot(elf, None, abi, bit) == Err(MissingRp1Note)
    ensures PolicyForBoot(elf, Some(bytes), abi, bit).Ok? <==>
            && Utf8.Decode(bytes).Some?
            && var lines := ConfigText.Lines(Utf8.Decode(bytes).value);
               && ConfigText.AllReadable(lines, ConfigText.Root)
               && ConfigText.NamedOnce(ConfigText.Namings(lines, ConfigText.Root))
               && ConfigText.LastOf(ConfigText.Forcings(lines, ConfigText.Root), false)
               && ConfigText.NamesAPolicy(lines)
  {
    hide ElfSections.NoteSection, ConfigText.AllReadable, ConfigText.NamedOnce, ConfigText.Namings, ConfigText.NamesAPolicy;
    hide ConfigText.Lines, ConfigText.Forcings, ConfigText.Parse, Utf8.Decode, FromConfig;
    if Utf8.Decode(bytes).Some? {
      var text := Utf8.Decode(bytes).value;
      ConfigText.ParseIff(text, bit);
      if ConfigText.Parse(text, bit).Ok? {
        ConfigText.ConfigIsPolicyIff(text, bit);
      }
    }
  }
}
