/** Finding the boot note in an RP1 ELF image by its section headers (rp1_note.rs:32-59, 163-200). */
module ElfSections {
  import opened Prelude
  import opened LittleEndian

  // ".note.rp1"
  const NOTE_SECTION: Bytes := [46, 110, 111, 116, 101, 46, 114, 112, 49]

  const HEADER_SIZE: nat := 40

  // A little-endian field, if the bytes reach that far.
  function Field(bytes: Bytes, off: nat, n: nat): Option<nat> {
    if off + n <= |bytes| then Some(Le(bytes[off..off + n])) else None
  }

  // Where the section headers are.
  datatype Table = Table(at: nat, size: nat, count: nat)

  function HeaderOf(elf: Bytes, t: Table, idx: nat): (sh: Option<Bytes>)
    ensures sh.Some? ==> |sh.value| == HEADER_SIZE
  {
    var off := t.at + idx * t.size;
    if off + HEADER_SIZE <= |elf| then Some(elf[off..off + HEADER_SIZE]) else None
  }

  function DataOf(elf: Bytes, sh: Bytes): Option<Bytes>
    requires |sh| == HEADER_SIZE
  {
    var off, size := Le(sh[16..20]), Le(sh[20..24]);
    if off + size <= |elf| then Some(elf[off..off + size]) else None
  }

  // Where the first zero byte is, or the length.
  function FirstZero(s: Bytes): (r: nat)
    ensures r <= |s|
    ensures r < |s| ==> s[r] == 0
    ensures forall k :: 0 <= k < r ==> s[k] != 0
  {
    if s == [] || s[0] == 0 then 0 else 1 + FirstZero(s[1..])
  }

  // The zero-terminated name at an offset of the name table.
  function NameAt(names: Bytes, off: nat): Option<Bytes> {
    if off > |names| then None else
    var rest := names[off..];
    var end := FirstZero(rest);
    if end == |rest| then None else Some(rest[..end])
  }

  predicate IsNote(names: Bytes, sh: Bytes)
    requires |sh| == HEADER_SIZE
  {
    NameAt(names, Le(sh[0..4])) == Some(NOTE_SECTION)
  }

  function Search(elf: Bytes, t: Table, names: Bytes, idx: nat): Option<Bytes>
    decreases t.count - idx
  {
    if idx >= t.count then None else
    match HeaderOf(elf, t, idx)
    case None => None
    case Some(sh) => if IsNote(names, sh) then DataOf(elf, sh) else Search(elf, t, names, idx + 1)
  }

  // A 32-bit little-endian ELF file with a usable table of section headers.
  function TableOf(elf: Bytes): Option<(Table, nat)> {
    if |elf| < 6 || elf[0..4] != [0x7f, 69, 76, 70] || elf[4] != 1 || elf[5] != 1 then None else
    match (Field(elf, 32, 4), Field(elf, 46, 2), Field(elf, 48, 2), Field(elf, 50, 2))
    case (Some(at), Some(size), Some(count), Some(nameIndex)) =>
      if at == 0 || size < HEADER_SIZE || count == 0 || nameIndex >= count then None
      else Some((Table(at, size, count), nameIndex))
    case _ => None
  }

  function NamesOf(elf: Bytes, t: Table, nameIndex: nat): Option<Bytes> {
    match HeaderOf(elf, t, nameIndex)
    case None => None
    case Some(sh) => DataOf(elf, sh)
  }

  function NoteSection(elf: Bytes): Option<Bytes> {
    match TableOf(elf)
    case None => None
    case Some((t, nameIndex)) =>
      match NamesOf(elf, t, nameIndex)
      case None => None
      case Some(names) => Search(elf, t, names, 0)
  }

  method ReadTable(elf: Bytes) returns (table: Option<(Table, nat)>)
    ensures table == TableOf(elf)
  {
    hide Le;
    if |elf| < 4 || elf[0..4] != [0x7f, 'E' as int, 'L' as int, 'F' as int] {
      return None;
    }
    if |elf| < 6 || elf[4] != 1 || elf[5] != 1 {
      return None;
    }
    var shoff := Field(elf, 32, 4);
    if shoff.None? {
      return None;
    }
    var shentsize := Field(elf, 46, 2);
    if shentsize.None? {
      return None;
    }
    var shnum := Field(elf, 48, 2);
    if shnum.None? {
      return None;
    }
    var shstrndx := Field(elf, 50, 2);
    if shstrndx.None? {
      return None;
    }
    if shoff.value == 0 || shentsize.value < 40 || shnum.value == 0 || shstrndx.value >= shnum.value {
      return None;
    }
    return Some((Table(shoff.value, shentsize.value, shnum.value), shstrndx.value));
  }

  method FindNoteSection(elf: Bytes) returns (section: Option<Bytes>)
    ensures section == NoteSection(elf)
  {
    hide HeaderOf, DataOf, IsNote, TableOf;
    var table := ReadTable(elf);
    if table.None? {
      return None;
    }
    var (t, nameIndex) := table.value;
    var shstr := HeaderOf(elf, t, nameIndex);
    if shstr.None? {
      return None;
    }
    var names := DataOf(elf, shstr.value);
    if names.None? {
      return None;
    }
    for idx := 0 to t.count
      invariant Search(elf, t, names.value, idx) == Search(elf, t, names.value, 0)
    {
      var sh := HeaderOf(elf, t, idx);
      if sh.None? {
        return None;
      }
      if IsNote(names.value, sh.value) {
        return DataOf(elf, sh.value);
      }
    }
    return None;
  }

  // ---- What the search finds ----

  // The header with this index is the first one of that name.
  ghost predicate FirstNote(elf: Bytes, t: Table, names: Bytes, from: nat, idx: nat) {
    && from <= idx < t.count
    && (forall j :: from <= j <= idx ==> HeaderOf(elf, t, j).Some?)
    && (forall j :: from <= j < idx ==> !IsNote(names, HeaderOf(elf, t, j).value))
    && IsNote(names, HeaderOf(elf, t, idx).value)
  }

  lemma {:induction false} SearchFindsFirst(elf: Bytes, t: Table, names: Bytes, from: nat, data: Bytes)
    ensures Search(elf, t, names, from) == Some(data) <==>
            exists idx :: FirstNote(elf, t, names, from, idx) && DataOf(elf, HeaderOf(elf, t, idx).value) == Some(data)
    decreases t.count - from
  {
    hide HeaderOf, DataOf, IsNote;
    if from < t.count && HeaderOf(elf, t, from).Some? {
      var sh := HeaderOf(elf, t, from).value;
      if IsNote(names, sh) {
        assert FirstNote(elf, t, names, from, from);
      } else {
        SearchFindsFirst(elf, t, names, from + 1, data);
        forall idx ensures FirstNote(elf, t, names, from, idx) <==> FirstNote(elf, t, names, from + 1, idx) { }
      }
    }
  }

  predicate PieceOf(elf: Bytes, data: Bytes, off: nat) {
    off + |data| <= |elf| && data == elf[off..off + |data|]
  }

  // The boot note is the data of the first section header that bears its name, provided every header up to
  // that one can be read; and it is a piece of the file.
  lemma NoteIsFirstOfItsName(elf: Bytes, data: Bytes)
    ensures NoteSection(elf) == Some(data) <==>
            && TableOf(elf).Some?
            && var (t, nameIndex) := TableOf(elf).value;
               && NamesOf(elf, t, nameIndex).Some?
               && exists idx :: FirstNote(elf, t, NamesOf(elf, t, nameIndex).value, 0, idx)
                                && DataOf(elf, HeaderOf(elf, t, idx).value) == Some(data)
    ensures NoteSection(elf) == Some(data) ==> exists off :: PieceOf(elf, data, off)
  {
    hide HeaderOf, DataOf, IsNote, PieceOf;
    if TableOf(elf).Some? {
      var (t, nameIndex) := TableOf(elf).value;
      if NamesOf(elf, t, nameIndex).Some? {
        var names := NamesOf(elf, t, nameIndex).value;
        SearchFindsFirst(elf, t, names, 0, data);
        if NoteSection(elf) == Some(data) {
          var idx :| FirstNote(elf, t, names, 0, idx) && DataOf(elf, HeaderOf(elf, t, idx).value) == Some(data);
          DataIsAPiece(elf, HeaderOf(elf, t, idx).value);
        }
      }
    }
  }

  lemma DataIsAPiece(elf: Bytes, sh: Bytes)
    requires |sh| == HEADER_SIZE && DataOf(elf, sh).Some?
    ensures exists off :: PieceOf(elf, DataOf(elf, sh).value, off)
  {
    assert PieceOf(elf, DataOf(elf, sh).value, Le(sh[16..20]));
  }

  // ---- A file that is written is found ----

  datatype SectionHeader = SectionHeader(nameAt: nat, gap: Bytes, at: nat, size: nat, more: Bytes)

  predicate HeaderFits(h: SectionHeader) {
    h.nameAt < TWO_32 && h.at < TWO_32 && h.size < TWO_32 && |h.gap| == 12 && |h.more| == 16
  }

  function EncodeHeader(h: SectionHeader): (b: Bytes)
    requires HeaderFits(h)
    ensures |b| == 40
  {
    ToLe(h.nameAt, 4) + h.gap + ToLe(h.at, 4) + ToLe(h.size, 4) + h.more
  }

  predicate AllHeadersFit(hs: seq<SectionHeader>) {
    forall j :: 0 <= j < |hs| ==> HeaderFits(hs[j])
  }

  function EncodeTable(hs: seq<SectionHeader>): (b: Bytes)
    requires AllHeadersFit(hs)
    ensures |b| == 40 * |hs|
  {
    if hs == [] then [] else EncodeHeader(hs[0]) + EncodeTable(hs[1..])
  }

  // The file header: class 32-bit, little-endian, then where the section headers are, their size and number, and
  // which of them holds the names. What no one reads is free.
  function EncodeFront(tableAt: nat, count: nat, nameIndex: nat, gap: Bytes, more: Bytes): (b: Bytes)
    requires |gap| == 26 && |more| == 10
    ensures |b| == 52
  {
    [0x7f, 0x45, 0x4c, 0x46, 1, 1] + gap + ToLe(tableAt, 4) + more + ToLe(40, 2) + ToLe(count, 2) + ToLe(nameIndex, 2)
  }

  // The contents of all sections lie between the file header and the section headers.
  function EncodeElf(contents: Bytes, hs: seq<SectionHeader>, nameIndex: nat, gap: Bytes, more: Bytes): Bytes
    requires AllHeadersFit(hs) && |gap| == 26 && |more| == 10
  {
    EncodeFront(52 + |contents|, |hs|, nameIndex, gap, more) + contents + EncodeTable(hs)
  }

  lemma FrontFields(tableAt: nat, count: nat, nameIndex: nat, gap: Bytes, more: Bytes, rest: Bytes)
    requires |gap| == 26 && |more| == 10 && tableAt < TWO_32 && count < 65536 && nameIndex < 65536
    ensures var elf := EncodeFront(tableAt, count, nameIndex, gap, more) + rest;
            && elf[0..4] == [0x7f, 69, 76, 70] && elf[4] == 1 && elf[5] == 1
            && Field(elf, 32, 4) == Some(tableAt) && Field(elf, 46, 2) == Some(40)
            && Field(elf, 48, 2) == Some(count) && Field(elf, 50, 2) == Some(nameIndex)
  {
    Widths();
    ToLeThenLe(tableAt, 4);
    ToLeThenLe(40, 2);
    ToLeThenLe(count, 2);
    ToLeThenLe(nameIndex, 2);
    hide ToLe, Le, Pow256;
    FrontSlices([0x7f, 0x45, 0x4c, 0x46, 1, 1], gap, ToLe(tableAt, 4), more, ToLe(40, 2), ToLe(count, 2), ToLe(nameIndex, 2), rest);
  }

  lemma FrontSlices(ident: Bytes, gap: Bytes, at: Bytes, more: Bytes, size: Bytes, count: Bytes, index: Bytes, rest: Bytes)
    requires |ident| == 6 && |gap| == 26 && |at| == 4 && |more| == 10 && |size| == |count| == |index| == 2
    ensures var elf := ident + gap + at + more + size + count + index + rest;
            && elf[0..4] == ident[..4] && elf[4] == ident[4] && elf[5] == ident[5]
            && elf[32..36] == at && elf[46..48] == size && elf[48..50] == count && elf[50..52] == index
  { }

  lemma {:induction false} HeaderInTable(hs: seq<SectionHeader>, j: nat)
    requires AllHeadersFit(hs) && j < |hs|
    ensures EncodeTable(hs)[40 * j..40 * j + 40] == EncodeHeader(hs[j])
  {
    hide EncodeHeader;
    if j > 0 {
      HeaderInTable(hs[1..], j - 1);
      var rest := EncodeTable(hs[1..]);
      assert EncodeTable(hs)[40 * j..40 * j + 40] == rest[40 * (j - 1)..40 * (j - 1) + 40];
    }
  }

  lemma HeaderFields(h: SectionHeader)
    requires HeaderFits(h)
    ensures var sh := EncodeHeader(h);
            Le(sh[0..4]) == h.nameAt && Le(sh[16..20]) == h.at && Le(sh[20..24]) == h.size
  {
    Widths();
    ToLeThenLe(h.nameAt, 4);
    ToLeThenLe(h.at, 4);
    ToLeThenLe(h.size, 4);
    hide ToLe, Le, Pow256;
    var sh := EncodeHeader(h);
    assert sh[0..4] == ToLe(h.nameAt, 4) && sh[16..20] == ToLe(h.at, 4) && sh[20..24] == ToLe(h.size, 4);
  }

  // ".note.rp1", with the zero that ends it.
  const NAME_AND_ZERO: Bytes := [0x2e, 0x6e, 0x6f, 0x74, 0x65, 0x2e, 0x72, 0x70, 0x31, 0]

  predicate Named(names: Bytes, nameAt: nat) {
    nameAt + 10 <= |names| && names[nameAt..nameAt + 10] == NAME_AND_ZERO
  }

  lemma FirstZeroIs(s: Bytes, k: nat)
    requires k < |s| && s[k] == 0 && forall j :: 0 <= j < k ==> s[j] != 0
    ensures FirstZero(s) == k
  { }

  lemma NamedIff(names: Bytes, nameAt: nat)
    ensures NameAt(names, nameAt) == Some(NOTE_SECTION) <==> Named(names, nameAt)
  {
    hide FirstZero;
    if nameAt <= |names| {
      var rest := names[nameAt..];
      if Named(names, nameAt) {
        assert forall j :: 0 <= j < 10 ==> rest[j] == NAME_AND_ZERO[j];
        FirstZeroIs(rest, 9);
        assert rest[..9] == NOTE_SECTION;
      }
      if NameAt(names, nameAt) == Some(NOTE_SECTION) {
        assert FirstZero(rest) == 9 && rest[9] == 0;
        assert names[nameAt..nameAt + 10] == rest[..9] + [0];
        assert NOTE_SECTION + [0] == NAME_AND_ZERO;
      }
    }
  }

  // A piece of the contents, as a section header points to it.
  predicate PointsInto(h: SectionHeader, contents: Bytes) {
    52 <= h.at && h.at + h.size <= 52 + |contents|
  }

  function Pointed(h: SectionHeader, contents: Bytes): Bytes
    requires PointsInto(h, contents)
  {
    contents[h.at - 52..h.at - 52 + h.size]
  }

  lemma PointedIsData(elf: Bytes, contents: Bytes, h: SectionHeader)
    requires HeaderFits(h) && PointsInto(h, contents)
    requires 52 + |contents| <= |elf| && elf[52..52 + |contents|] == contents
    ensures DataOf(elf, EncodeHeader(h)) == Some(Pointed(h, contents))
  {
    HeaderFields(h);
    hide Le, EncodeHeader;
    var n := 52 + |contents|;
    forall k | h.at <= k < h.at + h.size ensures elf[k] == contents[k - 52] {
      assert elf[52..n][k - 52] == elf[k];
    }
    assert elf[h.at..h.at + h.size] == contents[h.at - 52..h.at - 52 + h.size];
  }

  // Main result: of a file that is written with any section headers, names and contents, the note section is what
  // the first header named ".note.rp1" points to.
  lemma WrittenNoteIsFound(contents: Bytes, hs: seq<SectionHeader>, nameIndex: nat, idx: nat, gap: Bytes, more: Bytes)
    requires AllHeadersFit(hs) && |gap| == 26 && |more| == 10
    requires 52 + |contents| < TWO_32 && |hs| < 65536 && nameIndex < |hs| && idx < |hs|
    requires PointsInto(hs[nameIndex], contents) && PointsInto(hs[idx], contents)
    requires var names := Pointed(hs[nameIndex], contents);
             Named(names, hs[idx].nameAt) && forall j :: 0 <= j < idx ==> !Named(names, hs[j].nameAt)
    ensures NoteSection(EncodeElf(contents, hs, nameIndex, gap, more)) == Some(Pointed(hs[idx], contents))
  {
    hide EncodeFront, EncodeTable, EncodeHeader, NameAt, Named, DataOf, Pointed, Field, AllHeadersFit, HeaderFits;
    var elf := EncodeElf(contents, hs, nameIndex, gap, more);
    var t := Table(52 + |contents|, 40, |hs|);
    FrontFields(t.at, |hs|, nameIndex, gap, more, contents + EncodeTable(hs));
    var front := EncodeFront(t.at, |hs|, nameIndex, gap, more);
    assert elf == front + (contents + EncodeTable(hs));
    assert TableOf(elf) == Some((t, nameIndex));
    assert elf[52..52 + |contents|] == contents;
    var names := Pointed(hs[nameIndex], contents);
    forall j | 0 <= j < |hs| ensures
      && HeaderOf(elf, t, j) == Some(WrittenHeader(hs, j)) && (IsNote(names, WrittenHeader(hs, j)) <==> Named(names, hs[j].nameAt))
    {
      HeaderIsRead(elf, contents, hs, j);
      NamedIff(names, hs[j].nameAt);
      FieldsOfWritten(hs, j);
    }
    FieldsOfWritten(hs, nameIndex);
    FieldsOfWritten(hs, idx);
    PointedIsData(elf, contents, hs[nameIndex]);
    PointedIsData(elf, contents, hs[idx]);
    hide HeaderOf, IsNote, TableOf;
    assert NamesOf(elf, t, nameIndex) == Some(names);
    assert FirstNote(elf, t, names, 0, idx);
    NoteIsFirstOfItsName(elf, Pointed(hs[idx], contents));
  }

  function WrittenHeader(hs: seq<SectionHeader>, j: nat): (b: Bytes)
    requires AllHeadersFit(hs) && j < |hs|
    ensures |b| == HEADER_SIZE
  {
    EncodeHeader(hs[j])
  }

  lemma FieldsOfWritten(hs: seq<SectionHeader>, j: nat)
    requires AllHeadersFit(hs) && j < |hs|
    ensures HeaderFits(hs[j]) && WrittenHeader(hs, j) == EncodeHeader(hs[j])
    ensures Le(WrittenHeader(hs, j)[0..4]) == hs[j].nameAt
  {
    HeaderFields(hs[j]);
  }

  lemma HeaderIsRead(elf: Bytes, contents: Bytes, hs: seq<SectionHeader>, j: nat)
    requires AllHeadersFit(hs) && j < |hs|
    requires |elf| == 52 + |contents| + 40 * |hs| && elf[52 + |contents|..] == EncodeTable(hs)
    ensures HeaderOf(elf, Table(52 + |contents|, 40, |hs|), j) == Some(WrittenHeader(hs, j))
  {
    hide EncodeTable, EncodeHeader, AllHeadersFit;
    HeaderInTable(hs, j);
    var n := 52 + |contents|;
    SliceOfRest(elf, n, 40 * j, 40 * j + 40);
    HeaderAt(elf, Table(n, 40, |hs|), j);
  }

  lemma SliceOfRest(s: Bytes, n: nat, i: nat, k: nat)
    requires i <= k && n + k <= |s|
    ensures s[n..][i..k] == s[n + i..n + k]
  { }

  lemma HeaderAt(elf: Bytes, t: Table, j: nat)
    requires t.size == 40 && t.at + 40 * j + 40 <= |elf|
    ensures HeaderOf(elf, t, j) == Some(elf[t.at + 40 * j..t.at + (40 * j + 40)])
  { }
}
