/** The RP1.img container: header checks, payload slice and the payload checksum. */
module Rp1Image {
  import opened Prelude
  import opened WireWords
  import opened Crc32
  import opened CrcBursts
  import CrcStandard

  datatype ImageError = Rp1ImageInvalid | Rp1ImageCrcMismatch

  datatype Image = Image(payload: seq<bv8>, loadAddr: bv32, entry: bv32, stack: bv32)

  const RP1_IMG_MAGIC: bv32 := 0x4931_5052 // "RP1I", little-endian
  const RP1_SRAM_BASE: bv32 := 0x2000_0000
  const RP1_MAX_IMAGE_LEN: nat := 0x1_0000
  const RP1_HEADER_LEN_MIN: nat := 0x20

  function SaturatingAdd(a: bv32, b: bv32): bv32 {
    if a + b < a then 0xffff_ffff else a + b
  }

  // The address of the first instruction, its Thumb bit aside, lies inside the loaded image.
  predicate EntryInImage(entry: bv32, loadAddr: bv32, imageLen: bv32) {
    var addr := entry & 0xffff_fffe;
    loadAddr <= addr < SaturatingAdd(loadAddr, imageLen)
  }

  datatype Header = Header(
    magic: bv32, headerLen: bv32, imageLen: bv32, loadAddr: bv32, entry: bv32, stack: bv32, crc: bv32)

  function HeaderOf(bytes: seq<bv8>): Header
    requires |bytes| >= RP1_HEADER_LEN_MIN
  {
    Header(Le32(bytes, 0), Le32(bytes, 4), Le32(bytes, 8), Le32(bytes, 12), Le32(bytes, 16), Le32(bytes, 20), Le32(bytes, 24))
  }

  function Size(w: bv32): nat {
    w as int
  }

  // The header describes a payload that lies inside a file of this size.
  predicate InFile(h: Header, size: nat) {
    RP1_HEADER_LEN_MIN <= Size(h.headerLen) && Size(h.headerLen) + Size(h.imageLen) <= size
  }

  predicate Acceptable(h: Header) {
    && h.magic == RP1_IMG_MAGIC
    && 0 < Size(h.imageLen) <= RP1_MAX_IMAGE_LEN
    && h.loadAddr == RP1_SRAM_BASE
    && h.stack != 0
    && EntryInImage(h.entry, h.loadAddr, h.imageLen)
  }

  function Thumb(entry: bv32): bv32 {
    entry | 1
  }

  function PayloadAt(bytes: seq<bv8>, h: Header): seq<bv8>
    requires InFile(h, |bytes|)
  {
    bytes[Size(h.headerLen)..Size(h.headerLen) + Size(h.imageLen)]
  }

  function Judge(h: Header, payload: seq<bv8>): Result<Image, ImageError> {
    if h.crc != 0 && Crc(payload) != h.crc then Err(Rp1ImageCrcMismatch)
    else Ok(Image(payload, h.loadAddr, Thumb(h.entry), h.stack))
  }

  function ParseRp1Img(bytes: seq<bv8>): Result<Image, ImageError> {
    if |bytes| < RP1_HEADER_LEN_MIN then Err(Rp1ImageInvalid)
    else
      var h := HeaderOf(bytes);
      if !InFile(h, |bytes|) || !Acceptable(h) then Err(Rp1ImageInvalid)
      else Judge(h, PayloadAt(bytes, h))
  }

  // The checksum a file's header states.
  function StatedCrc(bytes: seq<bv8>): bv32
    requires |bytes| >= RP1_HEADER_LEN_MIN
  {
    HeaderOf(bytes).crc
  }

  lemma AcceptedShape(bytes: seq<bv8>)
    requires ParseRp1Img(bytes).Ok?
    ensures |bytes| >= RP1_HEADER_LEN_MIN
    ensures var h := HeaderOf(bytes);
            && InFile(h, |bytes|) && Acceptable(h)
            && ParseRp1Img(bytes).value == Image(PayloadAt(bytes, h), h.loadAddr, Thumb(h.entry), h.stack)
  { }

  lemma AcceptedCrc(bytes: seq<bv8>)
    requires ParseRp1Img(bytes).Ok?
    ensures |bytes| >= RP1_HEADER_LEN_MIN
    ensures StatedCrc(bytes) != 0 ==> StatedCrc(bytes) == Crc(ParseRp1Img(bytes).value.payload)
  {
    hide HeaderOf, Acceptable, Crc, Size;
  }

  // The file after its payload has been replaced by another of the same length.
  function WithPayload(bytes: seq<bv8>, payload: seq<bv8>): (r: seq<bv8>)
    requires ParseRp1Img(bytes).Ok? && |payload| == |ParseRp1Img(bytes).value.payload|
  {
    Replaced(bytes, Size(HeaderOf(bytes).headerLen), payload)
  }

  function Replaced(bytes: seq<bv8>, at: nat, payload: seq<bv8>): (r: seq<bv8>)
    requires at + |payload| <= |bytes|
    ensures |r| == |bytes| && r[at..at + |payload|] == payload
  {
    bytes[..at] + payload + bytes[at + |payload|..]
  }

  lemma WordKept(bytes: seq<bv8>, at: nat, payload: seq<bv8>, off: nat)
    requires off + 4 <= at && at + |payload| <= |bytes|
    ensures Le32(Replaced(bytes, at, payload), off) == Le32(bytes, off)
  {
    hide FromLe;
    var r := Replaced(bytes, at, payload);
    assert r[off] == bytes[off] && r[off + 1] == bytes[off + 1] && r[off + 2] == bytes[off + 2] && r[off + 3] == bytes[off + 3];
  }

  lemma HeaderKept(bytes: seq<bv8>, at: nat, payload: seq<bv8>)
    requires RP1_HEADER_LEN_MIN <= at && at + |payload| <= |bytes|
    ensures HeaderOf(Replaced(bytes, at, payload)) == HeaderOf(bytes)
  {
    hide Le32, Replaced;
    WordKept(bytes, at, payload, 0);
    WordKept(bytes, at, payload, 4);
    WordKept(bytes, at, payload, 8);
    WordKept(bytes, at, payload, 12);
    WordKept(bytes, at, payload, 16);
    WordKept(bytes, at, payload, 20);
    WordKept(bytes, at, payload, 24);
  }

  // Replacing an accepted file's payload is noticed exactly by the stated checksum, if one is stated.
  lemma ReplacedPayload(bytes: seq<bv8>, payload: seq<bv8>)
    requires ParseRp1Img(bytes).Ok? && |payload| == |ParseRp1Img(bytes).value.payload|
    ensures ParseRp1Img(WithPayload(bytes, payload))
         == if StatedCrc(bytes) != 0 && Crc(payload) != StatedCrc(bytes) then Err(Rp1ImageCrcMismatch)
            else Ok(ParseRp1Img(bytes).value.(payload := payload))
  {
    hide HeaderOf, Acceptable, Crc, Size, Thumb, Replaced;
    AcceptedShape(bytes);
    HeaderKept(bytes, Size(HeaderOf(bytes).headerLen), payload);
  }

  // Main result: a burst of up to 32 bits in an accepted image's payload is refused,
  // if and only if the header states a checksum (a zero field switches the check off).
  lemma BurstIsRefused(bytes: seq<bv8>, e: seq<bv8>, i: nat)
    requires ParseRp1Img(bytes).Ok?
    requires |e| == |ParseRp1Img(bytes).value.payload| && BurstAt(e, i)
    ensures var payload := ParseRp1Img(bytes).value.payload;
            var r := ParseRp1Img(WithPayload(bytes, Xor(payload, e)));
            && (StatedCrc(bytes) != 0 <==> r == Err(Rp1ImageCrcMismatch))
            && (StatedCrc(bytes) == 0 ==> r.Ok? && r.value.payload == Xor(payload, e))
  {
    hide HeaderOf, Acceptable, Crc, Size, Xor, BurstAt, ParseRp1Img, InFile;
    AcceptedShape(bytes);
    AcceptedCrc(bytes);
    var payload := ParseRp1Img(bytes).value.payload;
    BurstChangesCrc(payload, e, i);
    ReplacedPayload(bytes, Xor(payload, e));
  }

  // ---- Every well-formed file is read back ----

  // Seven header words, then the flags word and any further bytes the stated header length covers.
  function EncodeImg(fields: seq<bv32>, padding: seq<bv8>, payload: seq<bv8>, trailer: seq<bv8>): seq<bv8> {
    Words(fields) + (padding + payload + trailer)
  }

  // Seven header words, in the order of a header's fields.
  function HeaderWords(h: Header): seq<bv32> {
    [h.magic, h.headerLen, h.imageLen, h.loadAddr, h.entry, h.stack, h.crc]
  }

  lemma EncodeThenParse(h: Header, padding: seq<bv8>, payload: seq<bv8>, trailer: seq<bv8>)
    requires Acceptable(h) && (h.crc == 0 || h.crc == Crc(payload))
    requires Size(h.headerLen) == 28 + |padding| >= RP1_HEADER_LEN_MIN && Size(h.imageLen) == |payload|
    ensures ParseRp1Img(EncodeImg(HeaderWords(h), padding, payload, trailer))
         == Ok(Image(payload, RP1_SRAM_BASE, Thumb(h.entry), h.stack))
  {
    hide HeaderOf, EntryInImage, Crc, Size, Thumb, Words, HeaderWords;
    var rest := padding + payload + trailer;
    var bytes := Words(HeaderWords(h)) + rest;
    HeaderReadBack(h, rest);
    MiddleSlice(Words(HeaderWords(h)), padding, payload, trailer);
    assert PayloadAt(bytes, h) == payload;
  }

  // The format in numbers: "RP1I" in front, 1 to 64 KiB loaded at 0x20000000, an entry inside, a stack.
  predicate MeetsFormat(h: Header) {
    && h.magic == 0x4931_5052 && 1 <= Size(h.imageLen) <= 65536 && h.loadAddr == 0x2000_0000 && h.stack != 0
    && EntryInside(h.entry, h.imageLen)
  }

  predicate EntryInside(entry: bv32, imageLen: bv32) {
    0x2000_0000 <= entry & 0xffff_fffe && (entry & 0xffff_fffe) - 0x2000_0000 < imageLen
  }

  // Main result: a file is accepted exactly when it meets the format, its header has at least 32 bytes, and its
  // checksum, if not zero, is the standard one.
  lemma AcceptedIff(h: Header, padding: seq<bv8>, payload: seq<bv8>, trailer: seq<bv8>)
    requires Size(h.headerLen) == 28 + |padding| && Size(h.imageLen) == |payload|
    ensures var r := ParseRp1Img(EncodeImg(HeaderWords(h), padding, payload, trailer));
            && (r.Ok? <==>
                  MeetsFormat(h) && 4 <= |padding| && (h.crc == 0 || h.crc == CrcStandard.StandardCrc(payload)))
            && (r.Ok? ==> r.value == Image(payload, 0x2000_0000, h.entry | 1, h.stack))
  {
    FormatIff(h);
    hide HeaderOf, Acceptable, MeetsFormat, InFile, Crc, Size, Words, HeaderWords, CrcStandard.StandardCrc;
    CrcStandard.CrcIsStandard(payload);
    ParseOfEncoded(h, padding, payload, trailer);
  }

  lemma ParseOfEncoded(h: Header, padding: seq<bv8>, payload: seq<bv8>, trailer: seq<bv8>)
    requires Size(h.headerLen) == 28 + |padding| && Size(h.imageLen) == |payload|
    ensures ParseRp1Img(EncodeImg(HeaderWords(h), padding, payload, trailer))
         == if 4 <= |padding| && Acceptable(h) then Judge(h, payload) else Err(Rp1ImageInvalid)
  {
    hide HeaderOf, Acceptable, Crc, Size, Words, HeaderWords, Judge;
    var rest := padding + payload + trailer;
    var bytes := Words(HeaderWords(h)) + rest;
    SevenWords(h);
    if |rest| >= 4 {
      HeaderReadBack(h, rest);
      if 4 <= |padding| {
        MiddleSlice(Words(HeaderWords(h)), padding, payload, trailer);
        assert PayloadAt(bytes, h) == payload;
      }
    }
  }

  lemma SevenWords(h: Header)
    ensures |Words(HeaderWords(h))| == 28
  { }

  lemma FormatIff(h: Header)
    ensures Acceptable(h) <==> MeetsFormat(h)
    ensures Acceptable(h) ==> h.loadAddr == 0x2000_0000
  {
    hide Size, EntryInImage, EntryInside;
    if Size(h.imageLen) <= 65536 {
      SmallSize(h.imageLen);
      EntriesAgree(h.entry, h.imageLen);
    }
  }

  lemma SmallSize(w: bv32)
    requires Size(w) <= 65536
    ensures w <= 65536
  { }

  lemma EntriesAgree(entry: bv32, imageLen: bv32)
    requires imageLen <= 65536
    ensures EntryInImage(entry, 0x2000_0000, imageLen) <==> EntryInside(entry, imageLen)
  { }

  lemma HeaderReadBack(h: Header, rest: seq<bv8>)
    requires |rest| >= 4
    ensures |Words(HeaderWords(h))| == 28
    ensures HeaderOf(Words(HeaderWords(h)) + rest) == h
  {
    FieldWords(HeaderWords(h), rest);
    hide Le32, Words;
  }

  lemma FieldWords(fields: seq<bv32>, rest: seq<bv8>)
    requires |fields| == 7
    ensures var bytes := Words(fields) + rest;
            && Le32(bytes, 0) == fields[0] && Le32(bytes, 4) == fields[1] && Le32(bytes, 8) == fields[2]
            && Le32(bytes, 12) == fields[3] && Le32(bytes, 16) == fields[4] && Le32(bytes, 20) == fields[5]
            && Le32(bytes, 24) == fields[6]
  {
    hide FromLe, Le32, Words, ToLe;
    WordAt(fields, 0, rest);
    WordAt(fields, 1, rest);
    WordAt(fields, 2, rest);
    WordAt(fields, 3, rest);
    WordAt(fields, 4, rest);
    WordAt(fields, 5, rest);
    WordAt(fields, 6, rest);
  }

  lemma MiddleSlice(a: seq<bv8>, b: seq<bv8>, c: seq<bv8>, d: seq<bv8>)
    ensures (a + (b + c + d))[|a| + |b|..|a| + |b| + |c|] == c
  {
  }
}
