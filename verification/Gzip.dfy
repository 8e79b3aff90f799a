/** The gzip member header around a compressed kernel (gzip.rs:80-120; section 2.3 of RFC 1952). */
module Gzip {
  import opened Prelude
  import opened LittleEndian

  datatype Member = Member(payload: Bytes, isize: nat)

  predicate HasFlag(flg: byte, bit: nat)
    requires bit > 0
  {
    flg / bit % 2 == 1
  }

  const FHCRC := 0x02
  const FEXTRA := 0x04
  const FNAME := 0x08
  const FCOMMENT := 0x10

  // ---- Skipping the optional fields ---------------------------------------

  // The bytes after a zero-terminated string, or nothing if it never ends.
  function AfterCstr(t: Bytes): Option<Bytes> {
    if t == [] then None
    else if t[0] == 0 then Some(t[1..])
    else AfterCstr(t[1..])
  }

  // The bytes after the extra field. Its length need not fit: the header is
  // then left with nothing, which a later check refuses.
  function AfterExtra(t: Bytes): Option<Bytes> {
    if |t| < 2 then None
    else if 2 + Le(t[0..2]) <= |t| then Some(t[2 + Le(t[0..2])..])
    else Some([])
  }

  function AfterTwo(t: Bytes): Bytes {
    if |t| < 2 then [] else t[2..]
  }

  // The name and the comment, where the flags announce them.
  function AfterTexts(name: bool, comment: bool, t: Bytes): Option<Bytes> {
    if !name then (if comment then AfterCstr(t) else Some(t)) else
    match AfterCstr(t)
    case None => None
    case Some(u) => if comment then AfterCstr(u) else Some(u)
  }

  // What follows the optional fields that the flags announce.
  function AfterFields(flg: byte, t: Bytes): Option<Bytes> {
    match if HasFlag(flg, FEXTRA) then AfterExtra(t) else Some(t)
    case None => None
    case Some(a) =>
      match AfterTexts(HasFlag(flg, FNAME), HasFlag(flg, FCOMMENT), a)
      case None => None
      case Some(b) => Some(if HasFlag(flg, FHCRC) then AfterTwo(b) else b)
  }

  function Parse(input: Bytes): Option<Member> {
    if |input| < 18 || input[0] != 0x1f || input[1] != 0x8b || input[2] != 8 then None else
    match AfterFields(input[3], input[10..])
    case None => None
    case Some(rest) =>
      if |rest| <= 8 then None
      else Some(Member(rest[..|rest| - 8], Le(input[|input| - 4..])))
  }

  function From(input: Bytes, off: nat): Bytes {
    if off <= |input| then input[off..] else []
  }

  lemma CstrAt(input: Bytes, i: nat)
    requires i < |input|
    ensures AfterCstr(From(input, i)) == if input[i] == 0 then Some(input[i + 1..]) else AfterCstr(From(input, i + 1))
  { }

  lemma EndOfInput(input: Bytes, i: nat)
    requires i >= |input|
    ensures AfterCstr(From(input, i)) == None
  { }

  method SkipCstr(input: Bytes, start: nat) returns (off: Option<nat>)
    ensures off.None? <==> AfterCstr(From(input, start)).None?
    ensures off.Some? ==> start < off.value <= |input| && AfterCstr(From(input, start)) == Some(input[off.value..])
  {
    hide AfterCstr, From;
    var i := start;
    while i < |input|
      invariant start <= i
      invariant i == start || i <= |input|
      invariant AfterCstr(From(input, i)) == AfterCstr(From(input, start))
      decreases |input| - i
    {
      CstrAt(input, i);
      var b := input[i];
      i := i + 1;
      if b == 0 {
        return Some(i);
      }
    }
    EndOfInput(input, i);
    return None;
  }

  lemma ExtraAt(input: Bytes, off: nat)
    requires off + 2 <= |input|
    ensures AfterExtra(From(input, off)) == Some(From(input, off + 2 + Le(input[off..off + 2])))
  {
    hide Le;
    var t := input[off..];
    assert t[0..2] == input[off..off + 2];
    var n := 2 + Le(input[off..off + 2]);
    if n <= |t| {
      assert t[n..] == input[off + n..];
    }
  }

  lemma TwoAt(input: Bytes, off: nat)
    ensures AfterTwo(From(input, off)) == From(input, off + 2)
  { }

  lemma ParseAt(input: Bytes, off: nat)
    requires |input| >= 18 && input[0] == 0x1f && input[1] == 0x8b && input[2] == 8
    requires off >= 10 && AfterFields(input[3], input[10..]) == Some(From(input, off))
    ensures off >= |input| - 8 ==> Parse(input) == None
    ensures off < |input| - 8 ==> Parse(input) == Some(Member(input[off..|input| - 8], Le(input[|input| - 4..])))
  {
    hide AfterFields, Le;
    if off < |input| - 8 {
      var rest := input[off..];
      assert rest[..|rest| - 8] == input[off..|input| - 8];
    }
  }

  method SkipTexts(input: Bytes, start: nat, name: bool, comment: bool) returns (off: Option<nat>)
    ensures off.None? <==> AfterTexts(name, comment, From(input, start)).None?
    ensures off.Some? ==> start <= off.value && AfterTexts(name, comment, From(input, start)) == Some(From(input, off.value))
  {
    hide AfterCstr, From;
    off := Some(start);
    if name {
      off := SkipCstr(input, start);
      if off.None? {
        return;
      }
      FromAt(input, off.value);
    }
    if comment {
      off := SkipCstr(input, off.value);
      if off.Some? {
        FromAt(input, off.value);
      }
    }
  }

  method ParseGzip(input: Bytes) returns (r: Option<(nat, nat, nat)>)
    ensures r.None? <==> Parse(input).None?
    ensures r.Some? ==>
              var (start, end, isize) := r.value;
              10 <= start < end == |input| - 8 && Parse(input) == Some(Member(input[start..end], isize))
  {
    hide AfterExtra, AfterCstr, AfterTwo, Le, HasFlag, From, Parse, AfterTexts;
    if |input| < 18 || input[0] != 0x1f || input[1] != 0x8b || input[2] != 8 {
      NotAMember(input);
      return None;
    }
    var flg := input[3];
    var off := 10;
    FromAt(input, off);
    if HasFlag(flg, FEXTRA) {
      // Eighteen bytes of input always hold the length.
      ExtraAt(input, off);
      var xlen := Le(input[off..off + 2]);
      off := off + 2 + xlen;
    }
    var texts := SkipTexts(input, off, HasFlag(flg, FNAME), HasFlag(flg, FCOMMENT));
    if texts.None? {
      NoFields(input);
      return None;
    }
    off := texts.value;
    if HasFlag(flg, FHCRC) {
      TwoAt(input, off);
      off := off + 2;
    }
    ParseAt(input, off);
    if off >= |input| - 8 {
      return None;
    }
    var trailer := |input| - 8;
    var isize := Le(input[|input| - 4..]);
    return Some((off, trailer, isize));
  }

  lemma FromAt(input: Bytes, off: nat)
    requires off <= |input|
    ensures From(input, off) == input[off..]
  { }

  lemma NotAMember(input: Bytes)
    requires |input| < 18 || input[0] != 0x1f || input[1] != 0x8b || input[2] != 8
    ensures Parse(input) == None
  { }

  lemma NoFields(input: Bytes)
    requires |input| >= 18 && AfterFields(input[3], input[10..]) == None
    ensures Parse(input) == None
  { }

  // ---- Members as encodings -----------------------------------------------

  // The optional fields of a header; a check value is two bytes.
  datatype Fields = Fields(
    extra: Option<Bytes>, name: Option<Bytes>, comment: Option<Bytes>, check: Option<Bytes>)

  // Bits 1 to 4 of the flags tell of a check value, an extra field, a name and a comment.
  predicate Announces(flg: byte, f: Fields) {
    && (flg / 2 % 2 == 1 <==> f.check.Some?)
    && (flg / 4 % 2 == 1 <==> f.extra.Some?)
    && (flg / 8 % 2 == 1 <==> f.name.Some?)
    && (flg / 16 % 2 == 1 <==> f.comment.Some?)
  }

  lemma FlagsAreBits(flg: byte)
    ensures HasFlag(flg, FHCRC) <==> flg / 2 % 2 == 1
    ensures HasFlag(flg, FEXTRA) <==> flg / 4 % 2 == 1
    ensures HasFlag(flg, FNAME) <==> flg / 8 % 2 == 1
    ensures HasFlag(flg, FCOMMENT) <==> flg / 16 % 2 == 1
  { }

  predicate FieldsFit(f: Fields) {
    && (f.extra.Some? ==> |f.extra.value| < 0x1_0000)
    && (f.name.Some? ==> 0 !in f.name.value)
    && (f.comment.Some? ==> 0 !in f.comment.value)
    && (f.check.Some? ==> |f.check.value| == 2)
  }

  function EncodeExtra(x: Option<Bytes>): Bytes {
    match x
    case None => []
    case Some(b) => ToLe(|b|, 2) + b
  }

  function EncodeText(x: Option<Bytes>): Bytes {
    match x
    case None => []
    case Some(b) => b + [0]
  }

  function EncodeCheck(x: Option<Bytes>): Bytes {
    match x
    case None => []
    case Some(b) => b
  }

  function EncodeFields(f: Fields): Bytes {
    EncodeExtra(f.extra) + (EncodeText(f.name) + (EncodeText(f.comment) + EncodeCheck(f.check)))
  }

  // `stamp` is the time, level and system bytes, `crc` the payload's check.
  function Encode(flg: byte, stamp: Bytes, f: Fields, payload: Bytes, crc: Bytes, isize: nat): Bytes {
    [0x1f, 0x8b, 8, flg] + stamp + (EncodeFields(f) + (payload + (crc + ToLe(isize, 4))))
  }

  lemma {:induction false} CstrEncoded(text: Bytes, rest: Bytes)
    requires 0 !in text
    ensures AfterCstr(text + [0] + rest) == Some(rest)
  {
    var t := text + [0] + rest;
    if text == [] {
      assert t[0] == 0 && t[1..] == rest;
    } else {
      assert t[0] == text[0] && text[0] in text;
      assert t[1..] == text[1..] + [0] + rest;
      CstrEncoded(text[1..], rest);
    }
  }

  lemma ExtraEncoded(x: Bytes, rest: Bytes)
    requires |x| < 0x1_0000
    ensures AfterExtra(ToLe(|x|, 2) + x + rest) == Some(rest)
  {
    hide Le, ToLe, Pow256;
    Widths();
    ToLeThenLe(|x|, 2);
    var t := ToLe(|x|, 2) + x + rest;
    assert t[0..2] == ToLe(|x|, 2);
    assert t[2 + |x|..] == rest;
  }

  lemma ExtraStage(x: Option<Bytes>, rest: Bytes)
    requires x.Some? ==> |x.value| < 0x1_0000
    ensures (if x.Some? then AfterExtra(EncodeExtra(x) + rest) else Some(EncodeExtra(x) + rest)) == Some(rest)
  {
    hide AfterExtra, ToLe;
    if x.Some? {
      ExtraEncoded(x.value, rest);
    } else {
      assert EncodeExtra(x) + rest == rest;
    }
  }

  lemma TextStage(x: Option<Bytes>, rest: Bytes)
    requires x.Some? ==> 0 !in x.value
    ensures (if x.Some? then AfterCstr(EncodeText(x) + rest) else Some(EncodeText(x) + rest)) == Some(rest)
  {
    hide AfterCstr;
    if x.Some? {
      CstrEncoded(x.value, rest);
    } else {
      assert EncodeText(x) + rest == rest;
    }
  }

  lemma CheckStage(x: Option<Bytes>, rest: Bytes)
    requires x.Some? ==> |x.value| == 2
    ensures (if x.Some? then AfterTwo(EncodeCheck(x) + rest) else EncodeCheck(x) + rest) == rest
  { }

  lemma FieldsEncoded(flg: byte, f: Fields, rest: Bytes)
    requires Announces(flg, f) && FieldsFit(f)
    ensures AfterFields(flg, EncodeFields(f) + rest) == Some(rest)
  {
    hide AfterExtra, AfterCstr, AfterTwo, HasFlag, EncodeExtra, EncodeText, EncodeCheck;
    FlagsAreBits(flg);
    var afterText := EncodeCheck(f.check) + rest;
    var afterName := EncodeText(f.comment) + afterText;
    var afterExtra := EncodeText(f.name) + afterName;
    Regroup(EncodeExtra(f.extra), EncodeText(f.name), EncodeText(f.comment), EncodeCheck(f.check), rest);
    ExtraStage(f.extra, afterExtra);
    TextStage(f.name, afterName);
    TextStage(f.comment, afterText);
    CheckStage(f.check, rest);
  }

  // Whatever optional fields a member has, its payload and length come back,
  // unless the payload is empty, which is refused.
  lemma EncodeThenParse(flg: byte, stamp: Bytes, f: Fields, payload: Bytes, crc: Bytes, isize: nat)
    requires Announces(flg, f) && FieldsFit(f) && |stamp| == 6 && |crc| == 4 && isize < TWO_32
    ensures Parse(Encode(flg, stamp, f, payload, crc, isize)) ==
            if payload == [] then None else Some(Member(payload, isize))
  {
    hide AfterFields, HasFlag, EncodeFields, ToLe, Le, Pow256, Announces, FieldsFit;
    var input := Encode(flg, stamp, f, payload, crc, isize);
    var rest := payload + (crc + ToLe(isize, 4));
    assert input[10..] == EncodeFields(f) + rest;
    FieldsEncoded(flg, f, rest);
    Widths();
    ToLeThenLe(isize, 4);
    assert input[|input| - 4..] == ToLe(isize, 4);
    assert rest[..|rest| - 8] == payload;
  }

  lemma {:induction false} CstrSplit(t: Bytes) returns (text: Bytes)
    requires AfterCstr(t).Some?
    ensures 0 !in text && t == text + [0] + AfterCstr(t).value
    decreases |t|
  {
    if t[0] == 0 {
      text := [];
      assert t == [0] + t[1..];
    } else {
      text := CstrSplit(t[1..]);
      assert t == [t[0]] + t[1..];
      text := [t[0]] + text;
    }
  }

  lemma ExtraSplit(t: Bytes) returns (x: Bytes)
    requires AfterExtra(t).Some? && AfterExtra(t).value != []
    ensures |x| < 0x1_0000 && t == ToLe(|x|, 2) + x + AfterExtra(t).value
  {
    hide Le, ToLe, Pow256;
    Widths();
    LeThenToLe(t[0..2]);
    x := t[2..2 + Le(t[0..2])];
    assert t == t[0..2] + t[2..2 + |x|] + t[2 + |x|..];
  }

  lemma TextPart(announced: bool, t: Bytes) returns (x: Option<Bytes>)
    requires announced ==> AfterCstr(t).Some?
    ensures x.Some? == announced && (announced ==> 0 !in x.value)
    ensures t == EncodeText(x) + (if announced then AfterCstr(t).value else t)
  {
    hide AfterCstr;
    if announced {
      var text := CstrSplit(t);
      x := Some(text);
    } else {
      x := None;
    }
  }

  lemma ExtraPart(announced: bool, t: Bytes) returns (x: Option<Bytes>)
    requires announced ==> AfterExtra(t).Some? && AfterExtra(t).value != []
    ensures x.Some? == announced && (announced ==> |x.value| < 0x1_0000)
    ensures t == EncodeExtra(x) + (if announced then AfterExtra(t).value else t)
  {
    hide AfterExtra;
    if announced {
      var extra := ExtraSplit(t);
      x := Some(extra);
    } else {
      x := None;
    }
  }

  lemma CheckPart(announced: bool, t: Bytes) returns (x: Option<Bytes>)
    requires announced ==> AfterTwo(t) != []
    ensures x.Some? == announced && (announced ==> |x.value| == 2)
    ensures t == EncodeCheck(x) + (if announced then AfterTwo(t) else t)
  {
    x := if announced then Some(t[..2]) else None;
  }

  lemma Regroup(a: Bytes, b: Bytes, c: Bytes, d: Bytes, end: Bytes)
    ensures a + (b + (c + (d + end))) == (a + (b + (c + d))) + end
  { }

  lemma FieldsSplit(flg: byte, t: Bytes) returns (f: Fields)
    requires AfterFields(flg, t).Some? && AfterFields(flg, t).value != []
    ensures Announces(flg, f) && FieldsFit(f) && t == EncodeFields(f) + AfterFields(flg, t).value
  {
    hide AfterExtra, AfterCstr, AfterTwo, HasFlag, EncodeExtra, EncodeText, EncodeCheck;
    FlagsAreBits(flg);
    var hasExtra, hasName := HasFlag(flg, FEXTRA), HasFlag(flg, FNAME);
    var hasComment, hasCheck := HasFlag(flg, FCOMMENT), HasFlag(flg, FHCRC);
    var a := if hasExtra then AfterExtra(t).value else t;
    var b := if hasName then AfterCstr(a).value else a;
    var c := if hasComment then AfterCstr(b).value else b;
    var end := AfterFields(flg, t).value;
    assert end == if hasCheck then AfterTwo(c) else c;
    if a == [] {
      EmptyEndsEmpty(flg);
    }
    var extra := ExtraPart(hasExtra, t);
    var name := TextPart(hasName, a);
    var comment := TextPart(hasComment, b);
    var check := CheckPart(hasCheck, c);
    f := Fields(extra, name, comment, check);
    Regroup(EncodeExtra(extra), EncodeText(name), EncodeText(comment), EncodeCheck(check), end);
  }

  lemma EmptyEndsEmpty(flg: byte)
    ensures var b := AfterTexts(HasFlag(flg, FNAME), HasFlag(flg, FCOMMENT), []);
            b.Some? ==> b.value == [] && AfterTwo(b.value) == []
  { }

  // Only encodings of non-empty payloads are accepted.
  lemma AcceptedIsEncoding(input: Bytes) returns (f: Fields, stamp: Bytes, crc: Bytes)
    requires Parse(input).Some?
    ensures Announces(input[3], f) && FieldsFit(f) && |stamp| == 6 && |crc| == 4
    ensures var m := Parse(input).value;
            && m.payload != [] && m.isize < TWO_32
            && input == Encode(input[3], stamp, f, m.payload, crc, m.isize)
  {
    hide AfterFields, HasFlag, EncodeFields, ToLe, Le, Pow256, Announces, FieldsFit;
    f := FieldsSplit(input[3], input[10..]);
    var rest := AfterFields(input[3], input[10..]).value;
    var n := |rest|;
    stamp, crc := input[4..10], rest[n - 8..n - 4];
    Widths();
    var isize := input[|input| - 4..];
    LeThenToLe(isize);
    assert rest[n - 4..] == isize;
    assert rest == rest[..n - 8] + (crc + rest[n - 4..]);
    assert input == input[..4] + stamp + input[10..];
    assert input[..4] == [0x1f, 0x8b, 8, input[3]];
  }
}
