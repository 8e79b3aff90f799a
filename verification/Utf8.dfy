/** UTF-8 (section 3 of RFC 3629): the bytes of a text, and which bytes are a text. */
module Utf8 {
  import opened Prelude
  import opened LittleEndian

  // Continuation bytes carry six bits each.
  function Tail(n: nat): byte {
    0x80 + n % 64
  }

  predicate IsTail(b: byte) {
    0x80 <= b < 0xc0
  }

  function EncodeChar(c: char): (b: Bytes)
    ensures 1 <= |b| <= 4
  {
    var n := c as int;
    if n < 0x80 then [n]
    else if n < 0x800 then [0xc0 + n / 64, Tail(n)]
    else if n < 0x1_0000 then [0xe0 + n / 64 / 64, Tail(n / 64), Tail(n)]
    else [0xf0 + n / 64 / 64 / 64, Tail(n / 64 / 64), Tail(n / 64), Tail(n)]
  }

  function Encode(s: string): Bytes {
    if s == "" then [] else EncodeChar(s[0]) + Encode(s[1..])
  }

  // The number of bytes a character takes, told from its first.
  function Width(lead: byte): nat {
    if lead < 0x80 then 1 else if 0xc0 <= lead < 0xe0 then 2 else if 0xe0 <= lead < 0xf0 then 3
    else if 0xf0 <= lead < 0xf8 then 4 else 0
  }

  // The least number that needs so many bytes.
  function Least(width: nat): nat {
    if width == 2 then 0x80 else if width == 3 then 0x800 else if width == 4 then 0x1_0000 else 0
  }

  predicate IsScalar(n: int) {
    0 <= n < 0xd800 || 0xe000 <= n < 0x11_0000
  }

  function Bits(b: byte, mark: nat): nat
    requires mark <= b
  {
    b - mark
  }

  // One lead byte and as many continuation bytes as it announces.
  predicate WellFormed(t: Bytes) {
    && 1 <= |t| <= 4 && Width(t[0]) == |t|
    && (|t| > 1 ==> IsTail(t[1])) && (|t| > 2 ==> IsTail(t[2])) && (|t| > 3 ==> IsTail(t[3]))
  }

  function Assemble(t: Bytes): nat
    requires WellFormed(t)
  {
    if |t| == 1 then t[0]
    else if |t| == 2 then 64 * Bits(t[0], 0xc0) + Bits(t[1], 0x80)
    else if |t| == 3 then 64 * (64 * Bits(t[0], 0xe0) + Bits(t[1], 0x80)) + Bits(t[2], 0x80)
    else 64 * (64 * (64 * Bits(t[0], 0xf0) + Bits(t[1], 0x80)) + Bits(t[2], 0x80)) + Bits(t[3], 0x80)
  }

  // The character at the front of some bytes; overlong forms and surrogates are refused.
  function DecodeChar(b: Bytes): (r: Option<char>)
    requires b != []
    ensures r.Some? ==> 1 <= Width(b[0]) <= |b|
  {
    var w := Width(b[0]);
    if w == 0 || w > |b| || !WellFormed(b[..w]) then None
    else
      var n := Assemble(b[..w]);
      if Least(w) <= n && IsScalar(n) then Some(n as char) else None
  }

  function Decode(b: Bytes): Option<string>
    decreases |b|
  {
    if b == [] then Some("") else
    match DecodeChar(b)
    case None => None
    case Some(c) =>
      match Decode(b[Width(b[0])..])
      case None => None
      case Some(s) => Some([c] + s)
  }

  lemma EncodedIsWellFormed(c: char)
    ensures var e := EncodeChar(c);
            WellFormed(e) && Assemble(e) == c as int && Least(|e|) <= c as int
  {
    Parts(c as int);
  }

  lemma CharThenBack(c: char, rest: Bytes)
    ensures var b := EncodeChar(c) + rest;
            && Width(b[0]) == |EncodeChar(c)| && b[Width(b[0])..] == rest && DecodeChar(b) == Some(c)
  {
    hide EncodeChar, WellFormed, Assemble, Width;
    var n, e := c as int, EncodeChar(c);
    var b := e + rest;
    assert b[..|e|] == e;
    EncodedIsWellFormed(c);
  }

  lemma Parts(n: nat)
    ensures n == 64 * (n / 64) + n % 64
    ensures n / 64 == 64 * (n / 64 / 64) + n / 64 % 64
    ensures n / 64 / 64 == 64 * (n / 64 / 64 / 64) + n / 64 / 64 % 64
  { }

  lemma {:induction false} EncodeThenDecode(s: string)
    ensures Decode(Encode(s)) == Some(s)
  {
    hide DecodeChar, EncodeChar, Width;
    if s != "" {
      CharThenBack(s[0], Encode(s[1..]));
      EncodeThenDecode(s[1..]);
      assert s == [s[0]] + s[1..];
    }
  }

  lemma BackThenChar(b: Bytes)
    requires b != [] && DecodeChar(b).Some?
    ensures EncodeChar(DecodeChar(b).value) == b[..Width(b[0])]
  {
    var w := Width(b[0]);
    var t := b[..w];
    hide EncodeChar, WellFormed, Assemble;
    Unparts(Assemble(t), t);
  }

  lemma Unparts(n: nat, t: Bytes)
    requires WellFormed(t) && n == Assemble(t)
    requires Least(|t|) <= n && IsScalar(n)
    ensures EncodeChar(n as char) == t
  {
    if |t| == 2 {
      Digits(Bits(t[0], 0xc0), Bits(t[1], 0x80));
    } else if |t| == 3 {
      var high := 64 * Bits(t[0], 0xe0) + Bits(t[1], 0x80);
      Digits(high, Bits(t[2], 0x80));
      Digits(Bits(t[0], 0xe0), Bits(t[1], 0x80));
    } else if |t| == 4 {
      FourParts(n, t);
    }
  }

  lemma FourParts(n: nat, t: Bytes)
    requires WellFormed(t) && |t| == 4 && n == Assemble(t)
    ensures n / 64 / 64 / 64 == Bits(t[0], 0xf0) && Tail(n / 64 / 64) == t[1] && Tail(n / 64) == t[2] && Tail(n) == t[3]
  {
    var top := 64 * Bits(t[0], 0xf0) + Bits(t[1], 0x80);
    var high := 64 * top + Bits(t[2], 0x80);
    Digits(high, Bits(t[3], 0x80));
    Digits(top, Bits(t[2], 0x80));
    Digits(Bits(t[0], 0xf0), Bits(t[1], 0x80));
  }

  lemma Digits(high: nat, low: nat)
    requires low < 64
    ensures (64 * high + low) / 64 == high && (64 * high + low) % 64 == low
  { }

  // Only the encodings of texts are accepted.
  lemma {:induction false} DecodeThenEncode(b: Bytes)
    requires Decode(b).Some?
    ensures Encode(Decode(b).value) == b
    decreases |b|
  {
    hide DecodeChar, EncodeChar, Width;
    if b != [] {
      BackThenChar(b);
      var rest := b[Width(b[0])..];
      DecodeThenEncode(rest);
      var c, s := DecodeChar(b).value, Decode(rest).value;
      assert ([c] + s)[1..] == s;
      assert b == b[..Width(b[0])] + rest;
    }
  }
}
