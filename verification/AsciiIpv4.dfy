/** IPv4 addresses in dotted decimal text (dhcp_boot.rs:438-495). */
module AsciiIpv4 {
  import opened Prelude
  import opened LittleEndian

  type Ipv4 = a: Bytes | |a| == 4 witness [0, 0, 0, 0]

  const DOT: byte := 46
  const ZERO: byte := 48

  predicate IsDigit(b: byte) {
    48 <= b <= 57
  }

  // NUL, blank, line feed, carriage return and tab.
  predicate IsPadding(b: byte) {
    b == 0 || b == 32 || b == 10 || b == 13 || b == 9
  }

  lemma CharactersAre(b: byte)
    ensures IsDigit(b) <==> '0' as int <= b <= '9' as int
    ensures IsPadding(b) <==> b in {0, ' ' as int, '\n' as int, '\r' as int, '\t' as int}
    ensures DOT == '.' as int && ZERO == '0' as int
  { }

  function TrimPadding(t: Bytes): Bytes {
    if t != [] && IsPadding(t[|t| - 1]) then TrimPadding(t[..|t| - 1]) else t
  }

  // The rest of an address whose finished octets are `done`, and whose current
  // octet has this value and at least one digit or none yet.
  function Scan(t: Bytes, done: Bytes, value: byte, sawDigit: bool): (r: Option<Ipv4>)
    decreases |t|
  {
    if t == [] then (if sawDigit && |done| == 3 then Some(done + [value]) else None)
    else if IsDigit(t[0]) then
      var v := 10 * value + (t[0] - ZERO);
      if v > 255 then None else Scan(t[1..], done, v, true)
    else if t[0] == DOT then
      if !sawDigit || |done| >= 3 then None else Scan(t[1..], done + [value], 0, false)
    else None
  }

  function ParseAscii(t: Bytes): Option<Ipv4> {
    Scan(TrimPadding(t), [], 0, false)
  }

  method TrimAsciiNulSpace(t: Bytes) returns (r: Bytes)
    ensures r == TrimPadding(t)
  {
    r := t;
    while r != [] && IsPadding(r[|r| - 1])
      invariant TrimPadding(r) == TrimPadding(t)
    {
      r := r[..|r| - 1];
    }
  }

  method ParseAsciiIpv4(t: Bytes) returns (r: Option<Ipv4>)
    ensures r == ParseAscii(t)
  {
    var bytes := TrimAsciiNulSpace(t);
    if bytes == [] {
      return None;
    }
    var octets: Ipv4 := [0, 0, 0, 0];
    var idx := 0;
    var value: byte := 0;
    var sawDigit := false;
    var i := 0;
    while i < |bytes|
      invariant i <= |bytes| && idx <= 3
      invariant Scan(bytes[i..], octets[..idx], value, sawDigit) == Scan(bytes, [], 0, false)
    {
      var b := bytes[i];
      assert bytes[i..][0] == b && bytes[i..][1..] == bytes[i + 1..];
      if IsDigit(b) {
        sawDigit := true;
        var v := 10 * value + (b - ZERO);
        if v > 255 {
          return None;
        }
        value := v;
      } else if b == DOT {
        if !sawDigit || idx >= 3 {
          return None;
        }
        octets := octets[idx := value];
        assert octets[..idx + 1] == octets[..idx] + [value];
        idx := idx + 1;
        value := 0;
        sawDigit := false;
      } else {
        return None;
      }
      i := i + 1;
    }
    assert bytes[i..] == [];
    if !sawDigit || idx != 3 {
      return None;
    }
    octets := octets[idx := value];
    assert octets == octets[..3] + [value];
    return Some(octets);
  }

  // ---- Numerals and dots --------------------------------------------------

  predicate Digits(d: Bytes) {
    forall k :: 0 <= k < |d| ==> IsDigit(d[k])
  }

  function ValueFrom(d: Bytes, acc: nat): (v: nat)
    requires Digits(d)
    ensures v >= acc
    decreases |d|
  {
    if d == [] then acc else ValueFrom(d[1..], 10 * acc + (d[0] - ZERO))
  }

  function Value(d: Bytes): nat
    requires Digits(d)
  {
    ValueFrom(d, 0)
  }

  function Join(ds: seq<Bytes>): Bytes {
    if ds == [] then [] else if |ds| == 1 then ds[0] else ds[0] + [DOT] + Join(ds[1..])
  }

  // Four numerals of one digit or more, each at most 255.
  predicate Numeral(d: Bytes) {
    d != [] && Digits(d) && Value(d) <= 255
  }

  predicate Dotted(ds: seq<Bytes>) {
    |ds| == 4 && forall k :: 0 <= k < 4 ==> Numeral(ds[k])
  }

  function Octets(ds: seq<Bytes>): Ipv4
    requires Dotted(ds)
  {
    [Value(ds[0]), Value(ds[1]), Value(ds[2]), Value(ds[3])]
  }

  lemma {:induction false} ScanDigits(d: Bytes, rest: Bytes, done: Bytes, acc: byte, saw: bool)
    requires Digits(d)
    ensures Scan(d + rest, done, acc, saw) ==
            if ValueFrom(d, acc) > 255 then None else Scan(rest, done, ValueFrom(d, acc), saw || d != [])
    decreases |d|
  {
    if d == [] {
      assert d + rest == rest;
    } else {
      assert (d + rest)[0] == d[0] && (d + rest)[1..] == d[1..] + rest;
      assert IsDigit(d[0]);
      var v := 10 * acc + (d[0] - ZERO);
      if v <= 255 {
        ScanDigits(d[1..], rest, done, v, true);
      }
    }
  }

  lemma ScanOctet(d: Bytes, rest: Bytes, done: Bytes)
    requires Numeral(d) && |done| < 3
    ensures Scan(d + [DOT] + rest, done, 0, false) == Scan(rest, done + [Value(d)], 0, false)
  {
    assert d + [DOT] + rest == d + ([DOT] + rest);
    ScanDigits(d, [DOT] + rest, done, 0, false);
    assert ([DOT] + rest)[1..] == rest;
  }

  lemma JoinFour(ds: seq<Bytes>)
    requires |ds| == 4
    ensures Join(ds) == ds[0] + [DOT] + (ds[1] + [DOT] + (ds[2] + [DOT] + ds[3]))
  {
    var tail := [ds[2], ds[3]];
    assert tail[1..] == [ds[3]];
    assert Join(tail) == ds[2] + [DOT] + ds[3];
    assert ds[1..][1..] == tail && ds[1..][0] == ds[1];
  }

  // Four numerals joined by dots denote their values, whatever padding follows.
  lemma DottedIsAccepted(ds: seq<Bytes>, padding: Bytes)
    requires Dotted(ds) && forall k :: 0 <= k < |padding| ==> IsPadding(padding[k])
    ensures ParseAscii(Join(ds) + padding) == Some(Octets(ds))
  {
    hide Scan, TrimPadding, Join, ValueFrom, Digits;
    JoinFour(ds);
    assert Numeral(ds[0]) && Numeral(ds[1]) && Numeral(ds[2]) && Numeral(ds[3]);
    var text := Join(ds);
    LastDigit(ds[3]);
    assert text[|text| - 1] == ds[3][|ds[3]| - 1];
    TrimDropsPadding(text, padding);
    var v := Octets(ds);
    ScanOctet(ds[0], ds[1] + [DOT] + (ds[2] + [DOT] + ds[3]), []);
    ScanOctet(ds[1], ds[2] + [DOT] + ds[3], [] + [v[0]]);
    ScanOctet(ds[2], ds[3], [] + [v[0]] + [v[1]]);
    LastOctet(ds[3], [] + [v[0]] + [v[1]] + [v[2]]);
    assert [] + [v[0]] + [v[1]] + [v[2]] + [v[3]] == v;
  }

  lemma LastDigit(d: Bytes)
    requires Numeral(d)
    ensures IsDigit(d[|d| - 1])
  { }

  lemma LastOctet(d: Bytes, done: Bytes)
    requires Numeral(d) && |done| == 3
    ensures Scan(d, done, 0, false) == Some(done + [Value(d)])
  {
    assert d + [] == d;
    ScanDigits(d, [], done, 0, false);
  }

  lemma {:induction false} TrimDropsPadding(text: Bytes, padding: Bytes)
    requires forall k :: 0 <= k < |padding| ==> IsPadding(padding[k])
    requires text == [] || !IsPadding(text[|text| - 1])
    ensures TrimPadding(text + padding) == text
    decreases |padding|
  {
    if padding == [] {
      assert text + padding == text;
    } else {
      var n := |padding|;
      assert (text + padding)[|text + padding| - 1] == padding[n - 1];
      assert (text + padding)[..|text + padding| - 1] == text + padding[..n - 1];
      TrimDropsPadding(text, padding[..n - 1]);
    }
  }

  lemma {:induction false} TrimmedIsText(t: Bytes) returns (padding: Bytes)
    ensures t == TrimPadding(t) + padding && forall k :: 0 <= k < |padding| ==> IsPadding(padding[k])
  {
    if t != [] && IsPadding(t[|t| - 1]) {
      var p := TrimmedIsText(t[..|t| - 1]);
      padding := p + [t[|t| - 1]];
      assert t == t[..|t| - 1] + [t[|t| - 1]];
    } else {
      padding := [];
    }
  }

  // The digits in front, and what follows them.
  lemma {:induction false} TakeDigits(t: Bytes) returns (d: Bytes, rest: Bytes)
    ensures t == d + rest && Digits(d) && (rest == [] || !IsDigit(rest[0]))
  {
    if t != [] && IsDigit(t[0]) {
      var e, more := TakeDigits(t[1..]);
      d, rest := [t[0]] + e, more;
    } else {
      d, rest := [], t;
    }
  }

  lemma TakeOctet(t: Bytes, done: Bytes) returns (d: Bytes, rest: Bytes)
    requires Scan(t, done, 0, false).Some? && |done| <= 3
    ensures Numeral(d)
    ensures |done| == 3 ==> t == d && Scan(t, done, 0, false) == Some(done + [Value(d)])
    ensures |done| < 3 ==> t == d + [DOT] + rest && Scan(rest, done + [Value(d)], 0, false) == Scan(t, done, 0, false)
  {
    d, rest := TakeDigits(t);
    ScanDigits(d, rest, done, 0, false);
    if rest == [] {
      assert t == d;
    } else {
      assert rest == [DOT] + rest[1..];
      rest := rest[1..];
      assert t == d + [DOT] + rest;
    }
  }

  // Nothing else is accepted.
  lemma AcceptedIsDotted(t: Bytes) returns (ds: seq<Bytes>, padding: Bytes)
    requires ParseAscii(t).Some?
    ensures Dotted(ds) && ParseAscii(t) == Some(Octets(ds))
    ensures t == Join(ds) + padding && forall k :: 0 <= k < |padding| ==> IsPadding(padding[k])
  {
    hide Scan, TrimPadding, Join, Numeral;
    padding := TrimmedIsText(t);
    var text := TrimPadding(t);
    var d0, r0 := TakeOctet(text, []);
    var d1, r1 := TakeOctet(r0, [] + [Value(d0)]);
    var d2, r2 := TakeOctet(r1, [] + [Value(d0)] + [Value(d1)]);
    var d3, r3 := TakeOctet(r2, [] + [Value(d0)] + [Value(d1)] + [Value(d2)]);
    ds := [d0, d1, d2, d3];
    JoinFour(ds);
    assert Octets(ds) == [] + [Value(d0)] + [Value(d1)] + [Value(d2)] + [Value(d3)];
  }

  // ---- Display ------------------------------------------------------------

  function Decimal(n: byte): Bytes {
    if n < 10 then [ZERO + n]
    else if n < 100 then [ZERO + n / 10, ZERO + n % 10]
    else [ZERO + n / 100, ZERO + n / 10 % 10, ZERO + n % 10]
  }

  function Display(ip: Ipv4): Bytes {
    Join([Decimal(ip[0]), Decimal(ip[1]), Decimal(ip[2]), Decimal(ip[3])])
  }

  lemma DecimalValue(n: byte)
    ensures Numeral(Decimal(n)) && Value(Decimal(n)) == n
  {
    hide ValueFrom;
    if n >= 100 {
      var a, b, c := n / 100, n / 10 % 10, n % 10;
      var d := [ZERO + a, ZERO + b, ZERO + c];
      assert d[1..] == [ZERO + b, ZERO + c] && d[1..][1..] == [ZERO + c];
      OneDigitMore(d, 0);
      OneDigitMore(d[1..], a);
      OneDigitMore([ZERO + c], 10 * a + b);
      ThreeDigits(n);
    } else if n >= 10 {
      var a, b := n / 10, n % 10;
      var d := [ZERO + a, ZERO + b];
      assert d[1..] == [ZERO + b];
      OneDigitMore(d, 0);
      OneDigitMore([ZERO + b], a);
    } else {
      OneDigitMore([ZERO + n], 0);
    }
  }

  lemma ThreeDigits(n: byte)
    ensures 10 * (10 * (n / 100) + n / 10 % 10) + n % 10 == n
  { }

  lemma OneDigitMore(d: Bytes, acc: nat)
    requires Digits(d) && d != []
    ensures ValueFrom(d, acc) == ValueFrom(d[1..], 10 * acc + (d[0] - ZERO))
    ensures |d| == 1 ==> ValueFrom(d, acc) == 10 * acc + (d[0] - ZERO)
  { }

  // A displayed address reads back, whatever padding the server appends.
  lemma DisplayThenParse(ip: Ipv4, padding: Bytes)
    requires forall k :: 0 <= k < |padding| ==> IsPadding(padding[k])
    ensures ParseAscii(Display(ip) + padding) == Some(ip)
  {
    hide Numeral, Decimal, Join, ParseAscii, Value;
    var ds := [Decimal(ip[0]), Decimal(ip[1]), Decimal(ip[2]), Decimal(ip[3])];
    DecimalValue(ip[0]);
    DecimalValue(ip[1]);
    DecimalValue(ip[2]);
    DecimalValue(ip[3]);
    DottedIsAccepted(ds, padding);
    assert Octets(ds) == ip;
  }
}
