/** The GDB remote serial framing and hexadecimal helpers of the debug stub. */
module GdbWire {
  import opened Prelude

  const PACKET_BUF_LEN: nat := 768
  const DOLLAR: byte := 0x24
  const HASH: byte := 0x23
  const PLUS: byte := 0x2b
  const U32_LIMIT: nat := 0x1_0000_0000

  function FromHex(b: byte): Option<nat> {
    if 0x30 <= b <= 0x39 then Some(b - 0x30)
    else if 0x61 <= b <= 0x66 then Some(b - 0x61 + 10)
    else if 0x41 <= b <= 0x46 then Some(b - 0x41 + 10)
    else None
  }

  // The entry of the table "0123456789abcdef".
  function HexDigit(n: nat): byte
    requires n < 16
  {
    if n < 10 then 0x30 + n else 0x61 + n - 10
  }

  // The digits, of either case.
  lemma HexDigitsAre(b: byte, n: nat)
    ensures FromHex(b) == Some(n) <==> n < 16 && (b == "0123456789abcdef"[n] as int || b == "0123456789ABCDEF"[n] as int)
    ensures n < 16 ==> HexDigit(n) == "0123456789abcdef"[n] as int
  { }

  lemma HexDigitReadsBack(n: nat)
    requires n < 16
    ensures FromHex(HexDigit(n)) == Some(n)
  {
  }

  // The running checksum: the payload's bytes added modulo 256.
  function Sum(payload: seq<byte>): byte {
    if payload == [] then 0 else (Sum(payload[..|payload| - 1]) + payload[|payload| - 1]) % 256
  }

  function Trailer(sum: byte): seq<byte> {
    [HASH, HexDigit(sum / 16), HexDigit(sum % 16)]
  }

  function Frame(payload: seq<byte>): seq<byte> {
    [DOLLAR] + payload + Trailer(Sum(payload))
  }

  // A packet on the line: '$', the payload, '#', and the sum of its bytes in two digits.
  lemma FrameOnTheLine(payload: seq<byte>)
    ensures var f, n := Frame(payload), |payload|;
            && |f| == n + 4 && f[0] == '$' as int && f[1..n + 1] == payload && f[n + 1] == '#' as int
            && FromHex(f[n + 2]).Some? && FromHex(f[n + 3]).Some?
            && 16 * FromHex(f[n + 2]).value + FromHex(f[n + 3]).value == Sum(payload)
  { }

  // ---- What read_packet makes of the bytes that arrive ----

  // Starved: the bytes ran out, and the server is still waiting on the line.
  datatype Received = Starved | Rejected(rest: seq<byte>) | Packet(payload: seq<byte>, rest: seq<byte>)

  function Receive(rx: seq<byte>): Received
    decreases |rx|
  {
    if rx == [] then Starved
    else if rx[0] == DOLLAR then ReadBody([], rx[1..])
    else Receive(rx[1..])
  }

  function ReadBody(payload: seq<byte>, rx: seq<byte>): Received
    decreases |rx|
  {
    if rx == [] then Starved
    else if rx[0] == HASH then ReadTrailer(payload, rx[1..])
    else if |payload| >= PACKET_BUF_LEN then Rejected(rx[1..])
    else ReadBody(payload + [rx[0]], rx[1..])
  }

  function ReadTrailer(payload: seq<byte>, rx: seq<byte>): Received {
    if rx == [] then Starved
    else if FromHex(rx[0]).None? then Rejected(rx[1..])
    else if |rx| == 1 then Starved
    else if FromHex(rx[1]).None? then Rejected(rx[2..])
    else if FromHex(rx[0]).value * 16 + FromHex(rx[1]).value == Sum(payload) then Packet(payload, rx[2..])
    else Rejected(rx[2..])
  }

  datatype Outcome = Waiting | Bad | Got(len: nat)

  class GdbServer {
    var rx: seq<byte>            // bytes still to arrive on the line
    var tx: seq<byte>            // bytes sent so far
    const packet: array<byte>

    constructor (line: seq<byte>)
      ensures rx == line && tx == [] && packet.Length == PACKET_BUF_LEN && fresh(packet)
    {
      rx, tx := line, [];
      packet := new byte[PACKET_BUF_LEN](i => 0);
    }

    method RecvByte() returns (b: Option<byte>)
      modifies this
      ensures tx == old(tx)
      ensures b.None? <==> old(rx) == []
      ensures b.None? ==> rx == []
      ensures b.Some? ==> b.value == old(rx)[0] && rx == old(rx)[1..]
    {
      if rx == [] {
        return None;
      }
      b := Some(rx[0]);
      rx := rx[1..];
    }

    method SendByte(b: byte)
      modifies this
      ensures rx == old(rx) && tx == old(tx) + [b]
    {
      tx := tx + [b];
    }

    method SendPacket(data: seq<byte>)
      modifies this
      ensures rx == old(rx) && tx == old(tx) + Frame(data)
    {
      SendByte(DOLLAR);
      var checksum: byte := 0;
      for k := 0 to |data|
        invariant rx == old(rx) && tx == old(tx) + [DOLLAR] + data[..k]
        invariant checksum == Sum(data[..k])
      {
        assert data[..k + 1][..k] == data[..k];
        checksum := (checksum + data[k]) % 256;
        SendByte(data[k]);
      }
      assert data[..|data|] == data;
      SendByte(HASH);
      SendByte(HexDigit(checksum / 16));
      SendByte(HexDigit(checksum % 16));
    }

    method ReadPacket() returns (outcome: Outcome)
      requires packet.Length == PACKET_BUF_LEN
      modifies this, packet
      ensures match Receive(old(rx))
              case Starved => outcome == Waiting && rx == [] && tx == old(tx)
              case Rejected(rest) => outcome == Bad && rx == rest && tx == old(tx)
              case Packet(payload, rest) =>
                && outcome == Got(|payload|) && |payload| <= 768 && packet[..|payload|] == payload
                && rx == rest && tx == old(tx) + ['+' as int]
    {
      ghost var input := Receive(rx);
      while true
        invariant tx == old(tx) && Receive(rx) == input
        decreases |rx|
      {
        var b := RecvByte();
        if b.None? { return Waiting; }
        if b.value == DOLLAR { break; }
      }
      var len, checksum: byte := 0, 0;
      assert packet[..0] == [];
      while true
        invariant 0 <= len <= PACKET_BUF_LEN && tx == old(tx) && packet.Length == PACKET_BUF_LEN
        invariant ReadBody(packet[..len], rx) == input && checksum == Sum(packet[..len])
        decreases |rx|
      {
        var b := RecvByte();
        if b.None? { return Waiting; }
        if b.value == HASH { break; }
        if len >= packet.Length { return Bad; }
        ghost var before := packet[..len];
        packet[len] := b.value;
        len := len + 1;
        checksum := (checksum + b.value) % 256;
        assert packet[..len] == before + [b.value];
        assert packet[..len][..len - 1] == before;
      }
      outcome := CheckTrailer(len, checksum);
    }

    // The two digits after '#', read one at a time, and the acknowledgement.
    method CheckTrailer(len: nat, checksum: byte) returns (outcome: Outcome)
      requires packet.Length == PACKET_BUF_LEN && len <= PACKET_BUF_LEN && checksum == Sum(packet[..len])
      modifies this
      ensures match ReadTrailer(packet[..len], old(rx))
              case Starved => outcome == Waiting && rx == [] && tx == old(tx)
              case Rejected(rest) => outcome == Bad && rx == rest && tx == old(tx)
              case Packet(_, rest) => outcome == Got(len) && rx == rest && tx == old(tx) + ['+' as int]
    {
      var hi := RecvByte();
      if hi.None? { return Waiting; }
      if FromHex(hi.value).None? { return Bad; }
      var lo := RecvByte();
      if lo.None? { return Waiting; }
      if FromHex(lo.value).None? { return Bad; }
      if FromHex(hi.value).value * 16 + FromHex(lo.value).value != checksum { return Bad; }
      SendByte(PLUS);
      return Got(len);
    }
  }

  // ---- Framing round trip ----

  ghost predicate Free(b: byte, s: seq<byte>) {
    forall k :: 0 <= k < |s| ==> s[k] != b
  }

  lemma {:induction false} NoiseIsSkipped(noise: seq<byte>, rx: seq<byte>)
    requires Free(DOLLAR, noise)
    ensures Receive(noise + rx) == Receive(rx)
    decreases |noise|
  {
    if noise == [] {
      assert noise + rx == rx;
    } else {
      assert (noise + rx)[1..] == noise[1..] + rx;
      NoiseIsSkipped(noise[1..], rx);
    }
  }

  lemma {:induction false} BodyIsCollected(payload: seq<byte>, more: seq<byte>, rx: seq<byte>)
    requires Free(HASH, more) && |payload| + |more| <= PACKET_BUF_LEN
    ensures ReadBody(payload, more + [HASH] + rx) == ReadTrailer(payload + more, rx)
    decreases |more|
  {
    var stream := more + [HASH] + rx;
    if more == [] {
      assert stream[1..] == rx && payload + more == payload;
    } else {
      assert stream[1..] == more[1..] + [HASH] + rx;
      assert payload + [more[0]] + more[1..] == payload + more;
      BodyIsCollected(payload + [more[0]], more[1..], rx);
    }
  }

  lemma TrailerVerdict(payload: seq<byte>, sum: byte, rest: seq<byte>)
    ensures ReadTrailer(payload, [HexDigit(sum / 16), HexDigit(sum % 16)] + rest)
         == if sum == Sum(payload) then Packet(payload, rest) else Rejected(rest)
  { }

  lemma FrameParts(noise: seq<byte>, payload: seq<byte>, sum: byte, rest: seq<byte>)
    ensures var digits := [HexDigit(sum / 16), HexDigit(sum % 16)] + rest;
            var framed := [DOLLAR] + (payload + [HASH] + digits);
            && noise + ([DOLLAR] + payload + Trailer(sum)) + rest == noise + framed
            && framed[0] == DOLLAR && framed[1..] == payload + [HASH] + digits
  { }

  // A payload under the checksum of another one is accepted exactly when the two sums agree.
  lemma FramedUnderSum(noise: seq<byte>, payload: seq<byte>, sum: byte, rest: seq<byte>)
    requires Free(DOLLAR, noise) && Free(HASH, payload) && |payload| <= 768
    ensures Receive(noise + ([DOLLAR] + payload + Trailer(sum)) + rest)
         == if sum == Sum(payload) then Packet(payload, rest) else Rejected(rest)
  {
    hide ReadBody, ReadTrailer, HexDigit, Free, Sum, Trailer;
    var digits := [HexDigit(sum / 16), HexDigit(sum % 16)] + rest;
    var framed := [DOLLAR] + (payload + [HASH] + digits);
    FrameParts(noise, payload, sum, rest);
    NoiseIsSkipped(noise, framed);
    BodyIsCollected([], payload, digits);
    assert [] + payload == payload;
    TrailerVerdict(payload, sum, rest);
  }

  // Main result: whatever noise precedes it, a sent packet is received unchanged, and nothing after it is touched.
  lemma FrameRoundTrip(noise: seq<byte>, payload: seq<byte>, rest: seq<byte>)
    requires Free(DOLLAR, noise) && Free(HASH, payload) && |payload| <= 768
    ensures Receive(noise + Frame(payload) + rest) == Packet(payload, rest)
  {
    FramedUnderSum(noise, payload, Sum(payload), rest);
  }

  lemma AddSeparates(x: byte, y: byte, a: byte, b: byte)
    requires (x == y) != (a == b)
    ensures (x + a) % 256 != (y + b) % 256
  { }

  lemma {:induction false} SumOfChanged(a: seq<byte>, b: seq<byte>, k: nat)
    requires |a| == |b| && k < |a| && a[k] != b[k]
    requires forall i :: 0 <= i < |a| && i != k ==> a[i] == b[i]
    ensures Sum(a) != Sum(b)
    decreases |a|
  {
    var n := |a| - 1;
    if k == n {
      assert a[..n] == b[..n];
    } else {
      SumOfChanged(a[..n], b[..n], k);
    }
    AddSeparates(Sum(a[..n]), Sum(b[..n]), a[n], b[n]);
  }

  // Main result: one altered payload byte is always noticed (unless it becomes the terminator).
  lemma AlteredByteIsRejected(noise: seq<byte>, payload: seq<byte>, k: nat, b: byte, rest: seq<byte>)
    requires Free(DOLLAR, noise) && Free(HASH, payload) && |payload| <= 768
    requires k < |payload| && b != payload[k] && b != HASH
    ensures Receive(noise + ([DOLLAR] + payload[k := b] + Trailer(Sum(payload))) + rest) == Rejected(rest)
  {
    SumOfChanged(payload, payload[k := b], k);
    FramedUnderSum(noise, payload[k := b], Sum(payload), rest);
  }

  lemma {:induction false} OverflowIsRejected(payload: seq<byte>, more: seq<byte>, rx: seq<byte>)
    requires Free(HASH, more) && |payload| <= PACKET_BUF_LEN < |payload| + |more|
    ensures ReadBody(payload, more + rx) == Rejected((more + rx)[PACKET_BUF_LEN - |payload| + 1..])
    decreases |more|
  {
    var stream := more + rx;
    assert stream[1..] == more[1..] + rx;
    if |payload| < PACKET_BUF_LEN {
      OverflowIsRejected(payload + [more[0]], more[1..], rx);
    }
  }

  // The size limit is exact: one byte more than the buffer holds and the packet is refused.
  lemma LongPayloadIsRejected(noise: seq<byte>, payload: seq<byte>, rest: seq<byte>)
    requires Free(DOLLAR, noise) && Free(HASH, payload) && |payload| > 768
    ensures Receive(noise + Frame(payload) + rest).Rejected?
  {
    var framed := Frame(payload) + rest;
    assert noise + Frame(payload) + rest == noise + framed;
    NoiseIsSkipped(noise, framed);
    assert framed[1..] == payload + (Trailer(Sum(payload)) + rest);
    OverflowIsRejected([], payload, Trailer(Sum(payload)) + rest);
  }

  // ---- Hexadecimal ----

  ghost predicate AllHex(s: seq<byte>) {
    forall k :: 0 <= k < |s| ==> FromHex(s[k]).Some?
  }

  function HexValue(s: seq<byte>): nat
    requires forall k :: 0 <= k < |s| ==> FromHex(s[k]).Some?
  {
    if s == [] then 0 else HexValue(s[..|s| - 1]) * 16 + FromHex(s[|s| - 1]).value
  }

  lemma {:induction false} PrefixValue(s: seq<byte>, k: nat)
    requires AllHex(s) && k <= |s|
    ensures HexValue(s[..k]) <= HexValue(s)
    decreases |s|
  {
    if k < |s| {
      var t := s[..|s| - 1];
      assert t[..k] == s[..k];
      PrefixValue(t, k);
    } else {
      assert s[..k] == s;
    }
  }

  // The numeral's value, exactly when it is a numeral and fits 32 bits; the empty text counts as zero.
  method ParseHexU32(input: seq<byte>) returns (r: Option<u32>)
    ensures r.Some? <==> AllHex(input) && HexValue(input) < U32_LIMIT
    ensures r.Some? ==> r.value == HexValue(input)
  {
    var value: u32 := 0;
    for k := 0 to |input|
      invariant AllHex(input[..k]) && value == HexValue(input[..k])
    {
      var digit := FromHex(input[k]);
      assert AllHex(input) ==> digit.Some?;
      if value * 16 >= U32_LIMIT || digit.None? || value * 16 + digit.value >= U32_LIMIT {
        if AllHex(input) {
          assert input[..k + 1][..k] == input[..k];
          PrefixValue(input, k + 1);
        }
        return None;
      }
      assert input[..k + 1][..k] == input[..k];
      value := value * 16 + digit.value;
    }
    assert input[..|input|] == input;
    return Some(value);
  }

  // Two lower-case digits per byte, as push_hex_byte appends them.
  function ToHex(data: seq<byte>): (s: seq<byte>)
    ensures |s| == 2 * |data|
  {
    if data == [] then [] else [HexDigit(data[0] / 16), HexDigit(data[0] % 16)] + ToHex(data[1..])
  }

  function PairValue(input: seq<byte>, idx: nat): Option<nat>
    requires idx * 2 + 1 < |input|
  {
    if FromHex(input[idx * 2]).None? || FromHex(input[idx * 2 + 1]).None? then None
    else Some(FromHex(input[idx * 2]).value * 16 + FromHex(input[idx * 2 + 1]).value)
  }

  method DecodeHexBytes(input: seq<byte>, out: array<byte>) returns (ok: bool)
    modifies out
    ensures ok <==> |input| == out.Length * 2 && forall k :: 0 <= k < out.Length ==> PairValue(input, k).Some?
    ensures ok ==> forall k :: 0 <= k < out.Length ==> out[k] == PairValue(input, k).value
  {
    if |input| != out.Length * 2 {
      return false;
    }
    for idx := 0 to out.Length
      invariant forall k :: 0 <= k < idx ==> PairValue(input, k).Some? && out[k] == PairValue(input, k).value
    {
      var hi := FromHex(input[idx * 2]);
      if hi.None? {
        assert PairValue(input, idx).None?;
        return false;
      }
      var lo := FromHex(input[idx * 2 + 1]);
      if lo.None? {
        assert PairValue(input, idx).None?;
        return false;
      }
      out[idx] := hi.value * 16 + lo.value;
      assert PairValue(input, idx) == Some(hi.value * 16 + lo.value);
    }
    return true;
  }

  // Decoding inverts encoding, byte by byte.
  lemma {:induction false} HexRoundTrip(data: seq<byte>, k: nat)
    requires k < |data|
    ensures PairValue(ToHex(data), k) == Some(data[k])
    decreases |data|
  {
    HexDigitReadsBack(data[0] / 16);
    HexDigitReadsBack(data[0] % 16);
    if k > 0 {
      HexRoundTrip(data[1..], k - 1);
      assert PairValue(ToHex(data), k) == PairValue(ToHex(data[1..]), k - 1);
    }
  }
}
