/**
 * DHCP options and the client's messages (dhcp_boot.rs:202-290, 330-362;
 * section 2 of RFC 2132).
 */
module Dhcp {
  import opened Prelude
  import opened LittleEndian
  import opened AsciiIpv4

  const PAD: byte := 0
  const END: byte := 255
  const SUBNET_MASK: byte := 1
  const ROUTER: byte := 3
  const REQUESTED_IP: byte := 50
  const MESSAGE_TYPE: byte := 53
  const SERVER_IDENTIFIER: byte := 54
  const PARAMETER_REQUEST_LIST: byte := 55
  const MAX_MESSAGE_SIZE: byte := 57
  const VENDOR_CLASS: byte := 60
  const TFTP_SERVER_NAME: byte := 66
  const CLIENT_ARCH: byte := 93
  const CLIENT_NDI: byte := 94
  const CLIENT_GUID: byte := 97

  const PACKET_MAX: nat := 576
  const OPTIONS_AT: nat := 240

  datatype DhcpError = Encode | InvalidPacket

  datatype DhcpOptions = DhcpOptions(
    messageType: Option<byte>, subnetMask: Option<Ipv4>, router: Option<Ipv4>,
    serverId: Option<Ipv4>, tftpServer: Option<Ipv4>)

  const NO_OPTIONS := DhcpOptions(None, None, None, None, None)

  // ---- Reading options ----------------------------------------------------

  function ParseIpv4Option(v: Bytes): Option<Ipv4> {
    if |v| < 4 then None else Some(v[..4])
  }

  // One option taken into account; other codes are skipped.
  function Take(parsed: DhcpOptions, code: byte, value: Bytes): DhcpOptions {
    if code == MESSAGE_TYPE then (if |value| == 1 then parsed.(messageType := Some(value[0])) else parsed)
    else if code == SUBNET_MASK then parsed.(subnetMask := ParseIpv4Option(value))
    else if code == ROUTER then parsed.(router := ParseIpv4Option(value))
    else if code == SERVER_IDENTIFIER then parsed.(serverId := ParseIpv4Option(value))
    else if code == TFTP_SERVER_NAME then parsed.(tftpServer := ParseAscii(value))
    else parsed
  }

  function ParseFrom(t: Bytes, parsed: DhcpOptions): Result<DhcpOptions, DhcpError>
    decreases |t|
  {
    if t == [] then Ok(parsed)
    else if t[0] == PAD then ParseFrom(t[1..], parsed)
    else if t[0] == END then Ok(parsed)
    else if |t| < 2 || 2 + t[1] > |t| then Err(InvalidPacket)
    else ParseFrom(t[2 + t[1]..], Take(parsed, t[0], t[2..2 + t[1]]))
  }

  method ParseDhcpOptions(bytes: Bytes) returns (r: Result<DhcpOptions, DhcpError>)
    ensures r == ParseFrom(bytes, NO_OPTIONS)
  {
    hide ParseAscii, ParseIpv4Option;
    var options := bytes;
    var parsed := NO_OPTIONS;
    while options != []
      invariant ParseFrom(options, parsed) == ParseFrom(bytes, NO_OPTIONS)
      decreases |options|
    {
      var t := options;
      var code := options[0];
      options := options[1..];
      if code == PAD {
        continue;
      }
      if code == END {
        return Ok(parsed);
      }
      if options == [] {
        return Err(InvalidPacket);
      }
      var len := options[0];
      var rest := options[1..];
      if len > |rest| {
        return Err(InvalidPacket);
      }
      var value := rest[..len];
      assert value == t[2..2 + t[1]] && rest[len..] == t[2 + t[1]..];
      if code == MESSAGE_TYPE {
        if |value| == 1 {
          parsed := parsed.(messageType := Some(value[0]));
        }
      } else if code == SUBNET_MASK {
        parsed := parsed.(subnetMask := ParseIpv4Option(value));
      } else if code == ROUTER {
        parsed := parsed.(router := ParseIpv4Option(value));
      } else if code == SERVER_IDENTIFIER {
        parsed := parsed.(serverId := ParseIpv4Option(value));
      } else if code == TFTP_SERVER_NAME {
        var server := ParseAsciiIpv4(value);
        parsed := parsed.(tftpServer := server);
      }
      options := rest[len..];
    }
    return Ok(parsed);
  }

  // ---- Options as lists ---------------------------------------------------

  datatype Item = Padding | Field(code: byte, value: Bytes)

  predicate ItemFits(i: Item) {
    i.Field? ==> i.code != 0 && i.code != 255 && |i.value| <= 255
  }

  predicate AllFit(items: seq<Item>) {
    forall k :: 0 <= k < |items| ==> ItemFits(items[k])
  }

  function EncodeItem(i: Item): Bytes
    requires ItemFits(i)
  {
    match i
    case Padding => [0]
    case Field(code, value) => [code, |value|] + value
  }

  function EncodeItems(items: seq<Item>): Bytes
    requires AllFit(items)
  {
    if items == [] then [] else EncodeItem(items[0]) + EncodeItems(items[1..])
  }

  // The value of the last occurrence of an option.
  function LastValue(items: seq<Item>, code: byte): Option<Bytes> {
    if items == [] then None else
    var i := items[|items| - 1];
    if i.Field? && i.code == code then Some(i.value) else LastValue(items[..|items| - 1], code)
  }

  // The last message type that is one byte long; others do not count.
  function LastType(items: seq<Item>): Option<byte> {
    if items == [] then None else
    var i := items[|items| - 1];
    if i.Field? && i.code == 53 && |i.value| == 1 then Some(i.value[0]) else LastType(items[..|items| - 1])
  }

  function Bind<T>(v: Option<Bytes>, f: Bytes -> Option<T>): Option<T> {
    match v
    case None => None
    case Some(b) => f(b)
  }

  // What a list of options says: the last message type, subnet mask, router, server identifier and TFTP
  // server name decide, and a malformed last address hides the earlier ones.
  function Meaning(items: seq<Item>): DhcpOptions {
    DhcpOptions(
      LastType(items),
      Bind(LastValue(items, 1), ParseIpv4Option),
      Bind(LastValue(items, 3), ParseIpv4Option),
      Bind(LastValue(items, 54), ParseIpv4Option),
      Bind(LastValue(items, 66), ParseAscii))
  }

  lemma OneMoreItem(items: seq<Item>, i: Item)
    ensures Meaning(items + [i]) == if i.Field? then Take(Meaning(items), i.code, i.value) else Meaning(items)
  { }

  lemma {:induction false} ItemsAreTaken(before: seq<Item>, items: seq<Item>, rest: Bytes)
    requires AllFit(items)
    ensures ParseFrom(EncodeItems(items) + rest, Meaning(before)) == ParseFrom(rest, Meaning(before + items))
    decreases |items|
  {
    hide Meaning, Take, EncodeItem;
    if items == [] {
      assert EncodeItems(items) + rest == rest && before + items == before;
    } else {
      var i := items[0];
      var more := EncodeItems(items[1..]) + rest;
      assert EncodeItems(items) + rest == EncodeItem(i) + more;
      OneItem(i, more, Meaning(before));
      OneMoreItem(before, i);
      ItemsAreTaken(before + [i], items[1..], rest);
      assert before + [i] + items[1..] == before + items;
    }
  }

  lemma OneItem(i: Item, more: Bytes, parsed: DhcpOptions)
    requires ItemFits(i)
    ensures ParseFrom(EncodeItem(i) + more, parsed) == ParseFrom(more, if i.Field? then Take(parsed, i.code, i.value) else parsed)
  { }

  // Options written out are read back as their meaning: up to the end mark if
  // there is one, whatever follows it, and to the end of the buffer if not.
  lemma EncodeThenParse(items: seq<Item>, rest: Bytes)
    requires AllFit(items) && (rest == [] || rest[0] == 255)
    ensures ParseFrom(EncodeItems(items) + rest, NO_OPTIONS) == Ok(Meaning(items))
  {
    hide EncodeItems;
    EmptyMeansNothing();
    ItemsAreTaken([], items, rest);
    assert [] + items == items;
  }

  lemma EmptyMeansNothing()
    ensures Meaning([]) == NO_OPTIONS
  { }

  lemma FirstItem(t: Bytes, parsed: DhcpOptions) returns (i: Item, next: DhcpOptions)
    requires t != [] && t[0] != 255 && ParseFrom(t, parsed).Ok?
    ensures ItemFits(i) && |EncodeItem(i)| <= |t|
    ensures t == EncodeItem(i) + t[|EncodeItem(i)|..]
    ensures ParseFrom(t[|EncodeItem(i)|..], next).Ok?
  {
    hide Take;
    if t[0] == PAD {
      i, next := Padding, parsed;
    } else {
      i := Field(t[0], t[2..2 + t[1]]);
      next := Take(parsed, i.code, i.value);
    }
  }

  // Nothing else is accepted.
  lemma {:induction false} AcceptedIsEncoding(t: Bytes, parsed: DhcpOptions) returns (items: seq<Item>, rest: Bytes)
    requires ParseFrom(t, parsed).Ok?
    ensures AllFit(items) && t == EncodeItems(items) + rest && (rest == [] || rest[0] == 255)
    decreases |t|
  {
    if t == [] || t[0] == END {
      items, rest := [], t;
    } else {
      var i, next := FirstItem(t, parsed);
      var more, end := AcceptedIsEncoding(t[|EncodeItem(i)|..], next);
      hide ParseFrom, EncodeItem, EncodeItems;
      ItemInFront(i, more, end);
      items, rest := [i] + more, end;
    }
  }

  lemma ItemInFront(i: Item, more: seq<Item>, end: Bytes)
    requires ItemFits(i) && AllFit(more)
    ensures AllFit([i] + more)
    ensures EncodeItems([i] + more) + end == EncodeItem(i) + (EncodeItems(more) + end)
  { }

  // ---- Writing options ----------------------------------------------------

  lemma Splice(was: Bytes, now: Bytes, start: nat, at: nat, item: Bytes)
    requires start <= at && at + |item| <= |was| == |now|
    requires forall k :: 0 <= k < |was| ==> now[k] == if at <= k < at + |item| then item[k - at] else was[k]
    ensures now[start..at + |item|] == was[start..at] + item
    ensures now[..start] == was[..start]
    ensures now[at + |item|..] == was[at + |item|..]
  { }

  class OptionsWriter {
    // The part of the packet from `start` on is the option area.
    const packet: array<byte>
    const start: nat
    var pos: nat

    ghost predicate Valid()
      reads this
    {
      start + pos <= packet.Length
    }

    ghost function Written(): Bytes
      requires Valid()
      reads this, packet
    {
      packet[start..start + pos]
    }

    constructor (packet: array<byte>, start: nat)
      requires start <= packet.Length
      ensures Valid() && this.packet == packet && this.start == start && pos == 0
    {
      this.packet := packet;
      this.start := start;
      pos := 0;
    }

    // Writes an option after the others, or nothing at all if it is too long
    // for its length byte or for the packet.
    method OptionBytes(code: byte, value: Bytes) returns (ok: bool)
      requires Valid()
      modifies this`pos, packet
      ensures Valid()
      ensures ok <==> |value| <= 255 && start + old(pos) + 2 + |value| <= packet.Length
      ensures ok ==> pos == old(pos) + 2 + |value| && Written() == old(Written()) + ([code, |value|] + value)
      ensures !ok ==> pos == old(pos) && packet[..] == old(packet[..])
      ensures packet[..start] == old(packet[..start])
      ensures packet[start + pos..] == old(packet[..])[start + pos..]
    {
      if |value| > 255 {
        return false;
      }
      var end := pos + 2 + |value|;
      if start + end > packet.Length {
        return false;
      }
      var at := start + pos;
      packet[at] := code;
      packet[at + 1] := |value|;
      forall k | 0 <= k < |value| {
        packet[at + 2 + k] := value[k];
      }
      Splice(old(packet[..]), packet[..], start, at, [code, |value|] + value);
      pos := end;
      return true;
    }

    method Finish() returns (ok: bool)
      requires Valid()
      modifies packet
      ensures ok <==> start + pos < packet.Length
      ensures ok ==> packet[..] == old(packet[..])[start + pos := 255]
      ensures !ok ==> packet[..] == old(packet[..])
    {
      if start + pos >= packet.Length {
        return false;
      }
      packet[start + pos] := END;
      return true;
    }
  }

  // ---- The client's messages ----------------------------------------------

  type Mac = m: Bytes | |m| == 6 witness [0, 0, 0, 0, 0, 0]

  datatype Request = Discover | Ask(requestedIp: Ipv4, serverId: Option<Ipv4>)

  const VENDOR: Bytes := [80, 88, 69, 67, 108, 105, 101, 110, 116, 58, 65, 114, 99, 104, 58, 48, 48, 48, 48, 48,
                          58, 85, 78, 68, 73, 58, 48, 48, 50, 48, 48, 49]

  lemma VendorIsText()
    ensures |VENDOR| == 32
    ensures forall k :: 0 <= k < 32 ==> VENDOR[k] == "PXEClient:Arch:00000:UNDI:002001"[k] as int
  { }

  function Guid(mac: Mac): (g: Bytes)
    ensures |g| == 17 && g[11..] == mac && forall k :: 0 <= k < 11 ==> g[k] == 0
  {
    [0, 0, 0, 0, 0, 0, 0, 0, 0, 0, 0] + mac
  }

  function KindItems(kind: Request): seq<Item> {
    match kind
    case Discover => [Field(53, [1])]
    case Ask(ip, server) =>
      [Field(53, [3]), Field(50, ip)] + (if server.Some? then [Field(54, server.value)] else [])
  }

  function CommonItems(mac: Mac): seq<Item> {
    [Field(55, [1, 3, 28, 51, 54, 58, 59, 60, 66, 67, 43]),
     Field(57, [5, 220]),
     Field(60, VENDOR),
     Field(93, [0, 0]),
     Field(94, [1, 2, 1]),
     Field(97, Guid(mac))]
  }

  // Everything before the options.
  function Header(mac: Mac, xid: Ipv4): (h: Bytes)
    ensures |h| == OPTIONS_AT
  {
    [1, 1, 6, 0] + xid + [0, 0, 0x80, 0] + seq(16, _ => 0) + mac + seq(202, _ => 0) + [99, 130, 83, 99]
  }

  function Zeros(n: nat): (z: Bytes)
    ensures |z| == n
  {
    seq(n, _ => 0)
  }

  // A packet that holds a header, some options and nothing else yet.
  ghost predicate Holds(w: OptionsWriter, head: Bytes, items: seq<Item>)
    reads w, w.packet
  {
    && w.Valid() && |head| == w.start && AllFit(items)
    && w.pos == |EncodeItems(items)|
    && w.packet[..] == head + EncodeItems(items) + Zeros(w.packet.Length - w.start - w.pos)
  }

  lemma {:induction false} EncodeSnoc(items: seq<Item>, i: Item)
    requires AllFit(items) && ItemFits(i)
    ensures AllFit(items + [i])
    ensures EncodeItems(items + [i]) == EncodeItems(items) + EncodeItem(i)
    decreases |items|
  {
    hide EncodeItem;
    if items == [] {
      assert items + [i] == [i] && [i][1..] == [];
      assert EncodeItems([i]) == EncodeItem(i) + EncodeItems([]);
    } else {
      EncodeSnoc(items[1..], i);
      assert (items + [i])[1..] == items[1..] + [i];
    }
  }

  lemma Assemble(before: Bytes, after: Bytes, head: Bytes, earlier: Bytes, item: Bytes)
    requires |earlier| + |item| + |head| <= |before| == |after|
    requires before == head + earlier + Zeros(|before| - |head| - |earlier|)
    requires after[..|head|] == before[..|head|]
    requires after[|head|..|head| + |earlier| + |item|] == before[|head|..|head| + |earlier|] + item
    requires after[|head| + |earlier| + |item|..] == before[|head| + |earlier| + |item|..]
    ensures after == head + (earlier + item) + Zeros(|after| - |head| - |earlier| - |item|)
  { }

  // One option of a message, after the ones already written.
  method Put(w: OptionsWriter, ghost head: Bytes, ghost items: seq<Item>, code: byte, value: Bytes) returns (ok: bool)
    requires Holds(w, head, items) && code != PAD && code != END && |value| <= 255
    modifies w`pos, w.packet
    ensures ok <==> w.start + old(w.pos) + 2 + |value| <= w.packet.Length
    ensures ok ==> Holds(w, head, items + [Field(code, value)]) && w.pos == old(w.pos) + 2 + |value|
  {
    hide EncodeItems, Zeros;
    ghost var before := w.packet[..];
    ok := w.OptionBytes(code, value);
    if ok {
      EncodeSnoc(items, Field(code, value));
      Assemble(before, w.packet[..], head, EncodeItems(items), [code, |value|] + value);
    }
  }

  method PutKind(w: OptionsWriter, ghost head: Bytes, kind: Request) returns (ok: bool)
    requires Holds(w, head, []) && w.pos == 0 && w.start + 15 <= w.packet.Length
    modifies w`pos, w.packet
    ensures ok && Holds(w, head, KindItems(kind)) && w.pos <= 15
  {
    hide Holds;
    match kind {
      case Discover =>
        ok := Put(w, head, [], MESSAGE_TYPE, [1]);
        assert KindItems(kind) == [] + [Field(MESSAGE_TYPE, [1])];
      case Ask(ip, server) =>
        ghost var a := [] + [Field(MESSAGE_TYPE, [3])];
        ghost var b := a + [Field(REQUESTED_IP, ip)];
        ok := Put(w, head, [], MESSAGE_TYPE, [3]);
        ok := Put(w, head, a, REQUESTED_IP, ip);
        if server.Some? {
          ok := Put(w, head, b, SERVER_IDENTIFIER, server.value);
          assert KindItems(kind) == b + [Field(SERVER_IDENTIFIER, server.value)];
        } else {
          assert KindItems(kind) == b;
        }
    }
  }

  method PutCommon(w: OptionsWriter, ghost head: Bytes, ghost items: seq<Item>, mac: Mac) returns (ok: bool)
    requires Holds(w, head, items) && w.start + w.pos + 79 <= w.packet.Length
    modifies w`pos, w.packet
    ensures ok && Holds(w, head, items + CommonItems(mac)) && w.pos == old(w.pos) + 79
  {
    hide Holds, Guid;
    ghost var c := CommonItems(mac);
    ok := Put(w, head, items, PARAMETER_REQUEST_LIST, [1, 3, 28, 51, 54, 58, 59, 60, 66, 67, 43]);
    ghost var a := items + [c[0]];
    ok := Put(w, head, a, MAX_MESSAGE_SIZE, [5, 220]);
    ghost var b := a + [c[1]];
    ok := Put(w, head, b, VENDOR_CLASS, VENDOR);
    ghost var d := b + [c[2]];
    ok := Put(w, head, d, CLIENT_ARCH, [0, 0]);
    ghost var e := d + [c[3]];
    ok := Put(w, head, e, CLIENT_NDI, [1, 2, 1]);
    ghost var f := e + [c[4]];
    ok := Put(w, head, f, CLIENT_GUID, Guid(mac));
    assert items + c == f + [c[5]];
  }

  // A request over Ethernet, to be answered by broadcast.
  method WriteHeader(packet: array<byte>, mac: Mac, xid: Ipv4)
    requires packet.Length == PACKET_MAX && forall k :: 0 <= k < PACKET_MAX ==> packet[k] == 0
    modifies packet
    ensures forall k :: 0 <= k < PACKET_MAX ==> packet[k] == if k < OPTIONS_AT then Header(mac, xid)[k] else 0
  {
    packet[0], packet[1], packet[2] := 1, 1, 6;
    forall k | 0 <= k < 4 {
      packet[4 + k] := xid[k];
    }
    packet[10], packet[11] := 0x80, 0;
    forall k | 0 <= k < 6 {
      packet[28 + k] := mac[k];
    }
    packet[236], packet[237], packet[238], packet[239] := 99, 130, 83, 99;
  }

  // Whatever the addresses, the message fits: encoding never fails.
  method EncodeDhcpMessage(mac: Mac, xid: Ipv4, kind: Request) returns (r: Result<array<byte>, DhcpError>)
    ensures r.Ok? && fresh(r.value) && r.value.Length == 576
    ensures AllFit(KindItems(kind) + CommonItems(mac))
    ensures var options := EncodeItems(KindItems(kind) + CommonItems(mac));
            && |options| < 336
            && r.value[..] == Header(mac, xid) + options + [255] + Zeros(335 - |options|)
  {
    hide EncodeItems, Zeros, Header, KindItems, CommonItems;
    var packet := new byte[PACKET_MAX](_ => 0);
    WriteHeader(packet, mac, xid);
    ghost var header := Header(mac, xid);
    var w := new OptionsWriter(packet, OPTIONS_AT);
    Blank(packet[..], header);
    assert Holds(w, header, []) by { NoItems(); }
    var ok := PutKind(w, header, kind);
    ok := PutCommon(w, header, KindItems(kind), mac);
    ghost var before := packet[..];
    Close(before, header, EncodeItems(KindItems(kind) + CommonItems(mac)));
    ok := w.Finish();
    r := if ok then Ok(packet) else Err(Encode);
  }

  lemma NoItems()
    ensures EncodeItems([]) == []
  { }

  lemma Blank(packet: Bytes, header: Bytes)
    requires |header| <= |packet|
    requires forall k :: 0 <= k < |packet| ==> packet[k] == if k < |header| then header[k] else 0
    ensures packet == header + [] + Zeros(|packet| - |header|)
  { }

  lemma Close(before: Bytes, header: Bytes, options: Bytes)
    requires |header| + |options| < |before|
    requires before == header + options + Zeros(|before| - |header| - |options|)
    ensures before[|header| + |options| := END]
         == header + options + [END] + Zeros(|before| - |header| - |options| - 1)
  { }

  // The client's own options say what it meant, to any reader of this format.
  lemma MessageSaysWhatWasMeant(mac: Mac, kind: Request, rest: Bytes)
    requires AllFit(KindItems(kind) + CommonItems(mac)) && rest != [] && rest[0] == 255
    ensures ParseFrom(EncodeItems(KindItems(kind) + CommonItems(mac)) + rest, NO_OPTIONS) ==
            Ok(NO_OPTIONS.(messageType := Some(if kind.Discover? then 1 else 3),
                          serverId := if kind.Ask? then kind.serverId else None))
  {
    hide EncodeItems, ParseFrom;
    EncodeThenParse(KindItems(kind) + CommonItems(mac), rest);
    CommonSaysNothing(KindItems(kind), mac);
    KindMeaning(kind);
  }

  lemma CommonSaysNothing(items: seq<Item>, mac: Mac)
    ensures Meaning(items + CommonItems(mac)) == Meaning(items)
  {
    hide Meaning;
    var c := CommonItems(mac);
    var a := items + [c[0]];
    var b := a + [c[1]];
    var d := b + [c[2]];
    var e := d + [c[3]];
    var f := e + [c[4]];
    assert items + c == f + [c[5]];
    OneMoreItem(items, c[0]);
    OneMoreItem(a, c[1]);
    OneMoreItem(b, c[2]);
    OneMoreItem(d, c[3]);
    OneMoreItem(e, c[4]);
    OneMoreItem(f, c[5]);
  }

  lemma KindMeaning(kind: Request)
    ensures Meaning(KindItems(kind)) ==
            NO_OPTIONS.(messageType := Some(if kind.Discover? then 1 else 3),
                       serverId := if kind.Ask? then kind.serverId else None)
  {
    hide Meaning;
    EmptyMeansNothing();
    match kind
    case Discover =>
      OneMoreItem([], Field(MESSAGE_TYPE, [1]));
      assert [] + [Field(MESSAGE_TYPE, [1])] == KindItems(kind);
    case Ask(ip, server) =>
      var a := [] + [Field(MESSAGE_TYPE, [3])];
      var b := a + [Field(REQUESTED_IP, ip)];
      OneMoreItem([], Field(MESSAGE_TYPE, [3]));
      OneMoreItem(a, Field(REQUESTED_IP, ip));
      if server.Some? {
        OneMoreItem(b, Field(SERVER_IDENTIFIER, server.value));
        assert KindItems(kind) == b + [Field(SERVER_IDENTIFIER, server.value)];
        assert server.value[..4] == server.value;
      } else {
        assert KindItems(kind) == b;
      }
  }
}
