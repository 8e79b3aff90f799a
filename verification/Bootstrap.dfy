/**
 The RP1 boot loader over I2C: chunked transfer of the image, scratch words, start command.

 The target is its memory; a bus write carries a 32-bit address and at most 64 bytes. Any write may fail,
 and a failing write may have stored any leading part of its bytes.
 */
module Bootstrap {
  import opened Prelude
  import opened WireWords

  const RP1_CHUNK_SIZE: nat := 0x40
  const RP1_BOOT_MAGIC: bv32 := 0xb007_c0de
  const RP1_SCRATCH_MAGIC: nat := 0x4015_400c
  const RP1_SCRATCH_ENTRY: nat := 0x4015_4010
  const RP1_SCRATCH_STACK: nat := 0x4015_4018
  const RP1_BOOT_CTRL_A: nat := 0x4001_0008
  const RP1_BOOT_COMMAND: nat := 0x4015_4000
  const ADDRESS_LIMIT: nat := 0x1_0000_0000

  datatype BootError = Rp1ChunkTooLarge | I2cWrite | AddressOverflow

  // Every image builder bounds the payload by 64 KiB; all that matters here is that offsets fit 32 bits.
  datatype Image = Image(payload: seq<bv8>, loadAddr: nat, entry: bv32, stack: bv32)

  type Memory = map<int, bv8>

  datatype Packet = Packet(addr: nat, data: seq<bv8>)

  // A write as it happened: how many of its bytes were stored, and whether the bus reported success.
  datatype Write = Write(packet: Packet, stored: nat, ok: bool)

  function Store(m: Memory, addr: nat, data: seq<bv8>): Memory
    decreases |data|
  {
    if data == [] then m
    else
      var n := |data| - 1;
      Store(m, addr, data[..n])[addr + n := data[n]]
  }

  predicate Possible(w: Write) {
    w.stored <= |w.packet.data| && (w.ok ==> w.stored == |w.packet.data|)
  }

  function Effect(m: Memory, w: Write): Memory
    requires Possible(w)
  {
    Store(m, w.packet.addr, w.packet.data[..w.stored])
  }

  predicate AllPossible(ws: seq<Write>) {
    forall k :: 0 <= k < |ws| ==> Possible(ws[k])
  }

  function Replay(m: Memory, ws: seq<Write>): Memory
    requires AllPossible(ws)
  {
    if ws == [] then m else Effect(Replay(m, ws[..|ws| - 1]), ws[|ws| - 1])
  }

  // ---- What a run is meant to send ----

  function Chunks(addr: nat, payload: seq<bv8>): (ps: seq<Packet>)
    decreases |payload|
  {
    if payload == [] then []
    else
      var n := if |payload| < RP1_CHUNK_SIZE then |payload| else RP1_CHUNK_SIZE;
      [Packet(addr, payload[..n])] + Chunks(addr + n, payload[n..])
  }

  // Chunk k starts 64 * k bytes into the payload and has 64 bytes, but for the last, which has what is left.
  lemma {:induction false} ChunkAt(addr: nat, payload: seq<bv8>, k: nat)
    ensures |Chunks(addr, payload)| == (|payload| + 63) / 64
    ensures 64 * k < |payload| ==>
              && k < |Chunks(addr, payload)|
              && Chunks(addr, payload)[k].addr == addr + 64 * k
              && Chunks(addr, payload)[k].data ==
                 if 64 * k + 64 <= |payload| then payload[64 * k..64 * k + 64] else payload[64 * k..]
    decreases |payload|
  {
    if |payload| > 64 {
      var rest := payload[64..];
      ChunkAt(addr + 64, rest, if k == 0 then 0 else k - 1);
      if 0 < k && 64 * k < |payload| {
        RestOfRest(payload, 64 * (k - 1));
      }
    }
  }

  lemma RestOfRest(payload: seq<bv8>, at: nat)
    requires 64 + at <= |payload|
    ensures payload[64..][at..] == payload[64 + at..]
    ensures 64 + at + 64 <= |payload| ==> payload[64..][at..at + 64] == payload[64 + at..64 + at + 64]
  { }

  // The entry word as the boot ROM expects it: Thumb bit set, masked with the magic.
  function MaskedEntry(entry: bv32): bv32 {
    (entry | 1) ^ RP1_BOOT_MAGIC
  }

  function ScratchPlan(entry: bv32, stack: bv32): seq<Packet> {
    [Packet(RP1_SCRATCH_MAGIC, ToLe(RP1_BOOT_MAGIC)),
     Packet(RP1_SCRATCH_ENTRY, ToLe(MaskedEntry(entry))),
     Packet(RP1_SCRATCH_STACK, ToLe(stack))]
  }

  const START_PLAN: seq<Packet> := [Packet(RP1_BOOT_CTRL_A, ToLe(0x100)), Packet(RP1_BOOT_COMMAND, ToLe(0x8000_0000))]

  function LoadPlan(image: Image): seq<Packet> {
    Chunks(image.loadAddr, image.payload)
  }

  function FullPlan(image: Image): seq<Packet> {
    LoadPlan(image) + ScratchPlan(image.entry, image.stack) + START_PLAN
  }

  // The writes follow the plan and stop at the first failure.
  ghost predicate Follows(ws: seq<Write>, plan: seq<Packet>) {
    && AllPossible(ws) && |ws| <= |plan|
    && (forall k :: 0 <= k < |ws| ==> ws[k].packet == plan[k])
    && (forall k :: 0 <= k < |ws| - 1 ==> ws[k].ok)
  }

  ghost predicate Completes(ws: seq<Write>, plan: seq<Packet>) {
    Follows(ws, plan) && |ws| == |plan| && (forall k :: 0 <= k < |ws| ==> ws[k].ok)
  }

  // An error names its cause: a failed last write, or else an address that does not fit 32 bits.
  ghost predicate Explains(r: Result<(), BootError>, ws: seq<Write>, plan: seq<Packet>) {
    && AllPossible(ws) && Follows(ws, plan)
    && (r.Ok? <==> Completes(ws, plan))
    && (r.Err? ==> r.error == if ws != [] && !ws[|ws| - 1].ok then I2cWrite else AddressOverflow)
  }

  // What sending a plan did: the writes it added, what they left in memory, and how it reports them.
  ghost predicate Did(m: Memory, ws: seq<Write>, m': Memory, ws': seq<Write>,
                      r: Result<(), BootError>, sent: seq<Write>, plan: seq<Packet>)
  {
    ws' == ws + sent && Explains(r, sent, plan) && m' == Replay(m, sent)
  }

  // ---- The address in front of a packet ----

  type Head = h: seq<byte> | |h| == 4 witness [0, 0, 0, 0]

  function BigEndian(addr: nat): Head
    requires addr < ADDRESS_LIMIT
  {
    [addr / 0x100 / 0x100 / 0x100, addr / 0x100 / 0x100 % 0x100, addr / 0x100 % 0x100, addr % 0x100]
  }

  function AddressOf(head: Head): nat {
    var a: nat, b: nat, c: nat, d: nat := head[0], head[1], head[2], head[3];
    0x100 * (0x100 * (0x100 * a + b) + c) + d
  }

  lemma AddressArrives(addr: nat)
    requires addr < ADDRESS_LIMIT
    ensures AddressOf(BigEndian(addr)) == addr
  {
    var a, b := addr / 0x100, addr / 0x100 / 0x100;
    assert addr == 0x100 * a + addr % 0x100;
    assert a == 0x100 * b + a % 0x100;
    assert b == 0x100 * (b / 0x100) + b % 0x100;
  }

  class Rp1Bootstrap {
    var memory: Memory
    ghost var writes: seq<Write>

    constructor (memory: Memory)
      ensures this.memory == memory && writes == []
    {
      this.memory, writes := memory, [];
    }

    // The bus: it alone decides whether a write succeeds and how much of a failing one is stored. The target
    // takes the first four bytes as the address.
    method BusWrite(head: Head, data: seq<bv8>) returns (ok: bool, ghost w: Write)
      modifies this
      ensures w.packet == Packet(AddressOf(head), data) && w.ok == ok && Possible(w)
      ensures writes == old(writes) + [w] && memory == Effect(old(memory), w)
    {
      ok := *;
      var stored: nat := |data|;
      if !ok {
        stored :| 0 <= stored <= |data|;
      }
      memory := Store(memory, AddressOf(head), data[..stored]);
      w := Write(Packet(AddressOf(head), data), stored, ok);
      writes := writes + [w];
    }

    method WriteMem(addr: nat, data: seq<bv8>) returns (r: Result<(), BootError>, ghost sent: seq<Write>)
      requires addr < ADDRESS_LIMIT
      modifies this
      ensures writes == old(writes) + sent
      ensures |data| > 64 ==> r == Err(Rp1ChunkTooLarge) && sent == [] && memory == old(memory)
      ensures |data| <= 64 ==>
                && |sent| == 1 && sent[0].packet == Packet(addr, data) && Possible(sent[0])
                && memory == Effect(old(memory), sent[0])
                && r == if sent[0].ok then Ok(()) else Err(I2cWrite)
    {
      if |data| > RP1_CHUNK_SIZE {
        return Err(Rp1ChunkTooLarge), [];
      }
      AddressArrives(addr);
      hide BigEndian, AddressOf, Effect;
      ghost var w;
      var ok;
      ok, w := BusWrite(BigEndian(addr), data);
      return if ok then Ok(()) else Err(I2cWrite), [w];
    }

    method LoadImage(image: Image) returns (r: Result<(), BootError>, ghost sent: seq<Write>)
      requires |image.payload| <= ADDRESS_LIMIT
      modifies this
      ensures Did(old(memory), old(writes), memory, writes, r, sent, LoadPlan(image))
    {
      hide Effect, Replay, Store, Chunks;
      var off := 0;
      ghost var plan := LoadPlan(image);
      sent := [];
      StartPlanRun(memory, plan);
      assert image.payload[0..] == image.payload && plan[0..] == plan;
      while off < |image.payload|
        invariant 0 <= off <= |image.payload|
        invariant writes == old(writes) + sent
        invariant AllOk(sent, plan) && memory == Replay(old(memory), sent)
        invariant plan[|sent|..] == Chunks(image.loadAddr + off, image.payload[off..])
      {
        var n := if RP1_CHUNK_SIZE < |image.payload| - off then RP1_CHUNK_SIZE else |image.payload| - off;
        NextChunk(image, off, n, plan, |sent|);
        if image.loadAddr + off >= ADDRESS_LIMIT {
          r := Err(AddressOverflow);
          return;
        }
        r, sent := SendNext(Packet(image.loadAddr + off, image.payload[off..off + n]), plan, old(memory), sent);
        if r.Err? {
          return;
        }
        off := off + n;
      }
      NoChunks(image.loadAddr + off);
      assert image.payload[off..] == [] && plan[|sent|..] == [];
      r := Ok(());
    }

    method ProgramScratch(entry: bv32, stack: bv32) returns (r: Result<(), BootError>, ghost sent: seq<Write>)
      modifies this
      ensures Did(old(memory), old(writes), memory, writes, r, sent, ScratchPlan(entry, stack))
    {
      hide Effect, Replay, Store, ToLe;
      ghost var plan := ScratchPlan(entry, stack);
      StartPlanRun(memory, plan);
      r, sent := SendNext(Packet(RP1_SCRATCH_MAGIC, ToLe(RP1_BOOT_MAGIC)), plan, old(memory), []);
      if r.Err? { return; }
      r, sent := SendNext(Packet(RP1_SCRATCH_ENTRY, ToLe(MaskedEntry(entry))), plan, old(memory), sent);
      if r.Err? { return; }
      r, sent := SendNext(Packet(RP1_SCRATCH_STACK, ToLe(stack)), plan, old(memory), sent);
    }

    method Start() returns (r: Result<(), BootError>, ghost sent: seq<Write>)
      modifies this
      ensures Did(old(memory), old(writes), memory, writes, r, sent, START_PLAN)
    {
      hide Effect, Replay, Store, ToLe;
      StartPlanRun(memory, START_PLAN);
      r, sent := SendNext(Packet(RP1_BOOT_CTRL_A, ToLe(0x100)), START_PLAN, old(memory), []);
      if r.Err? { return; }
      r, sent := SendNext(Packet(RP1_BOOT_COMMAND, ToLe(0x8000_0000)), START_PLAN, old(memory), sent);
    }

    method LoadAndStart(image: Image) returns (r: Result<(), BootError>, ghost sent: seq<Write>)
      requires |image.payload| <= ADDRESS_LIMIT
      modifies this
      ensures Did(old(memory), old(writes), memory, writes, r, sent, FullPlan(image))
    {
      var load, scratch := LoadPlan(image), ScratchPlan(image.entry, image.stack);
      assert scratch != [] && START_PLAN != [];
      PlanParts(image);
      hide LoadPlan, ScratchPlan, FullPlan, START_PLAN, Did;
      ghost var m0, w0 := memory, writes;
      ghost var a, b, c;
      r, a := LoadImage(image);
      ghost var ra, m1, w1 := r, memory, writes;
      if r.Err? {
        sent := a;
        DidNotGoOn(m0, w0, m1, w1, r, a, load, scratch + START_PLAN);
        return;
      }
      r, b := ProgramScratch(image.entry, image.stack);
      ghost var rb, m2, w2 := r, memory, writes;
      DidBoth(m0, w0, m1, w1, m2, w2, ra, rb, a, b, load, scratch);
      if r.Err? {
        sent := a + b;
        DidNotGoOn(m0, w0, m2, w2, r, a + b, load + scratch, START_PLAN);
        return;
      }
      r, c := Start();
      DidBoth(m0, w0, m2, w2, memory, writes, rb, r, a + b, c, load + scratch, START_PLAN);
      sent := a + b + c;
    }

    // One write of a planned sequence all of whose earlier writes succeeded.
    method SendNext(packet: Packet, ghost plan: seq<Packet>, ghost start: Memory, ghost before: seq<Write>)
      returns (r: Result<(), BootError>, ghost sent: seq<Write>)
      requires AllOk(before, plan) && |before| < |plan| && plan[|before|] == packet
      requires |packet.data| <= RP1_CHUNK_SIZE && packet.addr < ADDRESS_LIMIT
      requires memory == Replay(start, before)
      modifies this
      ensures |sent| == |before| + 1 && sent[..|before|] == before && writes == old(writes) + [sent[|before|]]
      ensures Follows(sent, plan) && memory == Replay(start, sent)
      ensures r.Ok? ==> AllOk(sent, plan)
      ensures r.Err? ==> r.error == I2cWrite && !sent[|before|].ok
    {
      hide Effect;
      ghost var one;
      r, one := WriteMem(packet.addr, packet.data);
      sent := before + one;
      assert sent[..|before|] == before && one == [sent[|before|]];
    }
  }

  lemma PlanParts(image: Image)
    ensures var load, scratch := LoadPlan(image), ScratchPlan(image.entry, image.stack);
            FullPlan(image) == load + scratch + START_PLAN == load + (scratch + START_PLAN)
  { }

  ghost predicate AllOk(ws: seq<Write>, plan: seq<Packet>) {
    Follows(ws, plan) && forall k :: 0 <= k < |ws| ==> ws[k].ok
  }

  lemma StartPlanRun(m: Memory, plan: seq<Packet>)
    ensures AllOk([], plan) && Replay(m, []) == m
  {
  }

  lemma StoppedEarly(r: Result<(), BootError>, a: seq<Write>, p: seq<Packet>, q: seq<Packet>)
    requires r.Err? && Explains(r, a, p)
    ensures Explains(r, a, p + q)
  {
  }

  // A part that went through, and the next one.
  lemma DidBoth(m0: Memory, w0: seq<Write>, m1: Memory, w1: seq<Write>, m2: Memory, w2: seq<Write>,
                ra: Result<(), BootError>, rb: Result<(), BootError>,
                a: seq<Write>, b: seq<Write>, p: seq<Packet>, q: seq<Packet>)
    requires Did(m0, w0, m1, w1, ra, a, p) && Did(m1, w1, m2, w2, rb, b, q) && ra.Ok? && q != []
    ensures Did(m0, w0, m2, w2, rb, a + b, p + q)
  {
    BothExplain(rb, a, p, b, q);
    hide Explains, Completes, Follows, Replay;
    ReplayConcat(m0, a, b);
  }

  // A part that did not, and the next one never begun.
  lemma DidNotGoOn(m0: Memory, w0: seq<Write>, m1: Memory, w1: seq<Write>,
                   r: Result<(), BootError>, a: seq<Write>, p: seq<Packet>, q: seq<Packet>)
    requires Did(m0, w0, m1, w1, r, a, p) && r.Err?
    ensures Did(m0, w0, m1, w1, r, a, p + q)
  {
    StoppedEarly(r, a, p, q);
    hide Explains, Replay;
  }

  lemma BothExplain(r: Result<(), BootError>, a: seq<Write>, p: seq<Packet>, b: seq<Write>, q: seq<Packet>)
    requires Completes(a, p) && q != [] && Explains(r, b, q)
    ensures Explains(r, a + b, p + q) && AllPossible(a) && AllPossible(b)
  {
    assert b != [] ==> (a + b)[|a + b| - 1] == b[|b| - 1];
    if b == [] && a != [] {
      assert (a + b)[|a + b| - 1].ok;
    }
    if Completes(a + b, p + q) {
      forall k | 0 <= k < |b| ensures b[k].ok {
        assert (a + b)[|a| + k].ok;
      }
    }
  }

  lemma {:induction false} ReplayConcat(m: Memory, a: seq<Write>, b: seq<Write>)
    requires AllPossible(a) && AllPossible(b)
    ensures AllPossible(a + b) && Replay(m, a + b) == Replay(Replay(m, a), b)
    decreases |b|
  {
    hide Effect;
    if b == [] {
      assert a + b == a;
    } else {
      assert (a + b)[..|a + b| - 1] == a + b[..|b| - 1];
      ReplayConcat(m, a, b[..|b| - 1]);
    }
  }

  lemma NoChunks(addr: nat)
    ensures Chunks(addr, []) == []
  {
  }

  lemma NextChunk(image: Image, off: nat, n: nat, plan: seq<Packet>, k: nat)
    requires off < |image.payload| && k <= |plan|
    requires n == if RP1_CHUNK_SIZE < |image.payload| - off then RP1_CHUNK_SIZE else |image.payload| - off
    requires plan[k..] == Chunks(image.loadAddr + off, image.payload[off..])
    ensures k < |plan| && plan[k] == Packet(image.loadAddr + off, image.payload[off..off + n])
    ensures plan[k + 1..] == Chunks(image.loadAddr + off + n, image.payload[off + n..])
  {
    var rest := image.payload[off..];
    assert rest[..n] == image.payload[off..off + n] && rest[n..] == image.payload[off + n..];
    assert plan[k + 1..] == plan[k..][1..];
  }
}
