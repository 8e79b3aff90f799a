/** What every run of the boot loader guarantees about the target's memory. */
module BootSafety {
  import opened Prelude
  import opened WireWords
  import opened Bootstrap
  import Rp1Image

  predicate Inside(a: int, addr: nat, n: nat) {
    addr <= a < addr + n
  }

  predicate IsRegister(a: int) {
    || Inside(a, RP1_SCRATCH_MAGIC, 4) || Inside(a, RP1_SCRATCH_ENTRY, 4) || Inside(a, RP1_SCRATCH_STACK, 4)
    || Inside(a, RP1_BOOT_CTRL_A, 4) || Inside(a, RP1_BOOT_COMMAND, 4)
  }

  // The load range does not overlap the five registers; every image builder loads at the SRAM base.
  ghost predicate AvoidsRegisters(image: Image) {
    forall a :: Inside(a, image.loadAddr, |image.payload|) ==> !IsRegister(a)
  }

  ghost predicate Holds(m: Memory, addr: nat, data: seq<bv8>) {
    forall a :: Inside(a, addr, |data|) ==> a in m && m[a] == data[a - addr]
  }

  // The target is ready to be started: whole payload, and scratch words that decode to entry and stack.
  ghost predicate ReadyToStart(m: Memory, image: Image) {
    && Holds(m, image.loadAddr, image.payload)
    && Holds(m, RP1_SCRATCH_MAGIC, ToLe(RP1_BOOT_MAGIC))
    && Holds(m, RP1_SCRATCH_ENTRY, ToLe(MaskedEntry(image.entry)))
    && Holds(m, RP1_SCRATCH_STACK, ToLe(image.stack))
  }

  // The boot ROM undoes the mask, and what it finds in the scratch word is the Thumb entry.
  lemma ScratchDecodes(entry: bv32)
    ensures ReadLe(ToLe(MaskedEntry(entry))) ^ RP1_BOOT_MAGIC == entry | 1
  { }

  // ---- The chunks add up to one bulk copy ----

  lemma {:induction false} StoreLookup(m: Memory, addr: nat, data: seq<bv8>)
    ensures forall a :: a in Store(m, addr, data) <==> a in m || Inside(a, addr, |data|)
    ensures forall a :: a in Store(m, addr, data)
              ==> Store(m, addr, data)[a] == if Inside(a, addr, |data|) then data[a - addr] else m[a]
    decreases |data|
  {
    if data != [] {
      StoreLookup(m, addr, data[..|data| - 1]);
    }
  }

  lemma StoreConcat(m: Memory, addr: nat, a: seq<bv8>, b: seq<bv8>)
    ensures Store(Store(m, addr, a), addr + |a|, b) == Store(m, addr, a + b)
  {
    hide Store;
    StoreLookup(m, addr, a);
    StoreLookup(Store(m, addr, a), addr + |a|, b);
    StoreLookup(m, addr, a + b);
    var left, right := Store(Store(m, addr, a), addr + |a|, b), Store(m, addr, a + b);
    forall x ensures x in left <==> x in right {
    }
    forall x | x in left ensures left[x] == right[x] {
    }
  }

  // What completing a plan means, piece by piece.
  lemma CompletesSplit(ws: seq<Write>, p: seq<Packet>, q: seq<Packet>)
    requires Completes(ws, p + q)
    ensures Completes(ws[..|p|], p) && Completes(ws[|p|..], q) && ws == ws[..|p|] + ws[|p|..]
  { }

  // The memory after a list of packets, all of them written.
  function Deliver(m: Memory, ps: seq<Packet>): Memory
    decreases |ps|
  {
    if ps == [] then m else Deliver(Store(m, ps[0].addr, ps[0].data), ps[1..])
  }

  lemma {:induction false} CompletedIsDelivered(m: Memory, ws: seq<Write>, ps: seq<Packet>)
    requires Completes(ws, ps)
    ensures Replay(m, ws) == Deliver(m, ps)
    decreases |ps|
  {
    hide Store;
    if ps != [] {
      var w := ws[0];
      assert ps == [ps[0]] + ps[1..];
      CompletesSplit(ws, [ps[0]], ps[1..]);
      assert ws[..1] == [w] && w.packet.data[..w.stored] == ps[0].data;
      ReplayOne(m, w);
      hide Replay, Completes;
      ReplayConcat(m, [w], ws[1..]);
      CompletedIsDelivered(Effect(m, w), ws[1..], ps[1..]);
    }
  }

  lemma {:induction false} DeliverConcat(m: Memory, ps: seq<Packet>, qs: seq<Packet>)
    ensures Deliver(m, ps + qs) == Deliver(Deliver(m, ps), qs)
    decreases |ps|
  {
    hide Store;
    if ps == [] {
      assert ps + qs == qs;
    } else {
      assert (ps + qs)[1..] == ps[1..] + qs;
      DeliverConcat(Store(m, ps[0].addr, ps[0].data), ps[1..], qs);
    }
  }

  lemma {:induction false} ChunksAreOneCopy(m: Memory, addr: nat, payload: seq<bv8>)
    ensures Deliver(m, Chunks(addr, payload)) == Store(m, addr, payload)
    decreases |payload|
  {
    hide Store;
    if payload == [] {
      StoreNothing(m, addr);
    } else {
      var n := if |payload| < RP1_CHUNK_SIZE then |payload| else RP1_CHUNK_SIZE;
      assert Chunks(addr, payload)[1..] == Chunks(addr + n, payload[n..]);
      ChunksAreOneCopy(Store(m, addr, payload[..n]), addr + n, payload[n..]);
      StoreConcat(m, addr, payload[..n], payload[n..]);
      assert payload[..n] + payload[n..] == payload;
    }
  }

  lemma StoreNothing(m: Memory, addr: nat)
    ensures Store(m, addr, []) == m
  {
  }

  lemma ReplayOne(m: Memory, w: Write)
    requires Possible(w)
    ensures AllPossible([w]) && Replay(m, [w]) == Effect(m, w)
  { }

  lemma {:induction false} ChunkInside(addr: nat, payload: seq<bv8>, k: nat)
    requires k < |Chunks(addr, payload)|
    ensures var p := Chunks(addr, payload)[k];
            && addr <= p.addr && p.addr + |p.data| <= addr + |payload|
            && 0 < |p.data| <= RP1_CHUNK_SIZE
    decreases k
  {
    if k > 0 {
      var n := if |payload| < RP1_CHUNK_SIZE then |payload| else RP1_CHUNK_SIZE;
      ChunkInside(addr + n, payload[n..], k - 1);
    }
  }

  // ---- Load before start ----

  predicate Touches(p: Packet, a: int) {
    Inside(a, p.addr, |p.data|)
  }

  // The boot command register is written only when the target is ready.
  ghost predicate StartsReady(m: Memory, ws: seq<Write>, image: Image)
    requires AllPossible(ws)
  {
    forall j :: 0 <= j < |ws| && Touches(ws[j].packet, RP1_BOOT_COMMAND) ==> ReadyToStart(Replay(m, ws[..j]), image)
  }

  lemma ChunkIsNoStart(image: Image, j: nat)
    requires AvoidsRegisters(image) && j < |LoadPlan(image)|
    ensures !Touches(LoadPlan(image)[j], RP1_BOOT_COMMAND)
  {
    hide Chunks;
    assert IsRegister(RP1_BOOT_COMMAND);
    assert !Inside(RP1_BOOT_COMMAND, image.loadAddr, |image.payload|);
    ChunkInside(image.loadAddr, image.payload, j);
  }

  lemma OnlyTheLastStarts(image: Image, j: nat)
    requires AvoidsRegisters(image) && j < |FullPlan(image)|
    requires Touches(FullPlan(image)[j], RP1_BOOT_COMMAND)
    ensures j == |FullPlan(image)| - 1
  {
    var load := LoadPlan(image);
    hide ToLe, Chunks;
    if j < |load| {
      assert FullPlan(image)[j] == load[j];
      ChunkIsNoStart(image, j);
    } else {
      assert FullPlan(image)[j] == (ScratchPlan(image.entry, image.stack) + START_PLAN)[j - |load|];
    }
  }

  // Memory once the chunks, the scratch words and the control register have all been written.
  function Prepared(m: Memory, image: Image): Memory {
    Deliver(Store(m, image.loadAddr, image.payload), ScratchPlan(image.entry, image.stack) + [START_PLAN[0]])
  }

  // A write to a register leaves the payload and every other register alone.
  lemma RegisterWrite(m: Memory, image: Image, addr: nat, w: bv32)
    requires AvoidsRegisters(image) && forall i :: Inside(i, addr, 4) ==> IsRegister(i)
    ensures var t := Store(m, addr, ToLe(w));
            && Holds(t, addr, ToLe(w))
            && (Holds(m, image.loadAddr, image.payload) ==> Holds(t, image.loadAddr, image.payload))
            && (forall b: nat, v: bv32 :: (b + 4 <= addr || addr + 4 <= b) && Holds(m, b, ToLe(v)) ==> Holds(t, b, ToLe(v)))
  {
    hide Store, ToLe, IsRegister;
    var t := Store(m, addr, ToLe(w));
    StoreLookup(m, addr, ToLe(w));
    if Holds(m, image.loadAddr, image.payload) {
      forall a | Inside(a, image.loadAddr, |image.payload|)
        ensures a in t && t[a] == image.payload[a - image.loadAddr]
      {
        assert !Inside(a, addr, 4);
      }
    }
  }

  lemma PreparedIsReady(m: Memory, image: Image)
    requires AvoidsRegisters(image)
    ensures ReadyToStart(Prepared(m, image), image)
    ensures Holds(Prepared(m, image), RP1_BOOT_CTRL_A, ToLe(0x100))
  {
    var s, c := ScratchPlan(image.entry, image.stack), START_PLAN[0];
    assert s + [c] == [s[0], s[1], s[2], c];
    hide ToLe, MaskedEntry, Store;
    var m0 := Store(m, image.loadAddr, image.payload);
    FourPackets(m0, s[0], s[1], s[2], c);
    StoreLookup(m, image.loadAddr, image.payload);
    assert Holds(m0, image.loadAddr, image.payload);
    hide Holds;
    var m1 := Store(m0, s[0].addr, s[0].data);
    RegisterWrite(m0, image, RP1_SCRATCH_MAGIC, RP1_BOOT_MAGIC);
    var m2 := Store(m1, s[1].addr, s[1].data);
    RegisterWrite(m1, image, RP1_SCRATCH_ENTRY, MaskedEntry(image.entry));
    var m3 := Store(m2, s[2].addr, s[2].data);
    RegisterWrite(m2, image, RP1_SCRATCH_STACK, image.stack);
    RegisterWrite(m3, image, RP1_BOOT_CTRL_A, 0x100);
  }

  lemma FourPackets(m: Memory, p: Packet, q: Packet, r: Packet, s: Packet)
    ensures Deliver(m, [p, q, r, s])
         == Store(Store(Store(Store(m, p.addr, p.data), q.addr, q.data), r.addr, r.data), s.addr, s.data)
  {
    hide Store;
    var m1 := Store(m, p.addr, p.data);
    var m2 := Store(m1, q.addr, q.data);
    var m3 := Store(m2, r.addr, r.data);
    assert [p, q, r, s] == [p] + [q, r, s] && [q, r, s] == [q] + [r, s] && [r, s] == [r] + [s];
    DeliverFirst(m, p, [q, r, s]);
    DeliverFirst(m1, q, [r, s]);
    DeliverFirst(m2, r, [s]);
    assert [s] == [s] + [];
    DeliverFirst(m3, s, []);
  }

  lemma DeliverFirst(m: Memory, p: Packet, ps: seq<Packet>)
    ensures Deliver(m, [p] + ps) == Deliver(Store(m, p.addr, p.data), ps)
  { }

  // All packets but the last.
  function BeforeStart(image: Image): seq<Packet> {
    LoadPlan(image) + (ScratchPlan(image.entry, image.stack) + [START_PLAN[0]])
  }

  lemma PlanEndsWithStart(image: Image)
    ensures FullPlan(image) == BeforeStart(image) + [START_PLAN[1]]
  { }

  lemma ReadyAfterPrefix(m: Memory, image: Image, ws: seq<Write>)
    requires AvoidsRegisters(image) && Completes(ws, BeforeStart(image))
    ensures Replay(m, ws) == Prepared(m, image) && ReadyToStart(Replay(m, ws), image)
    ensures Holds(Replay(m, ws), RP1_BOOT_CTRL_A, ToLe(0x100))
  {
    hide Replay, Completes, Deliver, Chunks, ScratchPlan, ReadyToStart, Store;
    CompletedIsDelivered(m, ws, BeforeStart(image));
    DeliverConcat(m, LoadPlan(image), ScratchPlan(image.entry, image.stack) + [START_PLAN[0]]);
    ChunksAreOneCopy(m, image.loadAddr, image.payload);
    PreparedIsReady(m, image);
  }

  // Main result: in every run of load_and_start, whatever fails, the boot command is written only when
  // the whole payload is in place and the scratch words decode to the image's entry and stack.
  lemma LoadBeforeStart(m: Memory, image: Image, ws: seq<Write>)
    requires AvoidsRegisters(image) && Follows(ws, FullPlan(image))
    ensures StartsReady(m, ws, image)
  {
    forall j | 0 <= j < |ws| && Touches(ws[j].packet, RP1_BOOT_COMMAND)
      ensures ReadyToStart(Replay(m, ws[..j]), image)
    {
      OnlyTheLastStarts(image, j);
      PlanEndsWithStart(image);
      hide FullPlan, BeforeStart, ReadyToStart, Replay, Touches;
      assert Completes(ws[..j], BeforeStart(image));
      ReadyAfterPrefix(m, image, ws[..j]);
    }
  }

  // An RP1.img file as the loader gets it.
  function Loaded(file: Rp1Image.Image): Image {
    Image(file.payload, file.loadAddr as int, file.entry, file.stack)
  }

  // From the file to the start: an accepted RP1.img is loaded clear of the registers, so no run of its
  // loading gives the start command early, and a complete run starts it with its own payload in place.
  lemma AcceptedImageStartsSafely(bytes: seq<bv8>, m: Memory, ws: seq<Write>)
    requires Rp1Image.ParseRp1Img(bytes).Ok?
    requires Follows(ws, FullPlan(Loaded(Rp1Image.ParseRp1Img(bytes).value)))
    ensures var image := Loaded(Rp1Image.ParseRp1Img(bytes).value);
            && StartsReady(m, ws, image)
            && (Completes(ws, FullPlan(image)) ==>
                  ReadyToStart(Replay(m, ws), image) && Holds(Replay(m, ws), RP1_BOOT_COMMAND, ToLe(0x8000_0000)))
  {
    hide FullPlan, StartsReady, ReadyToStart, Replay, Rp1Image.EntryInImage;
    var image := Loaded(Rp1Image.ParseRp1Img(bytes).value);
    assert image.loadAddr == 0x2000_0000 && |image.payload| <= 0x1_0000;
    assert AvoidsRegisters(image);
    LoadBeforeStart(m, image, ws);
    if Completes(ws, FullPlan(image)) {
      SuccessMeansStarted(m, image, ws);
    }
  }

  lemma PlannedPacketsStayInside(image: Image, k: nat, a: int)
    requires k < |FullPlan(image)| && Touches(FullPlan(image)[k], a)
    ensures Inside(a, image.loadAddr, |image.payload|) || IsRegister(a)
  {
    var load := LoadPlan(image);
    hide ToLe, Chunks;
    if k < |load| {
      ChunkInside(image.loadAddr, image.payload, k);
      assert FullPlan(image)[k] == load[k];
    } else {
      assert FullPlan(image)[k] == (ScratchPlan(image.entry, image.stack) + START_PLAN)[k - |load|];
    }
  }

  // Main result: no run, failed or not, changes memory outside the load range and the five registers.
  lemma {:induction false} NothingElseChanges(m: Memory, image: Image, ws: seq<Write>, a: int)
    requires Follows(ws, FullPlan(image))
    requires !Inside(a, image.loadAddr, |image.payload|) && !IsRegister(a)
    ensures a in Replay(m, ws) <==> a in m
    ensures a in m ==> Replay(m, ws)[a] == m[a]
    decreases |ws|
  {
    hide FullPlan, IsRegister;
    if ws != [] {
      var k := |ws| - 1;
      NothingElseChanges(m, image, ws[..k], a);
      var w := ws[k];
      StoreLookup(Replay(m, ws[..k]), w.packet.addr, w.packet.data[..w.stored]);
      hide Store;
      if Touches(ws[k].packet, a) {
        PlannedPacketsStayInside(image, k, a);
      }
    }
  }

  // A successful run leaves the target ready and the start command given.
  lemma SuccessMeansStarted(m: Memory, image: Image, ws: seq<Write>)
    requires AvoidsRegisters(image) && Completes(ws, FullPlan(image))
    ensures ReadyToStart(Replay(m, ws), image)
    ensures Holds(Replay(m, ws), RP1_BOOT_COMMAND, ToLe(0x8000_0000))
    ensures Holds(Replay(m, ws), RP1_BOOT_CTRL_A, ToLe(0x100))
  {
    PlanEndsWithStart(image);
    CompletesSplit(ws, BeforeStart(image), [START_PLAN[1]]);
    hide FullPlan, BeforeStart, Completes, Replay, ReadyToStart, Deliver;
    var k := |BeforeStart(image)|;
    ReadyAfterPrefix(m, image, ws[..k]);
    CompletedIsDelivered(Replay(m, ws[..k]), ws[k..], [START_PLAN[1]]);
    CompletesIsPossible(ws[..k], BeforeStart(image));
    CompletesIsPossible(ws[k..], [START_PLAN[1]]);
    ReplayConcat(m, ws[..k], ws[k..]);
    StartCommandKeepsReady(Replay(m, ws[..k]), image);
  }

  lemma CompletesIsPossible(ws: seq<Write>, ps: seq<Packet>)
    requires Completes(ws, ps)
    ensures AllPossible(ws)
  {
  }

  lemma StartCommandKeepsReady(m: Memory, image: Image)
    requires AvoidsRegisters(image) && ReadyToStart(m, image)
    ensures ReadyToStart(Deliver(m, [START_PLAN[1]]), image)
    ensures Holds(Deliver(m, [START_PLAN[1]]), RP1_BOOT_COMMAND, ToLe(0x8000_0000))
    ensures Holds(m, RP1_BOOT_CTRL_A, ToLe(0x100)) ==> Holds(Deliver(m, [START_PLAN[1]]), RP1_BOOT_CTRL_A, ToLe(0x100))
  {
    hide ToLe, MaskedEntry, Store;
    assert [START_PLAN[1]][1..] == [];
    RegisterWrite(m, image, RP1_BOOT_COMMAND, 0x8000_0000);
  }

  // ---- The target in numbers ----

  // The word in four bytes of memory, if they are there.
  function WordIn(m: Memory, addr: nat): Option<bv32> {
    if addr in m && addr + 1 in m && addr + 2 in m && addr + 3 in m then
      Some(FromLe(m[addr], m[addr + 1], m[addr + 2], m[addr + 3]))
    else None
  }

  lemma HoldsWord(m: Memory, addr: nat, w: bv32)
    ensures Holds(m, addr, ToLe(w)) <==> WordIn(m, addr) == Some(w)
  {
    LeRoundTrip(w);
    if WordIn(m, addr).Some? {
      BytesRoundTrip(m[addr], m[addr + 1], m[addr + 2], m[addr + 3]);
    }
    hide FromLe;
    var d := ToLe(w);
    assert forall a :: Inside(a, addr, 4) <==> a == addr || a == addr + 1 || a == addr + 2 || a == addr + 3;
    if Holds(m, addr, d) {
      assert Inside(addr, addr, 4) && Inside(addr + 1, addr, 4) && Inside(addr + 2, addr, 4) && Inside(addr + 3, addr, 4);
    }
  }

  // What the boot ROM makes of the scratch word for the entry.
  function Unmasked(w: bv32): bv32 {
    w ^ 0xb007_c0de
  }

  function ThumbEntry(entry: bv32): bv32 {
    entry | 1
  }

  lemma MaskedIs(entry: bv32)
    ensures MaskedEntry(entry) == Unmasked(ThumbEntry(entry))
  { }

  lemma UnmaskedTwice(w: bv32)
    ensures Unmasked(Unmasked(w)) == w
  { }

  lemma MaskedIff(w: bv32, entry: bv32)
    ensures w == MaskedEntry(entry) <==> Unmasked(w) == ThumbEntry(entry)
  {
    hide Unmasked, ThumbEntry, MaskedEntry;
    MaskedIs(entry);
    UnmaskedTwice(w);
    UnmaskedTwice(ThumbEntry(entry));
  }

  // A ready target: the payload in place, the boot magic at 0x4015400c, at 0x40154010 a word that the magic turns
  // into the Thumb entry, and the stack at 0x40154018.
  lemma ReadyMeans(m: Memory, image: Image)
    ensures ReadyToStart(m, image) <==>
            && Holds(m, image.loadAddr, image.payload)
            && WordIn(m, 0x4015_400c) == Some(0xb007_c0de)
            && WordIn(m, 0x4015_4010).Some? && Unmasked(WordIn(m, 0x4015_4010).value) == ThumbEntry(image.entry)
            && WordIn(m, 0x4015_4018) == Some(image.stack)
  {
    hide Holds, WordIn, ToLe, MaskedEntry, Unmasked, ThumbEntry;
    HoldsWord(m, RP1_SCRATCH_MAGIC, RP1_BOOT_MAGIC);
    HoldsWord(m, RP1_SCRATCH_ENTRY, MaskedEntry(image.entry));
    HoldsWord(m, RP1_SCRATCH_STACK, image.stack);
    if WordIn(m, 0x4015_4010).Some? {
      MaskedIff(WordIn(m, 0x4015_4010).value, image.entry);
    }
  }

  // Main result: after a complete run the target holds payload, magic, masked entry and stack, 0x100 is in the
  // control register at 0x40010008, and the start command 0x80000000 at 0x40154000.
  lemma StartedMeans(m: Memory, image: Image, ws: seq<Write>)
    requires AvoidsRegisters(image) && Completes(ws, FullPlan(image))
    ensures AllPossible(ws)
    ensures var t := Replay(m, ws);
            && Holds(t, image.loadAddr, image.payload)
            && WordIn(t, 0x4015_400c) == Some(0xb007_c0de)
            && WordIn(t, 0x4015_4010).Some? && Unmasked(WordIn(t, 0x4015_4010).value) == ThumbEntry(image.entry)
            && WordIn(t, 0x4015_4018) == Some(image.stack)
            && WordIn(t, 0x4001_0008) == Some(0x100) && WordIn(t, 0x4015_4000) == Some(0x8000_0000)
  {
    hide Holds, WordIn, ToLe, Replay, ReadyToStart, FullPlan, Completes, Unmasked, ThumbEntry;
    CompletesIsPossible(ws, FullPlan(image));
    SuccessMeansStarted(m, image, ws);
    ReadyMeans(Replay(m, ws), image);
    HoldsWord(Replay(m, ws), RP1_BOOT_COMMAND, 0x8000_0000);
    HoldsWord(Replay(m, ws), RP1_BOOT_CTRL_A, 0x100);
  }

  // From an accepted file to a started target: its payload at the load address, its own entry and stack in scratch.
  lemma AcceptedFileIsStarted(bytes: seq<bv8>, m: Memory, ws: seq<Write>)
    requires Rp1Image.ParseRp1Img(bytes).Ok?
    requires Completes(ws, FullPlan(Loaded(Rp1Image.ParseRp1Img(bytes).value)))
    ensures AllPossible(ws)
    ensures var file, t := Rp1Image.ParseRp1Img(bytes).value, Replay(m, ws);
            && Holds(t, 0x2000_0000, file.payload)
            && WordIn(t, 0x4015_400c) == Some(0xb007_c0de)
            && WordIn(t, 0x4015_4010).Some? && Unmasked(WordIn(t, 0x4015_4010).value) == ThumbEntry(file.entry)
            && WordIn(t, 0x4015_4018) == Some(file.stack)
            && WordIn(t, 0x4001_0008) == Some(0x100) && WordIn(t, 0x4015_4000) == Some(0x8000_0000)
  {
    hide FullPlan, Completes, Replay, Holds, WordIn, Unmasked, ThumbEntry, Rp1Image.EntryInImage;
    var image := Loaded(Rp1Image.ParseRp1Img(bytes).value);
    assert image.loadAddr == 0x2000_0000 && |image.payload| <= 0x1_0000;
    assert AvoidsRegisters(image);
    StartedMeans(m, image, ws);
  }

  // ---- The debug-stub build sends the same three parts, and may be told to continue after a failure ----

  ghost predicate StubRun(image: Image, keepGoing: bool, a: seq<Write>, b: seq<Write>, c: seq<Write>) {
    var load, scratch := LoadPlan(image), ScratchPlan(image.entry, image.stack);
    && Follows(a, load) && Follows(b, scratch) && Follows(c, START_PLAN)
    && (keepGoing || Completes(a, load) || (b == [] && c == []))
    && (keepGoing || Completes(b, scratch) || c == [])
  }

  lemma StubRunIsPlanned(image: Image, a: seq<Write>, b: seq<Write>, c: seq<Write>)
    requires StubRun(image, false, a, b, c)
    ensures Follows(a + b + c, FullPlan(image))
  { }

  function Sent(p: Packet): Write {
    Write(p, |p.data|, true)
  }

  // The bus refuses the first chunk and the first scratch word without storing anything, then accepts the
  // rest: whatever was missing is still missing at the start command.
  function RefusedLoad(image: Image): seq<Write> {
    if LoadPlan(image) == [] then [] else [Write(LoadPlan(image)[0], 0, false)]
  }

  function RefusedScratch(image: Image): seq<Write> {
    [Write(ScratchPlan(image.entry, image.stack)[0], 0, false)]
  }

  const BOTH_SENT: seq<Write> := [Sent(START_PLAN[0]), Sent(START_PLAN[1])]

  lemma CarelessIsStubRun(image: Image)
    ensures StubRun(image, true, RefusedLoad(image), RefusedScratch(image), BOTH_SENT)
    ensures AllPossible(RefusedLoad(image) + RefusedScratch(image) + BOTH_SENT)
  {
    hide ToLe, MaskedEntry, LoadPlan;
  }

  lemma CarelessRun(m: Memory, image: Image)
    requires AvoidsRegisters(image) && !ReadyToStart(m, image)
    requires AllPossible(RefusedLoad(image) + RefusedScratch(image) + BOTH_SENT)
    ensures !StartsReady(m, RefusedLoad(image) + RefusedScratch(image) + BOTH_SENT, image)
  {
    var a, b := RefusedLoad(image), RefusedScratch(image);
    var ws := a + b + BOTH_SENT;
    var n := |ws| - 1;
    StartTouchesCommand();
    assert forall k :: 0 <= k < |a| ==> a[k].stored == 0;
    assert forall k :: 0 <= k < |b| ==> b[k].stored == 0;
    hide RefusedLoad, RefusedScratch, ReadyToStart, Replay, AvoidsRegisters, Touches;
    assert ws[n] == Sent(START_PLAN[1]);
    assert ws[..n] == a + b + [Sent(START_PLAN[0])];
    if ReadyToStart(Replay(m, ws[..n]), image) {
      OnlyControlChanged(m, image, ws[..n]);
    }
  }

  lemma StartTouchesCommand()
    ensures Touches(START_PLAN[1], RP1_BOOT_COMMAND)
  { }

  // What a run makes ready without writing anything but the control register was ready before.
  lemma OnlyControlChanged(m: Memory, image: Image, ws: seq<Write>)
    requires AvoidsRegisters(image) && AllPossible(ws) && ReadyToStart(Replay(m, ws), image)
    requires forall k :: 0 <= k < |ws| ==> ws[k].stored == 0 || ws[k].packet == START_PLAN[0]
    ensures ReadyToStart(m, image)
  {
    hide ToLe, MaskedEntry, Replay;
    forall x: int | !Inside(x, RP1_BOOT_CTRL_A, 4)
      ensures (x in Replay(m, ws) <==> x in m) && (x in m ==> Replay(m, ws)[x] == m[x])
    {
      RegistersOnly(m, ws, x);
    }
    hide AllPossible;
    assert forall x :: Inside(x, image.loadAddr, |image.payload|) ==> !Inside(x, RP1_BOOT_CTRL_A, 4);
  }

  lemma {:induction false} RegistersOnly(m: Memory, ws: seq<Write>, x: int)
    requires AllPossible(ws)
    requires forall k :: 0 <= k < |ws| ==> ws[k].stored == 0 || !Touches(ws[k].packet, x)
    ensures x in Replay(m, ws) <==> x in m
    ensures x in m ==> Replay(m, ws)[x] == m[x]
    decreases |ws|
  {
    if ws != [] {
      var k := |ws| - 1;
      RegistersOnly(m, ws[..k], x);
      StoreLookup(Replay(m, ws[..k]), ws[k].packet.addr, ws[k].packet.data[..ws[k].stored]);
      hide Store;
    }
  }

  // ---- Writing what is already there ----

  // The packet has nothing but the right bytes for payload and scratch.
  ghost predicate Agrees(image: Image, p: Packet) {
    forall x :: Inside(x, p.addr, |p.data|) ==>
      && (Inside(x, image.loadAddr, |image.payload|) ==> p.data[x - p.addr] == image.payload[x - image.loadAddr])
      && (Inside(x, RP1_SCRATCH_MAGIC, 4) ==> p.data[x - p.addr] == ToLe(RP1_BOOT_MAGIC)[x - RP1_SCRATCH_MAGIC])
      && (Inside(x, RP1_SCRATCH_ENTRY, 4) ==> p.data[x - p.addr] == ToLe(MaskedEntry(image.entry))[x - RP1_SCRATCH_ENTRY])
      && (Inside(x, RP1_SCRATCH_STACK, 4) ==> p.data[x - p.addr] == ToLe(image.stack)[x - RP1_SCRATCH_STACK])
  }

  lemma {:induction false} ChunkBytes(addr: nat, payload: seq<bv8>, k: nat)
    requires k < |Chunks(addr, payload)|
    ensures var p := Chunks(addr, payload)[k];
            forall x :: Inside(x, p.addr, |p.data|) ==>
              Inside(x, addr, |payload|) && p.data[x - p.addr] == payload[x - addr]
    decreases |payload|
  {
    var n := if |payload| < RP1_CHUNK_SIZE then |payload| else RP1_CHUNK_SIZE;
    if k > 0 {
      ChunkBytes(addr + n, payload[n..], k - 1);
      var p := Chunks(addr, payload)[k];
      assert p == Chunks(addr + n, payload[n..])[k - 1];
      forall x | Inside(x, p.addr, |p.data|)
        ensures Inside(x, addr, |payload|) && p.data[x - p.addr] == payload[x - addr]
      {
        assert p.data[x - p.addr] == payload[n..][x - (addr + n)];
      }
    }
  }

  lemma PlannedAgrees(image: Image, p: Packet)
    requires AvoidsRegisters(image) && p in FullPlan(image)
    ensures Agrees(image, p)
  {
    hide ToLe, MaskedEntry, Chunks;
    if p in LoadPlan(image) {
      var k :| 0 <= k < |LoadPlan(image)| && LoadPlan(image)[k] == p;
      ChunkBytes(image.loadAddr, image.payload, k);
      forall x | Inside(x, p.addr, |p.data|) ensures !IsRegister(x) { }
    } else {
      assert p in ScratchPlan(image.entry, image.stack) + START_PLAN;
      forall x | Inside(x, p.addr, |p.data|) ensures IsRegister(x) { }
    }
  }

  lemma EffectKeepsReady(m: Memory, image: Image, w: Write)
    requires ReadyToStart(m, image) && Possible(w) && Agrees(image, w.packet)
    ensures ReadyToStart(Effect(m, w), image)
  {
    hide ToLe, MaskedEntry, Store;
    StoreLookup(m, w.packet.addr, w.packet.data[..w.stored]);
  }

  lemma {:induction false} PlannedKeepsReady(m: Memory, image: Image, ws: seq<Write>)
    requires AvoidsRegisters(image) && ReadyToStart(m, image) && AllPossible(ws)
    requires forall k :: 0 <= k < |ws| ==> ws[k].packet in FullPlan(image)
    ensures ReadyToStart(Replay(m, ws), image)
    decreases |ws|
  {
    hide ReadyToStart, FullPlan, Effect, Agrees;
    if ws != [] {
      var k := |ws| - 1;
      PlannedKeepsReady(m, image, ws[..k]);
      PlannedAgrees(image, ws[k].packet);
      EffectKeepsReady(Replay(m, ws[..k]), image, ws[k]);
    }
  }

  lemma StubRunIsOfPlan(image: Image, a: seq<Write>, b: seq<Write>, c: seq<Write>, k: nat)
    requires StubRun(image, true, a, b, c) && k < |a + b + c|
    ensures (a + b + c)[k].packet in FullPlan(image)
  {
    hide LoadPlan, ScratchPlan;
    var w := (a + b + c)[k];
    assert w in a || w in b || w in c;
  }

  lemma ReadyStaysReady(m: Memory, image: Image, a: seq<Write>, b: seq<Write>, c: seq<Write>)
    requires AvoidsRegisters(image) && ReadyToStart(m, image)
    requires StubRun(image, true, a, b, c) && AllPossible(a + b + c)
    ensures StartsReady(m, a + b + c, image)
  {
    hide ReadyToStart, StubRun, FullPlan, Replay;
    var ws := a + b + c;
    forall j | 0 <= j < |ws| && Touches(ws[j].packet, RP1_BOOT_COMMAND) ensures ReadyToStart(Replay(m, ws[..j]), image) {
      forall k | 0 <= k < j ensures ws[k].packet in FullPlan(image) {
        StubRunIsOfPlan(image, a, b, c, k);
      }
      PlannedKeepsReady(m, image, ws[..j]);
    }
  }

  // Main result: over the debug-stub path the start command is safe from failures if and only if the
  // build stops at them, or the target holds the image and the scratch words already.
  lemma StubPathSafeIff(m: Memory, image: Image, keepGoing: bool)
    requires AvoidsRegisters(image)
    ensures (forall a, b, c :: StubRun(image, keepGoing, a, b, c) && AllPossible(a + b + c)
              ==> StartsReady(m, a + b + c, image))
       <==> !keepGoing || ReadyToStart(m, image)
  {
    hide ReadyToStart, StartsReady, AllPossible, AvoidsRegisters;
    if keepGoing && !ReadyToStart(m, image) {
      CarelessIsStubRun(image);
      CarelessRun(m, image);
    } else {
      forall a, b, c | StubRun(image, keepGoing, a, b, c) && AllPossible(a + b + c)
        ensures StartsReady(m, a + b + c, image)
      {
        if keepGoing {
          ReadyStaysReady(m, image, a, b, c);
        } else {
          StubRunIsPlanned(image, a, b, c);
          LoadBeforeStart(m, image, a + b + c);
        }
      }
    }
  }

  // A part of the path that is taken, or passed over.
  ghost predicate Part(taken: bool, m: Memory, ws: seq<Write>, m': Memory, ws': seq<Write>,
                       r: Result<(), BootError>, sent: seq<Write>, plan: seq<Packet>)
  {
    if taken then Did(m, ws, m', ws', r, sent, plan) else r.Err? && sent == [] && m' == m && ws' == ws
  }

  lemma PartMeans(taken: bool, m: Memory, ws: seq<Write>, m': Memory, ws': seq<Write>,
                  r: Result<(), BootError>, sent: seq<Write>, plan: seq<Packet>)
    requires Part(taken, m, ws, m', ws', r, sent, plan) && plan != []
    ensures ws' == ws + sent && AllPossible(sent) && m' == Replay(m, sent)
    ensures Follows(sent, plan) && (Completes(sent, plan) <==> r.Ok?)
    ensures !taken ==> sent == []
    ensures sent == [] ==> !Completes(sent, plan)
  { }

  lemma LoadMeans(m: Memory, ws: seq<Write>, m': Memory, ws': seq<Write>,
                  r: Result<(), BootError>, sent: seq<Write>, plan: seq<Packet>)
    requires Did(m, ws, m', ws', r, sent, plan)
    ensures ws' == ws + sent && AllPossible(sent) && m' == Replay(m, sent)
    ensures Follows(sent, plan) && (Completes(sent, plan) <==> r.Ok?)
  { }

  // What the three parts come to.
  ghost predicate StubDone(image: Image, keepGoing: bool, m: Memory, ws: seq<Write>, m': Memory, ws': seq<Write>,
                           a: seq<Write>, b: seq<Write>, c: seq<Write>)
  {
    && StubRun(image, keepGoing, a, b, c) && AllPossible(a + b + c)
    && ws' == ws + (a + b + c) && m' == Replay(m, a + b + c)
  }

  lemma PartsMakeStubRun(image: Image, keepGoing: bool, a: seq<Write>, b: seq<Write>, c: seq<Write>,
                         m0: Memory, w0: seq<Write>, m1: Memory, w1: seq<Write>,
                         m2: Memory, w2: seq<Write>, m3: Memory, w3: seq<Write>,
                         ra: Result<(), BootError>, rb: Result<(), BootError>, rc: Result<(), BootError>)
    requires Did(m0, w0, m1, w1, ra, a, LoadPlan(image))
    requires Part(ra.Ok? || keepGoing, m1, w1, m2, w2, rb, b, ScratchPlan(image.entry, image.stack))
    requires Part(rb.Ok? || keepGoing, m2, w2, m3, w3, rc, c, START_PLAN)
    requires !keepGoing && ra.Err? ==> rb.Err?
    ensures StubDone(image, keepGoing, m0, w0, m3, w3, a, b, c)
    ensures Completes(c, START_PLAN) <==> rc.Ok?
  {
    PlansAreNotEmpty(image);
    hide LoadPlan, ScratchPlan, START_PLAN, Part, Did, StubRun, AllPossible, Replay, Follows, Completes;
    LoadMeans(m0, w0, m1, w1, ra, a, LoadPlan(image));
    PartMeans(ra.Ok? || keepGoing, m1, w1, m2, w2, rb, b, ScratchPlan(image.entry, image.stack));
    PartMeans(rb.Ok? || keepGoing, m2, w2, m3, w3, rc, c, START_PLAN);
    StubRunOf(image, keepGoing, a, b, c);
    MemoryOf(m0, w0, a, b, c);
  }

  lemma PlansAreNotEmpty(image: Image)
    ensures ScratchPlan(image.entry, image.stack) != [] && START_PLAN != []
  { }

  lemma StubRunOf(image: Image, keepGoing: bool, a: seq<Write>, b: seq<Write>, c: seq<Write>)
    requires var load, scratch := LoadPlan(image), ScratchPlan(image.entry, image.stack);
             && Follows(a, load) && Follows(b, scratch) && Follows(c, START_PLAN)
             && (keepGoing || Completes(a, load) || b == [])
             && (keepGoing || Completes(b, scratch) || c == [])
             && (b == [] ==> !Completes(b, scratch))
    ensures StubRun(image, keepGoing, a, b, c)
  {
    hide LoadPlan, ScratchPlan, Follows, Completes;
  }

  lemma MemoryOf(m: Memory, ws: seq<Write>, a: seq<Write>, b: seq<Write>, c: seq<Write>)
    requires AllPossible(a) && AllPossible(b) && AllPossible(c)
    ensures AllPossible(a + b + c) && Replay(m, a + b + c) == Replay(Replay(Replay(m, a), b), c)
    ensures ws + a + b + c == ws + (a + b + c)
  {
    hide Replay, AllPossible;
    ReplayConcat(m, a, b);
    ReplayConcat(m, a + b, c);
    Associate(ws, a, b, c);
  }

  lemma Associate(ws: seq<Write>, a: seq<Write>, b: seq<Write>, c: seq<Write>)
    ensures ws + a + b + c == ws + (a + b + c)
  { }

  // The debug-stub path: each part in turn, a failure ending it unless the build goes on.
  method StartWithDebugStub(boot: Rp1Bootstrap, image: Image, keepGoing: bool)
    returns (r: Result<(), BootError>, ghost a: seq<Write>, ghost b: seq<Write>, ghost c: seq<Write>)
    requires |image.payload| <= ADDRESS_LIMIT
    modifies boot
    ensures StubDone(image, keepGoing, old(boot.memory), old(boot.writes), boot.memory, boot.writes, a, b, c)
    ensures r.Ok? <==> keepGoing || Completes(c, START_PLAN)
  {
    hide LoadPlan, ScratchPlan, START_PLAN, Did, StubDone, Completes;
    ghost var m0, w0 := boot.memory, boot.writes;
    ghost var rb: Result<(), BootError>, rc: Result<(), BootError> := Err(I2cWrite), Err(I2cWrite);
    b, c := [], [];
    r, a := boot.LoadImage(image);
    ghost var ra, m1, w1 := r, boot.memory, boot.writes;
    if r.Ok? || keepGoing {
      r, b := boot.ProgramScratch(image.entry, image.stack);
      rb := r;
    }
    ghost var m2, w2 := boot.memory, boot.writes;
    if r.Ok? || keepGoing {
      r, c := boot.Start();
      rc := r;
    }
    PartsMakeStubRun(image, keepGoing, a, b, c, m0, w0, m1, w1, m2, w2, boot.memory, boot.writes, ra, rb, rc);
    if keepGoing {
      r := Ok(());
    }
  }
}
