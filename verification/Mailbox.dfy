/**
 The sequence/acknowledge command mailbox between the boot host and the RP1 debug firmware.

 The host's transport moves every 32-bit field byte by byte, lowest byte first, and each byte is one event;
 a run is any interleaving of host and device events. The device is the assumed partner: when SEQ differs
 from ACK it takes the number, reads the command and its arguments in any order, fills the data area, stores
 STATUS and then ACK, each as a whole word. Any host access may fail, and a failing write may have stored its
 byte.

 There are two kinds of host: the smoke test takes a number and then writes arguments, command and number; the
 GDB server writes arguments, if any, before it takes a number for the command.
 */
module Mailbox {
  import opened Prelude

  const MAX_POLLS: nat := 100_000

  // ---- Words as the transport moves them ----

  datatype Word = Word(b0: byte, b1: byte, b2: byte, b3: byte)

  const ZERO: Word := Word(0, 0, 0, 0)

  type Index = k: nat | k < 4

  function Value(w: Word): nat {
    w.b0 + 0x100 * w.b1 + 0x1_0000 * w.b2 + 0x100_0000 * w.b3
  }

  function ByteAt(w: Word, k: Index): byte {
    if k == 0 then w.b0 else if k == 1 then w.b1 else if k == 2 then w.b2 else w.b3
  }

  function Put(w: Word, k: Index, b: byte): Word {
    if k == 0 then w.(b0 := b) else if k == 1 then w.(b1 := b) else if k == 2 then w.(b2 := b) else w.(b3 := b)
  }

  // wrapping_add(1), carry by carry.
  function Next(w: Word): Word {
    if w.b0 < 255 then w.(b0 := w.b0 + 1)
    else if w.b1 < 255 then Word(0, w.b1 + 1, w.b2, w.b3)
    else if w.b2 < 255 then Word(0, 0, w.b2 + 1, w.b3)
    else if w.b3 < 255 then Word(0, 0, 0, w.b3 + 1)
    else ZERO
  }

  lemma NextValue(w: Word)
    ensures Value(Next(w)) == if Value(w) + 1 < TWO_32 then Value(w) + 1 else 0
  { }

  lemma ValueInjective(v: Word, w: Word)
    requires Value(v) == Value(w)
    ensures v == w
  {
    SplitByte(v.b0, v.b1 + 0x100 * v.b2 + 0x1_0000 * v.b3, w.b0, w.b1 + 0x100 * w.b2 + 0x1_0000 * w.b3);
    SplitByte(v.b1, v.b2 + 0x100 * v.b3, w.b1, w.b2 + 0x100 * w.b3);
    SplitByte(v.b2, v.b3, w.b2, w.b3);
  }

  lemma SplitByte(a: byte, x: nat, b: byte, y: nat)
    requires a + 0x100 * x == b + 0x100 * y
    ensures a == b && x == y
  { }

  // The first k bytes of two words agree.
  predicate Agree(v: Word, w: Word, k: nat) {
    && (k > 0 ==> v.b0 == w.b0) && (k > 1 ==> v.b1 == w.b1)
    && (k > 2 ==> v.b2 == w.b2) && (k > 3 ==> v.b3 == w.b3)
  }

  // The bytes from the k-th on agree.
  predicate AgreeFrom(v: Word, w: Word, k: nat) {
    && (k <= 0 ==> v.b0 == w.b0) && (k <= 1 ==> v.b1 == w.b1)
    && (k <= 2 ==> v.b2 == w.b2) && (k <= 3 ==> v.b3 == w.b3)
  }

  // ---- Host, device and mailbox ----

  datatype HostError = Timeout | Bus

  datatype Call = Call(command: Word, arg0: Word, arg1: Word)

  // A command with its arguments, or one that leaves the argument fields as they are.
  datatype Request = WithArgs(call: Call) | Bare(command: Word)

  datatype Outcome =
    | NoCallYet
    | Prepared
    | Returned(status: Word)
    | WithData(status: Word, bytes: seq<byte>)
    | Failed(error: HostError)

  datatype Slot = Arg0Slot | Arg1Slot | CommandSlot | SeqSlot

  // Where the host stands: about to write byte `done` of an argument before the call or of a field within it,
  // to read byte `done` of ACK or STATUS after the bytes already in `seen`, or to read the next byte of data.
  datatype Host =
    | Ready(outcome: Outcome)
    | Preparing(slot: Slot, value: Word, done: Index)
    | Writing(slot: Slot, done: Index)
    | Polling(polls: nat, seen: Word, done: Index)
    | ReadingStatus(seen: Word, done: Index)
    | ReadingData(status: Word, bytes: seq<byte>, want: nat)

  datatype Device =
    | Idle
    | Busy(number: Word, command: Option<Word>, arg0: Option<Word>, arg1: Option<Word>)
    | Answered(number: Word)

  // One execution by the device: the number it ran under, what it ran, and the status and data it left.
  datatype Execution = Execution(number: Word, call: Call, status: Word, data: seq<byte>)

  datatype State = State(
    seqWord: Word, ackWord: Word, command: Word, arg0: Word, arg1: Word, status: Word,
    data: seq<byte>,     // the data area
    counter: Word,       // the host's own sequence counter
    call: Call,          // the call the host is making, or made last
    host: Host,
    device: Device,
    log: seq<Execution>,
    written: seq<Word>)  // every value SEQ has been changed to, torn ones included

  datatype Field = CommandField | Arg0Field | Arg1Field

  datatype Event =
    | Prepare(slot: Slot, value: Word)
    | Issue(request: Request)
    | BeginRead(want: nat)           // the host goes on to read that many bytes of data
    | Access                         // the host's next byte access succeeds
    | AccessFails(reached: bool)     // it fails; a written byte may have been stored all the same
    | Notice | Fetch(field: Field) | Produce(data: seq<byte>) | Answer(status: Word) | Acknowledge

  predicate IsHostEvent(e: Event) {
    e.Prepare? || e.Issue? || e.BeginRead? || e.Access? || e.AccessFails?
  }

  // ---- The host ----

  function NextNumber(s: State): Word {
    Next(s.counter)
  }

  // What a request asks for, given the argument fields as they stand.
  function Asked(s: State, request: Request): Call {
    match request
    case WithArgs(call) => call
    case Bare(command) => Call(command, s.arg0, s.arg1)
  }

  // The state in which a call begins.
  function Issued(s: State, request: Request): State {
    s.(counter := NextNumber(s), call := Asked(s, request),
       host := Writing(if request.WithArgs? then Arg0Slot else CommandSlot, 0))
  }

  // One byte of an argument, stored before a call.
  function Placing(s: State, slot: Slot, value: Word, k: Index): State {
    if slot == Arg0Slot then s.(arg0 := Put(s.arg0, k, ByteAt(value, k)))
    else s.(arg1 := Put(s.arg1, k, ByteAt(value, k)))
  }

  // Byte k of the data area; it ends where the device's data end.
  function DataAt(data: seq<byte>, k: nat): byte {
    if k < |data| then data[k] else 0
  }

  // One byte of a field, stored.
  function Stored(s: State, slot: Slot, k: Index): State {
    match slot
    case Arg0Slot => s.(arg0 := Put(s.arg0, k, ByteAt(s.call.arg0, k)))
    case Arg1Slot => s.(arg1 := Put(s.arg1, k, ByteAt(s.call.arg1, k)))
    case CommandSlot => s.(command := Put(s.command, k, ByteAt(s.call.command, k)))
    case SeqSlot => WithSeq(s, Put(s.seqWord, k, ByteAt(s.counter, k)))
  }

  function WithSeq(s: State, w: Word): State {
    s.(seqWord := w, written := if w == s.seqWord then s.written else s.written + [w])
  }

  function AfterSlot(slot: Slot): Host {
    match slot
    case Arg0Slot => Writing(Arg1Slot, 0)
    case Arg1Slot => Writing(CommandSlot, 0)
    case CommandSlot => Writing(SeqSlot, 0)
    case SeqSlot => Polling(0, ZERO, 0)
  }

  function AfterWrite(slot: Slot, k: Index): Host {
    if k < 3 then Writing(slot, k + 1) else AfterSlot(slot)
  }

  // A whole ACK has been read.
  function AfterAck(ack: Word, number: Word, polls: nat): Host {
    if ack == number then ReadingStatus(ZERO, 0)
    else if polls + 1 >= MAX_POLLS then Ready(Failed(Timeout))
    else Polling(polls + 1, ZERO, 0)
  }

  function Accessed(s: State): State
    requires !s.host.Ready?
  {
    match s.host
    case Preparing(slot, value, k) =>
      Placing(s, slot, value, k).(host := if k < 3 then Preparing(slot, value, k + 1) else Ready(Prepared))
    case Writing(slot, k) => Stored(s, slot, k).(host := AfterWrite(slot, k))
    case Polling(polls, seen, k) =>
      var got := Put(seen, k, ByteAt(s.ackWord, k));
      s.(host := if k < 3 then Polling(polls, got, k + 1) else AfterAck(got, s.counter, polls))
    case ReadingStatus(seen, k) =>
      var got := Put(seen, k, ByteAt(s.status, k));
      s.(host := if k < 3 then ReadingStatus(got, k + 1) else Ready(Returned(got)))
    case ReadingData(status, bytes, want) => s.(host := AfterData(status, bytes + [DataAt(s.data, |bytes|)], want))
  }

  function AfterData(status: Word, bytes: seq<byte>, want: nat): Host {
    if |bytes| < want then ReadingData(status, bytes, want) else Ready(WithData(status, bytes))
  }

  // What a failing access leaves behind.
  function Reached(s: State): State {
    match s.host
    case Preparing(slot, value, k) => Placing(s, slot, value, k)
    case Writing(slot, k) => Stored(s, slot, k)
    case _ => s
  }

  function HostStep(s: State, e: Event): Option<State>
    requires IsHostEvent(e)
  {
    match e
    case Prepare(slot, value) =>
      if s.host.Ready? && slot in {Arg0Slot, Arg1Slot} then Some(s.(host := Preparing(slot, value, 0))) else None
    case Issue(request) =>
      if s.host.Ready? then Some(Issued(s, request)) else None
    case BeginRead(want) =>
      if s.host.Ready? && s.host.outcome.Returned? then
        Some(s.(host := AfterData(s.host.outcome.status, [], want)))
      else None
    case Access =>
      if s.host.Ready? then None else Some(Accessed(s))
    case AccessFails(reached) =>
      if s.host.Ready? then None
      else
        Some((if reached then Reached(s) else s).(host := Ready(Failed(Bus))))
  }

  // ---- The device ----

  function Fetched(s: State, field: Field): Device
    requires s.device.Busy?
  {
    match field
    case CommandField => s.device.(command := Some(s.command))
    case Arg0Field => s.device.(arg0 := Some(s.arg0))
    case Arg1Field => s.device.(arg1 := Some(s.arg1))
  }

  predicate AllFetched(d: Device) {
    d.Busy? && d.command.Some? && d.arg0.Some? && d.arg1.Some?
  }

  function Fetches(d: Device): Call
    requires AllFetched(d)
  {
    Call(d.command.value, d.arg0.value, d.arg1.value)
  }

  function DeviceStep(s: State, e: Event): Option<State>
    requires !IsHostEvent(e)
  {
    match e
    case Notice =>
      if s.device.Idle? && s.seqWord != s.ackWord then Some(s.(device := Busy(s.seqWord, None, None, None))) else None
    case Fetch(field) =>
      if s.device.Busy? then Some(s.(device := Fetched(s, field))) else None
    case Produce(data) =>
      if s.device.Busy? then Some(s.(data := data)) else None
    case Answer(status) =>
      if !AllFetched(s.device) then None
      else
        var run := Execution(s.device.number, Fetches(s.device), status, s.data);
        Some(s.(status := status, device := Answered(s.device.number), log := s.log + [run]))
    case Acknowledge =>
      if s.device.Answered? then Some(s.(ackWord := s.device.number, device := Idle)) else None
  }

  function Apply(s: State, e: Event): Option<State> {
    if IsHostEvent(e) then HostStep(s, e) else DeviceStep(s, e)
  }

  function Exec(s: State, es: seq<Event>): Option<State>
    decreases |es|
  {
    if es == [] then Some(s)
    else match Exec(s, es[..|es| - 1])
      case None => None
      case Some(m) => Apply(m, es[|es| - 1])
  }

  // The rest of one call: nothing new is prepared or issued.
  ghost predicate WithinCall(es: seq<Event>) {
    forall k :: 0 <= k < |es| ==> !es[k].Issue? && !es[k].Prepare?
  }

  lemma WithinBoth(a: seq<Event>, b: seq<Event>)
    requires WithinCall(a) && WithinCall(b)
    ensures WithinCall(a + b)
  { }

  // The number that ACK holds once the device is done with what it has taken.
  function Held(s: State): Word {
    if s.device.Idle? then s.ackWord else s.device.number
  }

  // The number that neither the mailbox nor the device holds.
  predicate Fresh(s: State, n: Word) {
    n != s.ackWord && n != s.seqWord && n != Held(s)
  }

  // ---- Putting runs together ----

  lemma ExecOne(s: State, e: Event)
    ensures Exec(s, [e]) == Apply(s, e)
  {
    assert [e][..0] == [];
    assert Exec(s, []) == Some(s);
  }

  lemma {:induction false} ExecConcat(s: State, a: seq<Event>, b: seq<Event>)
    requires Exec(s, a).Some?
    ensures Exec(s, a + b) == Exec(Exec(s, a).value, b)
    decreases |b|
  {
    hide Apply;
    if b == [] {
      assert a + b == a;
    } else {
      assert (a + b)[..|a + b| - 1] == a + b[..|b| - 1];
      ExecConcat(s, a, b[..|b| - 1]);
    }
  }

  lemma ExecSnoc(s: State, es: seq<Event>, e: Event)
    requires Exec(s, es).Some?
    ensures Exec(s, es + [e]) == Apply(Exec(s, es).value, e)
  {
    hide Apply, Exec;
    ExecConcat(s, es, [e]);
    ExecOne(Exec(s, es).value, e);
  }

  const FOUR: seq<Event> := [Access] + [Access] + [Access] + [Access]

  // Four accesses in a row, with nothing in between.
  lemma FourAccesses(s: State)
    requires (s.host.Writing? || s.host.Polling? || s.host.ReadingStatus?) && s.host.done == 0
    ensures !Accessed(s).host.Ready? && !Accessed(Accessed(s)).host.Ready? && !Accessed(Accessed(Accessed(s))).host.Ready?
    ensures Exec(s, FOUR) == Some(Accessed(Accessed(Accessed(Accessed(s)))))
  {
    hide Exec, Stored, AfterAck, AfterSlot;
    ExecOne(s, Access);
    ExecSnoc(s, [Access], Access);
    ExecSnoc(s, [Access] + [Access], Access);
    ExecSnoc(s, [Access] + [Access] + [Access], Access);
  }

  // They write a whole field ...
  lemma SlotRun(s: State, slot: Slot)
    requires s.host == Writing(slot, 0)
    ensures Exec(s, FOUR).Some?
    ensures var m := Exec(s, FOUR).value;
            m == (match slot
                  case Arg0Slot => s.(arg0 := s.call.arg0)
                  case Arg1Slot => s.(arg1 := s.call.arg1)
                  case CommandSlot => s.(command := s.call.command)
                  case SeqSlot => s.(seqWord := s.counter)).(host := AfterSlot(slot), written := m.written)
  {
    hide Exec;
    FourAccesses(s);
  }

  // ... or read one.
  lemma AckRun(s: State)
    requires s.host.Polling? && s.host.done == 0
    ensures Exec(s, FOUR) == Some(s.(host := AfterAck(s.ackWord, s.counter, s.host.polls)))
  {
    hide Exec, AfterAck;
    FourAccesses(s);
  }

  lemma StatusRun(s: State)
    requires s.host.ReadingStatus? && s.host.done == 0
    ensures Exec(s, FOUR) == Some(s.(host := Ready(Returned(s.status))))
  {
    hide Exec;
    FourAccesses(s);
  }

  // A call has begun; what it does not write of its arguments is in place.
  predicate Begun(s: State) {
    s.host == Writing(Arg0Slot, 0) || (s.host == Writing(CommandSlot, 0) && s.arg0 == s.call.arg0 && s.arg1 == s.call.arg1)
  }

  lemma IssuedIsBegun(s: State, request: Request)
    ensures Begun(Issued(s, request))
  { }

  // The fields that come before SEQ.
  function FieldsFrom(h: Host): seq<Event> {
    if h == Writing(CommandSlot, 0) then FOUR else FOUR + FOUR + FOUR
  }

  lemma FieldsRun(s: State)
    requires Begun(s)
    ensures Exec(s, FieldsFrom(s.host)).Some?
    ensures var m := Exec(s, FieldsFrom(s.host)).value;
            m == s.(arg0 := s.call.arg0, arg1 := s.call.arg1, command := s.call.command,
                    host := Writing(SeqSlot, 0), written := m.written)
  {
    hide Exec;
    if s.host == Writing(CommandSlot, 0) {
      SlotRun(s, CommandSlot);
    } else {
      SlotRun(s, Arg0Slot);
      SlotRun(Exec(s, FOUR).value, Arg1Slot);
      ExecConcat(s, FOUR, FOUR);
      SlotRun(Exec(s, FOUR + FOUR).value, CommandSlot);
      ExecConcat(s, FOUR + FOUR, FOUR);
    }
  }

  function WritesFrom(h: Host): seq<Event> {
    FieldsFrom(h) + FOUR
  }

  lemma WritesRun(s: State)
    requires Begun(s)
    ensures Exec(s, WritesFrom(s.host)).Some?
    ensures var m := Exec(s, WritesFrom(s.host)).value;
            m == s.(arg0 := s.call.arg0, arg1 := s.call.arg1, command := s.call.command, seqWord := s.counter,
                    host := Polling(0, ZERO, 0), written := m.written)
  {
    hide Exec, FieldsFrom;
    FieldsRun(s);
    SlotRun(Exec(s, FieldsFrom(s.host)).value, SeqSlot);
    ExecConcat(s, FieldsFrom(s.host), FOUR);
  }

  lemma FourIsWithin()
    ensures WithinCall(FOUR)
  { }

  lemma WritesAreWithin(h: Host)
    ensures WithinCall(FieldsFrom(h)) && WithinCall(WritesFrom(h)) && WithinCall(FOUR)
  {
    FourIsWithin();
    hide FOUR, WithinCall;
    WithinBoth(FOUR, FOUR);
    WithinBoth(FOUR + FOUR, FOUR);
    WithinBoth(FieldsFrom(h), FOUR);
  }

  const FETCH_AND_RUN: seq<Event> := [Fetch(CommandField)] + [Fetch(Arg0Field)] + [Fetch(Arg1Field)] + [Answer(ZERO)]

  lemma BusyDeviceRuns(s: State)
    requires s.device.Busy?
    ensures Exec(s, FETCH_AND_RUN)
         == Some(s.(status := ZERO, device := Answered(s.device.number),
                    log := s.log + [Execution(s.device.number, Call(s.command, s.arg0, s.arg1), ZERO, s.data)]))
  {
    hide Exec;
    ExecOne(s, Fetch(CommandField));
    ExecSnoc(s, [Fetch(CommandField)], Fetch(Arg0Field));
    ExecSnoc(s, [Fetch(CommandField)] + [Fetch(Arg0Field)], Fetch(Arg1Field));
    ExecSnoc(s, [Fetch(CommandField)] + [Fetch(Arg0Field)] + [Fetch(Arg1Field)], Answer(ZERO));
  }

  const SERVE: seq<Event> := [Notice] + FETCH_AND_RUN

  // An idle device takes a pending number and runs the fields as they are.
  lemma PendingRuns(s: State)
    requires s.device.Idle? && s.seqWord != s.ackWord
    ensures Exec(s, SERVE)
         == Some(s.(status := ZERO, device := Answered(s.seqWord),
                    log := s.log + [Execution(s.seqWord, Call(s.command, s.arg0, s.arg1), ZERO, s.data)]))
  {
    hide Exec;
    ExecOne(s, Notice);
    BusyDeviceRuns(Apply(s, Notice).value);
    ExecConcat(s, [Notice], FETCH_AND_RUN);
  }

  const COMPLETE: seq<Event> := SERVE + [Acknowledge]

  lemma PendingCompletes(s: State)
    requires s.device.Idle? && s.seqWord != s.ackWord
    ensures Exec(s, COMPLETE)
         == Some(s.(status := ZERO, ackWord := s.seqWord,
                    log := s.log + [Execution(s.seqWord, Call(s.command, s.arg0, s.arg1), ZERO, s.data)]))
  {
    hide Exec;
    PendingRuns(s);
    ExecSnoc(s, SERVE, Acknowledge);
  }
}
