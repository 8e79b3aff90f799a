/**
 * Commands as the two hosts issue them: the smoke test's, with arguments, and
 * the debug server's, whose arguments go out before the number is taken. Then a
 * bounded poll of the acknowledgement, and the data, every word byte by byte
 * (rp1_debug_stub.rs:535-553, 941-989, 1027-1052, 1162-1194). Every run of them is a run of
 * the interleaving model, so what that model guarantees holds for the answers.
 */
module MailboxCommand {
  import opened Prelude
  import opened Mailbox
  import opened MailboxCall
  import opened MailboxOutcome

  // How an access to a byte ends; a failed store may have reached the mailbox.
  datatype Fault = Works | Fails(reached: bool)

  // The word that goes into a field.
  function SlotValue(s: State, slot: Slot): Word {
    match slot
    case Arg0Slot => s.call.arg0
    case Arg1Slot => s.call.arg1
    case CommandSlot => s.call.command
    case SeqSlot => s.counter
  }

  predicate SameCall(s: State, t: State) {
    s.counter == t.counter && s.call == t.call
  }

  // What the device does not touch.
  predicate SameHostSide(s: State, t: State) {
    SameCall(s, t) && s.host == t.host && s.arg0 == t.arg0 && s.arg1 == t.arg1
  }

  // The device's events that are possible, one after another.
  function Possible(s: State, es: seq<Event>): (State, seq<Event>)
    decreases |es|
  {
    if es == [] then (s, []) else
    var (m, done) := Possible(s, es[..|es| - 1]);
    var e := es[|es| - 1];
    if IsHostEvent(e) then (m, done) else
    match DeviceStep(m, e)
    case None => (m, done)
    case Some(t) => (t, done + [e])
  }

  lemma {:induction false} PossibleRuns(s: State, es: seq<Event>)
    ensures var (t, done) := Possible(s, es);
            Exec(s, done) == Some(t) && SameHostSide(s, t) && WithinCall(done) && !Failing(done)
    decreases |es|
  {
    if es == [] {
      assert Exec(s, []) == Some(s);
    } else {
      var e := es[|es| - 1];
      var (m, done) := Possible(s, es[..|es| - 1]);
      PossibleRuns(s, es[..|es| - 1]);
      hide Exec, DeviceStep, Apply;
      if !IsHostEvent(e) && DeviceStep(m, e).Some? {
        ExecSnoc(s, done, e);
        DeviceLeavesHost(m, e);
      }
    }
  }

  lemma DeviceLeavesHost(s: State, e: Event)
    requires !IsHostEvent(e) && DeviceStep(s, e).Some?
    ensures Apply(s, e) == DeviceStep(s, e) && SameHostSide(s, DeviceStep(s, e).value)
  { }

  lemma FailingAfter(run: seq<Event>, done: seq<Event>, e: Event)
    requires !Failing(done)
    ensures Failing(run + done + [e]) <==> Failing(run) || e.AccessFails?
  {
    var all := run + done + [e];
    assert forall k :: 0 <= k < |run| ==> all[k] == run[k];
    assert all[|all| - 1] == e;
  }

  // An access takes the host one step on, or ends the command.
  lemma AccessMoves(m: State, e: Event)
    requires !m.host.Ready? && (e.Access? || e.AccessFails?)
    ensures HostStep(m, e).Some? && Apply(m, e) == HostStep(m, e) && SameCall(HostStep(m, e).value, m)
    ensures e.AccessFails? ==> HostStep(m, e).value.host == Ready(Failed(Bus))
    ensures e.Access? ==> HostStep(m, e).value == Accessed(m)
  {
    hide Put, ByteAt, DataAt, AfterSlot, AfterAck;
  }

  class Commander {
    // What the device does before each access of the host, and how that access ends.
    const schedule: nat -> seq<Event>
    const faults: nat -> Fault
    // The status that means success.
    const okStatus: Word
    var ticks: nat
    // The mailbox, the device and the host's own counter; `issued` is the state in which the current call, or
    // the argument written before it, began.
    var now: State
    ghost var issued: State
    ghost var run: seq<Event>
    // How many accesses have failed, and how many had when `run` began.
    ghost var failures: nat
    ghost var failuresBefore: nat

    ghost predicate Valid()
      reads this
    {
      && Exec(issued, run) == Some(now) && WithinCall(run)
      && failuresBefore <= failures && (Failing(run) <==> failuresBefore < failures)
    }

    constructor (now: State, schedule: nat -> seq<Event>, faults: nat -> Fault, okStatus: Word)
      ensures Valid() && this.now == now
    {
      this.schedule, this.faults, this.okStatus := schedule, faults, okStatus;
      ticks, this.now := 0, now;
      issued, run := now, [];
      failures, failuresBefore := 0, 0;
    }

    // One byte access, after whatever the device does before it.
    method AccessByte() returns (m: State, ok: bool)
      requires Valid() && !now.host.Ready?
      modifies this
      ensures Valid() && issued == old(issued) && SameCall(now, old(now)) && SameHostSide(old(now), m)
      ensures if ok then now == Accessed(m) else now.host == Ready(Failed(Bus))
      ensures failures == old(failures) + (if ok then 0 else 1) && failuresBefore == old(failuresBefore)
    {
      hide Exec, Apply, HostStep, Accessed, Failing;
      ghost var done;
      m, done := Possible(now, schedule(ticks)).0, Possible(now, schedule(ticks)).1;
      PossibleRuns(now, schedule(ticks));
      var fault := faults(ticks);
      ticks := ticks + 1;
      ok := fault == Works;
      var e := if ok then Access else AccessFails(fault.reached);
      AccessMoves(m, e);
      ExecConcat(issued, run, done);
      ExecSnoc(issued, run + done, e);
      FailingAfter(run, done, e);
      run := run + done + [e];
      failures := failures + if ok then 0 else 1;
      now := HostStep(m, e).value;
    }

    // A word goes out lowest byte first.
    method WriteU32(slot: Slot, value: Word) returns (ok: bool)
      requires Valid() && now.host == Writing(slot, 0) && value == SlotValue(now, slot)
      modifies this
      ensures Valid() && issued == old(issued) && SameCall(now, old(now))
      ensures now.host == if ok then AfterSlot(slot) else Ready(Failed(Bus))
      ensures failuresBefore == old(failuresBefore) && failures == old(failures) + (if ok then 0 else 1)
    {
      hide Exec, SlotValue, AfterSlot, Stored;
      var idx := 0;
      while idx < 4
        invariant idx <= 4 && Valid() && issued == old(issued) && SameCall(now, old(now))
        invariant failures == old(failures) && failuresBefore == old(failuresBefore)
        invariant now.host == if idx < 4 then Writing(slot, idx) else AfterSlot(slot)
      {
        var m;
        m, ok := AccessByte();
        if !ok {
          return;
        }
        idx := idx + 1;
      }
      return true;
    }

    // A word comes in lowest byte first, and may have changed meanwhile.
    method ReadAck() returns (ack: Option<Word>)
      requires Valid() && now.host.Polling? && now.host.done == 0
      modifies this
      ensures Valid() && issued == old(issued) && SameCall(now, old(now))
      ensures now.host == if ack.None? then Ready(Failed(Bus)) else AfterAck(ack.value, now.counter, old(now).host.polls)
      ensures failuresBefore == old(failuresBefore) && failures == old(failures) + (if ack.Some? then 0 else 1)
    {
      hide Exec, AfterAck, Put, ByteAt;
      var polls := now.host.polls;
      var bytes := now.host.seen;
      var idx := 0;
      while idx < 4
        invariant idx <= 4 && Valid() && issued == old(issued) && SameCall(now, old(now))
        invariant failures == old(failures) && failuresBefore == old(failuresBefore)
        invariant now.host == if idx < 4 then Polling(polls, bytes, idx) else AfterAck(bytes, now.counter, polls)
      {
        var m, ok := AccessByte();
        if !ok {
          return None;
        }
        bytes := Put(bytes, idx, ByteAt(m.ackWord, idx));
        idx := idx + 1;
      }
      return Some(bytes);
    }

    method ReadStatusWord() returns (status: Option<Word>)
      requires Valid() && now.host.ReadingStatus? && now.host.done == 0
      modifies this
      ensures Valid() && issued == old(issued) && SameCall(now, old(now))
      ensures now.host == Ready(if status.None? then Failed(Bus) else Returned(status.value))
      ensures failuresBefore == old(failuresBefore) && failures == old(failures) + (if status.Some? then 0 else 1)
    {
      hide Exec, Put, ByteAt;
      var bytes := now.host.seen;
      var idx := 0;
      while idx < 4
        invariant idx <= 4 && Valid() && issued == old(issued) && SameCall(now, old(now))
        invariant failures == old(failures) && failuresBefore == old(failuresBefore)
        invariant now.host == if idx < 4 then ReadingStatus(bytes, idx) else Ready(Returned(bytes))
      {
        var m, ok := AccessByte();
        if !ok {
          return None;
        }
        bytes := Put(bytes, idx, ByteAt(m.status, idx));
        idx := idx + 1;
      }
      return Some(bytes);
    }

    // The wrapping counter gives the command its number.
    method Begin(request: Request)
      requires Valid() && now.host.Ready?
      modifies this
      ensures Valid() && issued == now && now == Issued(old(now), request)
      ensures failures == old(failures) == failuresBefore
    {
      now := Issued(now, request);
      issued, run := now, [];
      failuresBefore := failures;
      assert Exec(issued, []) == Some(issued);
    }

    // Command and number go out, and ACK is polled for the number.
    method Submit() returns (r: Result<Word, HostError>)
      requires Valid() && now.host == Writing(CommandSlot, 0)
      modifies this
      ensures Valid() && issued == old(issued) && SameCall(now, old(now))
      ensures now.host == Ready(if r.Ok? then Returned(r.value) else Failed(r.error))
      ensures failuresBefore == old(failuresBefore) && failures == old(failures) + (if r == Err(Bus) then 1 else 0)
    {
      hide Exec, Next;
      ghost var first := now;
      var ok := WriteU32(CommandSlot, now.call.command);
      if !ok { return Err(Bus); }
      ok := WriteU32(SeqSlot, now.counter);
      if !ok { return Err(Bus); }
      var polls := 0;
      while polls < MAX_POLLS
        invariant polls <= MAX_POLLS && Valid() && issued == old(issued) && SameCall(now, first)
        invariant failures == old(failures) && failuresBefore == old(failuresBefore)
        invariant now.host == if polls < MAX_POLLS then Polling(polls, ZERO, 0) else Ready(Failed(Timeout))
      {
        var ack := ReadAck();
        if ack.None? { return Err(Bus); }
        if ack.value == now.counter {
          var status := ReadStatusWord();
          if status.None? { return Err(Bus); }
          return Ok(status.value);
        }
        polls := polls + 1;
      }
      return Err(Timeout);
    }

    // The smoke test's command. How it ends is decided by what it reads of ACK,
    // in up to 100000 polls. Whatever the device does in between and whichever
    // accesses fail, a status that comes back is that of this very call, provided
    // its number was trusted; and the counter has moved by one.
    method CommandWithArgs(command: Word, arg0: Word, arg1: Word) returns (r: Result<Word, HostError>)
      requires Valid() && now.host.Ready?
      modifies this
      ensures Valid() && now.counter == NextNumber(old(now))
      ensures now.host == Ready(if r.Ok? then Returned(r.value) else Failed(r.error))
      ensures issued == Issued(old(now), WithArgs(Call(command, arg0, arg1))) && Exec(issued, run) == Some(now)
      ensures Decided(issued, run, now.host.outcome)
      ensures r.Ok? && Trusted(old(now), NextNumber(old(now))) ==>
                RanOnce(now.log, |old(now).log|, NextNumber(old(now)), Call(command, arg0, arg1), r.value)
    {
      hide Exec, RanOnce, Trusted, Next, Decided;
      ghost var start := now;
      ghost var request := WithArgs(Call(command, arg0, arg1));
      Begin(WithArgs(Call(command, arg0, arg1)));
      var ok := WriteU32(Arg0Slot, arg0);
      if !ok {
        OutcomeIsDecided(start, request, run);
        return Err(Bus);
      }
      ok := WriteU32(Arg1Slot, arg1);
      if !ok {
        OutcomeIsDecided(start, request, run);
        return Err(Bus);
      }
      r := Submit();
      OutcomeIsDecided(start, request, run);
      if r.Ok? && Trusted(start, NextNumber(start)) {
        ReturnedAnswerIsOwn(start, request, run);
      }
    }

    // The server's command, with the arguments as they stand.
    method CommandNoPayload(command: Word) returns (r: Result<Word, HostError>, ghost start: State)
      requires Valid() && now.host.Ready?
      modifies this
      ensures Valid() && start == old(now) && issued == Issued(start, Bare(command))
      ensures now.counter == NextNumber(start) && now.call == Asked(start, Bare(command))
      ensures now.host == Ready(if r.Ok? then Returned(r.value) else Failed(r.error))
      ensures failuresBefore == old(failures) && failures == old(failures) + (if r == Err(Bus) then 1 else 0)
    {
      start := now;
      Begin(Bare(command));
      r := Submit();
    }

    // An argument goes out before the command's number is taken.
    method WriteArg(slot: Slot, value: Word) returns (ok: bool)
      requires Valid() && now.host.Ready? && slot in {Arg0Slot, Arg1Slot}
      modifies this
      ensures Valid() && now.counter == old(now).counter
      ensures now.host == Ready(if ok then Prepared else Failed(Bus))
      ensures ok && slot == Arg0Slot ==> now.arg0 == value && now.arg1 == old(now).arg1
      ensures ok && slot == Arg1Slot ==> now.arg1 == value && now.arg0 == old(now).arg0
      ensures TrustLeft(old(now), now)
      ensures failures == old(failures) + (if ok then 0 else 1)
    {
      hide Exec, TrustLeft, Put, ByteAt, Next;
      ghost var start := now;
      now := now.(host := Preparing(slot, value, 0));
      issued, run := now, [];
      failuresBefore := failures;
      assert Exec(issued, []) == Some(issued) by { ExecOfNothing(issued); }
      var idx := 0;
      ok := true;
      while idx < 4 && ok
        invariant failures == old(failures) + (if ok then 0 else 1)
        invariant idx <= 4 && Valid() && SameCall(now, start) && issued == start.(host := Preparing(slot, value, 0))
        invariant now.host == if !ok then Ready(Failed(Bus)) else if idx < 4 then Preparing(slot, value, idx) else Ready(Prepared)
        invariant ok && slot == Arg0Slot ==> Agree(now.arg0, value, idx) && now.arg1 == start.arg1
        invariant ok && slot == Arg1Slot ==> Agree(now.arg1, value, idx) && now.arg0 == start.arg0
      {
        var m;
        m, ok := AccessByte();
        PutAgrees(if slot == Arg0Slot then m.arg0 else m.arg1, value, idx);
        idx := idx + 1;
      }
      PreparingKeepsTrust(start, slot, value, run, now);
    }

    // The bytes of the data area, one by one.
    method ReadData(len: nat) returns (data: Option<seq<byte>>)
      requires Valid() && now.host.Ready? && now.host.outcome.Returned?
      modifies this
      ensures Valid() && issued == old(issued) && SameCall(now, old(now))
      ensures data.Some? ==> |data.value| == len && now.host == Ready(WithData(old(now).host.outcome.status, data.value))
      ensures failuresBefore == old(failuresBefore) && failures == old(failures) + (if data.Some? then 0 else 1)
    {
      hide Exec, DataAt;
      var status := now.host.outcome.status;
      ExecSnoc(issued, run, BeginRead(len));
      FailingAfter(run, [], BeginRead(len));
      assert run + [] + [BeginRead(len)] == run + [BeginRead(len)];
      run := run + [BeginRead(len)];
      now := now.(host := AfterData(status, [], len));
      var bytes: seq<byte> := [];
      while |bytes| < len
        invariant |bytes| <= len && Valid() && issued == old(issued) && SameCall(now, old(now))
        invariant failures == old(failures) && failuresBefore == old(failuresBefore)
        invariant now.host == AfterData(status, bytes, len)
      {
        var m, ok := AccessByte();
        if !ok {
          return None;
        }
        bytes := bytes + [DataAt(m.data, |bytes|)];
      }
      return Some(bytes);
    }

    // A debugger's read of RP1's memory: address and length, the command, the
    // data. Unless an access fails, there is an answer exactly when one of up to
    // 100000 reads of ACK gave the number and the status then read was the good
    // one. If the number was trusted when the packet came, the bytes that go back
    // to the debugger are those that this very command left.
    method HandleReadMem(readMem: Word, addr: Word, len: Word) returns (data: Option<seq<byte>>)
      requires Valid() && now.host.Ready?
      modifies this
      ensures Valid()
      ensures data.Some? ==> |data.value| == Value(len)
      ensures failures != old(failures) ==> data.None?
      ensures failures == old(failures) ==>
                && Exec(issued, run) == Some(now) && issued.counter == NextNumber(old(now))
                && ReadMemDecided(data.Some?, AckReads(issued, run), StatusReads(issued, run), issued.counter, okStatus)
      ensures data.Some? && Trusted(old(now), NextNumber(old(now))) ==>
                && RanOnce(now.log, |old(now).log|, NextNumber(old(now)), Call(readMem, addr, len), okStatus)
                && Reads(data.value, now.log[|now.log| - 1].data)
    {
      hide Exec, RanOnce, TrustLeft, Trusted, NeverRan, Next, Value, Reads, AckReads, StatusReads, Failing;
      ghost var came := now;
      var ok := WriteArg(Arg0Slot, addr);
      if !ok { return None; }
      ghost var half := now;
      ok := WriteArg(Arg1Slot, len);
      if !ok { return None; }
      TrustLeftTwice(came, half, now);
      var r;
      ghost var start;
      r, start := CommandNoPayload(readMem);
      RunTells(start, Bare(readMem), run);
      if r.Err? || r.value != okStatus { return None; }
      data := ReadData(Value(len));
      RunTells(start, Bare(readMem), run);
      if data.Some? && Trusted(came, NextNumber(came)) {
        TrustLeftMeans(came, start);
        AnswerIsOwnSince(start, Bare(readMem), run, |came.log|);
      }
    }
  }

  // What a memory read without failing accesses comes to.
  predicate ReadMemDecided(answered: bool, acks: seq<Word>, statuses: seq<Word>, n: Word, okStatus: Word) {
    && |acks| <= 100_000 && (n in acks ==> EndsWith(acks, n)) && (n !in acks ==> |acks| == 100_000)
    && (answered <==> n in acks && statuses == [okStatus])
  }

  // Between two states of one packet the next number stays trusted, and nothing runs under it.
  ghost predicate TrustLeft(s: State, t: State) {
    Trusted(s, NextNumber(s)) ==>
      Trusted(t, NextNumber(t)) && t.counter == s.counter && s.log <= t.log && NeverRan(t.log, |s.log|, NextNumber(s))
  }

  lemma TrustLeftMeans(s: State, t: State)
    requires TrustLeft(s, t) && Trusted(s, NextNumber(s))
    ensures Trusted(t, NextNumber(t)) && NextNumber(t) == NextNumber(s) && NeverRan(t.log, |s.log|, NextNumber(s))
  { }

  lemma TrustLeftTwice(s: State, m: State, t: State)
    requires TrustLeft(s, m) && TrustLeft(m, t)
    ensures TrustLeft(s, t)
  {
    hide Trusted, Next;
    if Trusted(s, NextNumber(s)) {
      forall k | |s.log| <= k < |t.log| ensures t.log[k].number != NextNumber(s) {
        if k < |m.log| { assert t.log[k] == m.log[k]; }
      }
    }
  }

  lemma ExecOfNothing(s: State)
    ensures Exec(s, []) == Some(s)
  { }

  lemma PutAgrees(w: Word, value: Word, k: Index)
    requires Agree(w, value, k)
    ensures Agree(Put(w, k, ByteAt(value, k)), value, k + 1)
    ensures k == 3 ==> Put(w, k, ByteAt(value, k)) == value
  { }

  lemma PreparingKeepsTrust(start: State, slot: Slot, value: Word, run: seq<Event>, now: State)
    requires start.host.Ready? && WithinCall(run)
    requires Exec(start.(host := Preparing(slot, value, 0)), run) == Some(now)
    ensures TrustLeft(start, now)
  {
    hide Exec, Next, Blend;
    if Trusted(start, NextNumber(start)) {
      TrustLasts(start.(host := Preparing(slot, value, 0)), run);
    }
  }
}
