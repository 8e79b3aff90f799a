/**
 What one mailbox command can rely on, byte by byte: when a status that comes back, and the data read after
 it, are its own.
 */
module MailboxCall {
  import opened Prelude
  import opened Mailbox

  // ---- Numbers read in pieces ----

  // Reading ACK while it changes from a to m can give n, although it is neither.
  predicate Blend(a: Word, m: Word, n: Word) {
    && a != n && m != n
    && ((Agree(a, n, 1) && AgreeFrom(m, n, 1))
        || (Agree(a, n, 2) && AgreeFrom(m, n, 2))
        || (Agree(a, n, 3) && AgreeFrom(m, n, 3)))
  }

  // Neither ACK's next change nor the one after it can be misread as n: these are the last two changes
  // before the device can get to n itself.
  predicate Unblended(s: State, n: Word) {
    !Blend(s.ackWord, Held(s), n) && !Blend(Held(s), s.seqWord, n)
  }

  predicate Trusted(s: State, n: Word) {
    Fresh(s, n) && Unblended(s, n)
  }

  // ---- Inside a call ----

  ghost predicate NeverRan(log: seq<Execution>, base: nat, n: Word) {
    base <= |log| && forall k :: base <= k < |log| ==> log[k].number != n
  }

  // The latest execution is the one of this number since the call began, and the only one.
  ghost predicate RanOnce(log: seq<Execution>, base: nat, n: Word, call: Call, status: Word) {
    && base < |log|
    && log[|log| - 1].number == n && log[|log| - 1].call == call && log[|log| - 1].status == status
    && forall k :: base <= k < |log| - 1 ==> log[k].number != n
  }

  // The device has run this call, and what it left is still there.
  ghost predicate RanHere(s: State, base: nat) {
    RanOnce(s.log, base, s.counter, s.call, s.status) && s.log[|s.log| - 1].data == s.data
  }

  ghost predicate Reads(bytes: seq<byte>, data: seq<byte>) {
    forall k :: 0 <= k < |bytes| ==> bytes[k] == DataAt(data, k)
  }

  predicate HoldsFields(s: State) {
    s.arg0 == s.call.arg0 && s.arg1 == s.call.arg1 && s.command == s.call.command
  }

  predicate FetchedFrom(d: Device, call: Call)
    requires d.Busy?
  {
    && (d.command.Some? ==> d.command.value == call.command)
    && (d.arg0.Some? ==> d.arg0.value == call.arg0)
    && (d.arg1.Some? ==> d.arg1.value == call.arg1)
  }

  // The bytes written so far are in place.
  predicate Placed(s: State)
    requires s.host.Writing?
  {
    var k := s.host.done;
    match s.host.slot
    case Arg0Slot => Agree(s.arg0, s.call.arg0, k)
    case Arg1Slot => s.arg0 == s.call.arg0 && Agree(s.arg1, s.call.arg1, k)
    case CommandSlot => s.arg0 == s.call.arg0 && s.arg1 == s.call.arg1 && Agree(s.command, s.call.command, k)
    case SeqSlot => HoldsFields(s) && Agree(s.seqWord, s.counter, k)
  }

  // The number is out: the device has yet to take it, is on it, or is done with it.
  ghost predicate Awaiting(s: State, base: nat) {
    var n := s.counter;
    && s.seqWord == n && HoldsFields(s)
    && if s.ackWord == n then s.device.Idle? && RanHere(s, base)
       else if s.device.Answered? && s.device.number == n then RanHere(s, base)
       else NeverRan(s.log, base, n) && (s.device.Busy? && s.device.number == n ==> FetchedFrom(s.device, s.call))
  }

  // The bytes of ACK read so far either are not those of the number, or ACK holds the number by now, or its
  // remaining bytes will give a misread away: they still do, unless ACK keeps what was read.
  predicate NoMisread(s: State)
    requires s.host.Polling?
  {
    var n, k := s.counter, s.host.done;
    Agree(s.host.seen, n, k) ==>
      || s.ackWord == n
      || Agree(s.ackWord, n, k)
      || (!AgreeFrom(s.ackWord, n, k) && Held(s) in {s.ackWord, n})
  }

  // What holds while the host is inside a call that began with a trusted number and a log of base entries.
  ghost predicate CallInv(s: State, base: nat) {
    var n := s.counter;
    match s.host
    case Ready(Returned(status)) => Awaiting(s, base) && s.ackWord == n && s.status == status
    case Ready(WithData(status, bytes)) =>
      Awaiting(s, base) && s.ackWord == n && s.status == status && Reads(bytes, s.data)
    case Ready(_) => true
    case Preparing(_, _, _) => true
    case Writing(slot, _) =>
      && Placed(s) && Unblended(s, n)
      && (s.seqWord == n ==> slot == SeqSlot && Awaiting(s, base))
      && (s.seqWord != n ==> Fresh(s, n) && NeverRan(s.log, base, n))
    case Polling(_, _, _) => Awaiting(s, base) && Unblended(s, n) && NoMisread(s)
    case ReadingStatus(seen, k) => Awaiting(s, base) && s.ackWord == n && Agree(seen, s.status, k)
    case ReadingData(status, bytes, _) =>
      Awaiting(s, base) && s.ackWord == n && s.status == status && Reads(bytes, s.data)
  }

  // One more byte of the number in SEQ makes no blend that was not there.
  lemma SeqByteBlends(a: Word, w: Word, n: Word, k: Index)
    requires Agree(w, n, k) && w != n && !Blend(a, w, n)
    ensures !Blend(a, Put(w, k, ByteAt(n, k)), n)
  { }

  lemma WriteKeepsCall(s: State, base: nat)
    requires CallInv(s, base) && s.host.Writing?
    ensures CallInv(Accessed(s), base)
  {
    hide RanOnce, NeverRan, Blend;
    if s.host.slot == SeqSlot && s.seqWord != s.counter {
      SeqByteBlends(Held(s), s.seqWord, s.counter, s.host.done);
      SelfBlends(Held(s), s.counter);
    }
  }

  lemma SelfBlends(a: Word, n: Word)
    ensures !Blend(a, n, n) && !Blend(n, a, n) && !Blend(a, a, n)
  { }

  lemma PollKeepsCall(s: State, base: nat)
    requires CallInv(s, base) && s.host.Polling?
    ensures CallInv(Accessed(s), base)
  {
    hide RanOnce, NeverRan, Blend;
  }

  lemma ReadKeepsCall(s: State, base: nat)
    requires CallInv(s, base) && (s.host.ReadingStatus? || s.host.ReadingData?)
    ensures CallInv(Accessed(s), base)
  {
    hide RanOnce, NeverRan, Blend, DataAt;
  }

  lemma HostKeepsCall(s: State, e: Event, base: nat)
    requires e.Access? || e.AccessFails? || e.BeginRead?
    requires CallInv(s, base) && HostStep(s, e).Some?
    ensures CallInv(HostStep(s, e).value, base)
    ensures HostStep(s, e).value.counter == s.counter && HostStep(s, e).value.call == s.call
  {
    if e.BeginRead? {
      hide Awaiting;
    } else if e.Access? {
      if s.host.Writing? {
        WriteKeepsCall(s, base);
      } else if s.host.Polling? {
        PollKeepsCall(s, base);
      } else if !s.host.Preparing? {
        ReadKeepsCall(s, base);
      }
      hide CallInv, Put, ByteAt;
    }
  }

  lemma DeviceKeepsCall(s: State, e: Event, base: nat)
    requires !IsHostEvent(e)
    requires CallInv(s, base) && DeviceStep(s, e).Some?
    ensures CallInv(DeviceStep(s, e).value, base)
    ensures DeviceStep(s, e).value.counter == s.counter && DeviceStep(s, e).value.call == s.call
  {
    SelfBlends(s.seqWord, s.counter);
    SelfBlends(Held(s), s.counter);
    if s.host.Polling? && e.Acknowledge? {
      AckKeepsPoll(s);
    }
    hide Blend, DataAt;
  }

  // A change of ACK during a poll is not misread.
  lemma AckKeepsPoll(s: State)
    requires s.host.Polling? && s.device.Answered? && NoMisread(s) && Unblended(s, s.counter) && s.seqWord == s.counter
    requires s.ackWord != s.counter
    ensures NoMisread(s.(ackWord := s.device.number, device := Idle))
  { }

  lemma {:induction false} CallKeepsInv(s: State, es: seq<Event>, base: nat)
    requires CallInv(s, base) && WithinCall(es) && Exec(s, es).Some?
    ensures CallInv(Exec(s, es).value, base)
    ensures Exec(s, es).value.counter == s.counter && Exec(s, es).value.call == s.call
    decreases |es|
  {
    hide CallInv, HostStep, DeviceStep;
    if es != [] {
      var e := es[|es| - 1];
      CallKeepsInv(s, es[..|es| - 1], base);
      var m := Exec(s, es[..|es| - 1]).value;
      if IsHostEvent(e) {
        HostKeepsCall(m, e, base);
      } else {
        DeviceKeepsCall(m, e, base);
      }
    }
  }

  lemma IssueStartsCall(s: State, request: Request, base: nat)
    requires s.host.Ready? && Trusted(s, NextNumber(s)) && NeverRan(s.log, base, NextNumber(s))
    ensures CallInv(Issued(s, request), base)
  { }

  // A status that has come back was stored by the one execution under this number since the call began, and
  // data read after it are those the same execution left.
  ghost predicate AnswerIsOwn(t: State, base: nat, n: Word, call: Call) {
    t.host.Ready? ==>
      && (t.host.outcome.Returned? ==> RanOnce(t.log, base, n, call, t.host.outcome.status))
      && (t.host.outcome.WithData? ==> RanOnce(t.log, base, n, call, t.host.outcome.status)
                                       && Reads(t.host.outcome.bytes, t.log[|t.log| - 1].data))
  }

  lemma CallMeansOwn(t: State, base: nat)
    requires CallInv(t, base)
    ensures AnswerIsOwn(t, base, t.counter, t.call)
  { }

  // If the new number is trusted and has not run since some point of the log, the answer the call returns is
  // its own, and nothing else has run under that number since.
  lemma AnswerIsOwnSince(s: State, request: Request, es: seq<Event>, base: nat)
    requires s.host.Ready? && Trusted(s, NextNumber(s)) && NeverRan(s.log, base, NextNumber(s)) && WithinCall(es)
    requires Exec(Issued(s, request), es).Some?
    ensures AnswerIsOwn(Exec(Issued(s, request), es).value, base, NextNumber(s), Asked(s, request))
  {
    hide Trusted, NeverRan, NextNumber, Exec, CallInv, AnswerIsOwn;
    IssueStartsCall(s, request, base);
    CallKeepsInv(Issued(s, request), es, base);
    CallMeansOwn(Exec(Issued(s, request), es).value, base);
  }

  // If the new number is trusted, whatever answer the call returns is its own.
  lemma ReturnedAnswerIsOwn(s: State, request: Request, es: seq<Event>)
    requires s.host.Ready? && Trusted(s, NextNumber(s)) && WithinCall(es)
    requires Exec(Issued(s, request), es).Some?
    ensures AnswerIsOwn(Exec(Issued(s, request), es).value, |s.log|, NextNumber(s), Asked(s, request))
  {
    hide Trusted, NextNumber, Exec, AnswerIsOwn;
    AnswerIsOwnSince(s, request, es, |s.log|);
  }

  // Every answer that a run of this call returns is that of an execution of this call.
  ghost predicate OnlyOwnAnswer(s: State, request: Request)
    requires s.host.Ready?
  {
    forall es :: WithinCall(es) && Exec(Issued(s, request), es).Some?
      ==> AnswerIsOwn(Exec(Issued(s, request), es).value, |s.log|, NextNumber(s), Asked(s, request))
  }

  predicate ReturnsIn(m: State, es: seq<Event>) {
    Exec(m, es).Some? && Exec(m, es).value.host.Ready? && Exec(m, es).value.host.outcome.Returned?
  }

  // ---- Between calls ----

  predicate BetweenCalls(h: Host) {
    h.Ready? || h.Preparing? || h.ReadingData?
  }

  lemma StepKeepsTrust(s: State, e: Event, n: Word)
    requires BetweenCalls(s.host) && Trusted(s, n) && !e.Issue? && Apply(s, e).Some?
    ensures var t := Apply(s, e).value;
            && BetweenCalls(t.host) && Trusted(t, n) && t.counter == s.counter
            && s.log <= t.log && NeverRan(t.log, |s.log|, n)
  {
    SelfBlends(s.seqWord, n);
    SelfBlends(Held(s), n);
    hide Blend, Put, DataAt;
  }

  // Trust lasts until the number is used: neither arguments written before the call nor the device undo it,
  // and meanwhile nothing runs under that number.
  lemma {:induction false} TrustLasts(s: State, es: seq<Event>)
    requires BetweenCalls(s.host) && Trusted(s, NextNumber(s)) && Exec(s, es).Some?
    requires forall k :: 0 <= k < |es| ==> !es[k].Issue?
    ensures var t := Exec(s, es).value;
            && BetweenCalls(t.host) && Trusted(t, NextNumber(t)) && t.counter == s.counter
            && s.log <= t.log && NeverRan(t.log, |s.log|, NextNumber(s))
    decreases |es|
  {
    hide Trusted, Apply, Next;
    if es != [] {
      TrustLasts(s, es[..|es| - 1]);
      StepKeepsTrust(Exec(s, es[..|es| - 1]).value, es[|es| - 1], NextNumber(s));
    }
  }

  // ---- Runs that return a status of something else ----

  function FinishFrom(h: Host): seq<Event> {
    WritesFrom(h) + FOUR + FOUR
  }

  lemma FinishIsWithin(h: Host)
    ensures WithinCall(FinishFrom(h))
  {
    hide WithinCall, FOUR, WritesFrom;
    WritesAreWithin(h);
    WithinBoth(WritesFrom(h), FOUR);
    WithinBoth(WritesFrom(h) + FOUR, FOUR);
  }

  // With ACK already at the number, the whole call passes without the device.
  lemma StaleRun(m: State)
    requires Begun(m) && m.ackWord == m.counter
    ensures ReturnsIn(m, FinishFrom(m.host)) && Exec(m, FinishFrom(m.host)).value.log == m.log
    ensures var t := Exec(m, FinishFrom(m.host)).value;
            && t.counter == m.counter && t.seqWord == t.ackWord == t.counter && t.device == m.device
            && t.host == Ready(Returned(m.status))
  {
    hide Exec, WritesFrom, Begun;
    WritesRun(m);
    var writes := WritesFrom(m.host);
    var a := Exec(m, writes).value;
    AckRun(a);
    ExecConcat(m, writes, FOUR);
    StatusRun(Exec(m, writes + FOUR).value);
    ExecConcat(m, writes + FOUR, FOUR);
  }

  // The device finishes what it holds.
  function Finishing(d: Device): seq<Event> {
    match d
    case Idle => []
    case Busy(_, _, _, _) => FETCH_AND_RUN + [Acknowledge]
    case Answered(_) => [Acknowledge]
  }

  function Answering(d: Device): seq<Event> {
    if d.Busy? then FETCH_AND_RUN else []
  }

  lemma AnsweringRuns(m: State)
    requires !m.device.Idle?
    ensures var es := Answering(m.device);
            && Exec(m, es).Some?
            && var t := Exec(m, es).value;
               && t.device == Answered(m.device.number)
               && t == m.(device := t.device, status := t.status, log := t.log)
               && |m.log| <= |t.log| && t.log[..|m.log|] == m.log
               && (forall k :: |m.log| <= k < |t.log| ==>
                     t.log[k].number == m.device.number && t.log[k].call == Call(m.command, m.arg0, m.arg1))
  {
    if m.device.Busy? {
      hide Exec;
      BusyDeviceRuns(m);
    } else {
      assert Exec(m, []) == Some(m);
    }
  }

  lemma FinishingRuns(m: State)
    ensures var es := Finishing(m.device);
            && Exec(m, es).Some?
            && var t := Exec(m, es).value;
               && t == m.(device := Idle, ackWord := Held(m), status := t.status, log := t.log)
               && |m.log| <= |t.log| && t.log[..|m.log|] == m.log
               && (forall k :: |m.log| <= k < |t.log| ==>
                     t.log[k].number == Held(m) && t.log[k].call == Call(m.command, m.arg0, m.arg1))
  {
    if m.device.Idle? {
      assert Exec(m, []) == Some(m);
    } else {
      AnsweringRuns(m);
      hide Exec;
      ExecSnoc(m, Answering(m.device), Acknowledge);
      assert Finishing(m.device) == Answering(m.device) + [Acknowledge];
    }
  }

  // A run of the device alone, then one of the call: no status of its own comes back.
  ghost predicate Misleads(m: State, es: seq<Event>, base: nat, n: Word, call: Call) {
    && WithinCall(es) && ReturnsIn(m, es)
    && var t := Exec(m, es).value; !RanOnce(t.log, base, n, call, t.host.outcome.status)
  }

  lemma TailMisleads(m: State, lead: seq<Event>, tail: seq<Event>, base: nat)
    requires WithinCall(lead) && WithinCall(tail) && Exec(m, lead).Some?
    requires var t := Exec(m, lead).value;
             && ReturnsIn(t, tail) && Exec(t, tail).value.log == t.log
             && (base < |t.log| ==> t.log[|t.log| - 1].call != m.call || t.log[|t.log| - 1].number != m.counter)
    ensures Misleads(m, lead + tail, base, m.counter, m.call)
  {
    hide Exec;
    ExecConcat(m, lead, tail);
  }

  // Reading the first bytes of ACK, a change, and reading the rest.
  function Split(j: nat): seq<Event>
    requires 1 <= j <= 3
  {
    if j == 1 then [Access] + [Acknowledge] + [Access] + [Access] + [Access]
    else if j == 2 then [Access] + [Access] + [Acknowledge] + [Access] + [Access]
    else [Access] + [Access] + [Access] + [Acknowledge] + [Access]
  }

  lemma SplitRun(m: State, j: nat)
    requires 1 <= j <= 3 && m.host.Polling? && m.host.done == 0 && m.device.Answered?
    requires Agree(m.ackWord, m.counter, j) && AgreeFrom(m.device.number, m.counter, j)
    ensures Exec(m, Split(j)) == Some(m.(host := ReadingStatus(ZERO, 0), ackWord := m.device.number, device := Idle))
  {
    hide Exec, Stored;
    ExecOne(m, Access);
    if j == 1 {
      ExecSnoc(m, [Access], Acknowledge);
      ExecSnoc(m, [Access] + [Acknowledge], Access);
      ExecSnoc(m, [Access] + [Acknowledge] + [Access], Access);
      ExecSnoc(m, [Access] + [Acknowledge] + [Access] + [Access], Access);
    } else if j == 2 {
      ExecSnoc(m, [Access], Access);
      ExecSnoc(m, [Access] + [Access], Acknowledge);
      ExecSnoc(m, [Access] + [Access] + [Acknowledge], Access);
      ExecSnoc(m, [Access] + [Access] + [Acknowledge] + [Access], Access);
    } else {
      ExecSnoc(m, [Access], Access);
      ExecSnoc(m, [Access] + [Access], Access);
      ExecSnoc(m, [Access] + [Access] + [Access], Acknowledge);
      ExecSnoc(m, [Access] + [Access] + [Access] + [Acknowledge], Access);
    }
  }

  function SplitFinish(h: Host, j: nat): seq<Event>
    requires 1 <= j <= 3
  {
    WritesFrom(h) + Split(j) + FOUR
  }

  // An answer that ACK is about to show is misread in the middle of its change.
  lemma SplitFinishRun(t: State, j: nat)
    requires 1 <= j <= 3 && Begun(t) && t.device.Answered?
    requires Agree(t.ackWord, t.counter, j) && AgreeFrom(t.device.number, t.counter, j)
    ensures ReturnsIn(t, SplitFinish(t.host, j))
    ensures var u := Exec(t, SplitFinish(t.host, j)).value; u.log == t.log && u.counter == t.counter
  {
    hide Exec, Agree, AgreeFrom, Split, WritesFrom, Begun;
    WritesRun(t);
    var writes := WritesFrom(t.host);
    SplitRun(Exec(t, writes).value, j);
    ExecConcat(t, writes, Split(j));
    StatusRun(Exec(t, writes + Split(j)).value);
    ExecConcat(t, writes + Split(j), FOUR);
  }

  lemma SplitIsWithin(h: Host, j: nat)
    requires 1 <= j <= 3
    ensures WithinCall(SplitFinish(h, j))
  {
    assert WithinCall(Split(j));
    hide WithinCall, FOUR, WritesFrom, Split;
    WritesAreWithin(h);
    WithinBoth(WritesFrom(h), Split(j));
    WithinBoth(WritesFrom(h) + Split(j), FOUR);
  }

  lemma BlendAt(a: Word, m: Word, n: Word) returns (j: nat)
    requires Blend(a, m, n)
    ensures 1 <= j <= 3 && Agree(a, n, j) && AgreeFrom(m, n, j)
  {
    j := if Agree(a, n, 1) && AgreeFrom(m, n, 1) then 1 else if Agree(a, n, 2) && AgreeFrom(m, n, 2) then 2 else 3;
  }

  lemma BlendMisleads(m: State, lead: seq<Event>, base: nat) returns (es: seq<Event>)
    requires WithinCall(lead) && Exec(m, lead).Some?
    requires var t := Exec(m, lead).value;
             && Begun(t) && t.counter == m.counter && t.device.Answered?
             && Blend(t.ackWord, t.device.number, m.counter)
             && (base < |t.log| ==> t.log[|t.log| - 1].number != m.counter)
    ensures Misleads(m, es, base, m.counter, m.call)
  {
    hide Exec, Blend, Agree, AgreeFrom, SplitFinish, Begun;
    var t := Exec(m, lead).value;
    var j := BlendAt(t.ackWord, t.device.number, m.counter);
    SplitFinishRun(t, j);
    SplitIsWithin(t.host, j);
    TailMisleads(m, lead, SplitFinish(t.host, j), base);
    es := lead + SplitFinish(t.host, j);
  }

  // ---- The exact condition ----

  // The device already has the number: what it runs, or has run, is not this call.
  lemma HeldMisleads(s: State, request: Request) returns (es: seq<Event>)
    requires s.host.Ready? && Asked(s, request).command != s.command && Held(s) == NextNumber(s) != s.ackWord
    ensures Misleads(Issued(s, request), es, |s.log|, NextNumber(s), Asked(s, request))
  {
    hide Exec, NextNumber, Finishing;
    var m := Issued(s, request);
    IssuedIsBegun(s, request);
    FinishIsWithin(m.host);
    var lead := Finishing(m.device);
    FinishingIsWithin(m.device);
    FinishingRuns(m);
    StaleRun(Exec(m, lead).value);
    TailMisleads(m, lead, FinishFrom(m.host), |s.log|);
    es := lead + FinishFrom(m.host);
  }

  lemma FinishingIsWithin(d: Device)
    ensures WithinCall(Finishing(d)) && WithinCall(Answering(d))
  { }

  // The number is pending in SEQ: the device runs the old fields under it.
  lemma PendingMisleads(s: State, request: Request) returns (es: seq<Event>)
    requires s.host.Ready? && Asked(s, request).command != s.command && s.seqWord == NextNumber(s) != Held(s)
    ensures Misleads(Issued(s, request), es, |s.log|, NextNumber(s), Asked(s, request))
  {
    hide Exec, NextNumber, Finishing;
    var m := Issued(s, request);
    IssuedIsBegun(s, request);
    FinishIsWithin(m.host);
    var lead := Finishing(m.device);
    FinishingIsWithin(m.device);
    FinishingRuns(m);
    PendingCompletes(Exec(m, lead).value);
    ExecConcat(m, lead, COMPLETE);
    StaleRun(Exec(m, lead + COMPLETE).value);
    TailMisleads(m, lead + COMPLETE, FinishFrom(m.host), |s.log|);
    es := lead + COMPLETE + FinishFrom(m.host);
  }

  lemma HeldBlends(s: State, request: Request) returns (es: seq<Event>)
    requires s.host.Ready? && Held(s) != NextNumber(s) && Blend(s.ackWord, Held(s), NextNumber(s))
    ensures Misleads(Issued(s, request), es, |s.log|, NextNumber(s), Asked(s, request))
  {
    SelfBlends(s.ackWord, NextNumber(s));
    hide Exec, NextNumber, Answering, Blend;
    var m := Issued(s, request);
    IssuedIsBegun(s, request);
    FinishingIsWithin(m.device);
    AnsweringRuns(m);
    es := BlendMisleads(m, Answering(m.device), |s.log|);
  }

  lemma PendingBlends(s: State, request: Request) returns (es: seq<Event>)
    requires s.host.Ready? && Blend(Held(s), s.seqWord, NextNumber(s))
    ensures Misleads(Issued(s, request), es, |s.log|, NextNumber(s), Asked(s, request))
  {
    SelfBlends(s.seqWord, NextNumber(s));
    assert s.seqWord != NextNumber(s);
    hide Exec, NextNumber, Finishing, Blend;
    var m := Issued(s, request);
    IssuedIsBegun(s, request);
    var lead := Finishing(m.device);
    FinishingIsWithin(m.device);
    FinishingRuns(m);
    PendingRuns(Exec(m, lead).value);
    ExecConcat(m, lead, SERVE);
    es := BlendMisleads(m, lead + SERVE, |s.log|);
  }

  lemma OwnStatusNeedsTrust(s: State, request: Request) returns (es: seq<Event>)
    requires s.host.Ready? && !Trusted(s, NextNumber(s)) && Asked(s, request).command != s.command
    ensures Misleads(Issued(s, request), es, |s.log|, NextNumber(s), Asked(s, request))
  {
    hide Exec, NextNumber, Blend, Misleads;
    var m := Issued(s, request);
    if s.ackWord == NextNumber(s) {
      es := StaleMisleads(s, request);
    } else if Held(s) == NextNumber(s) {
      es := HeldMisleads(s, request);
    } else if s.seqWord == NextNumber(s) {
      es := PendingMisleads(s, request);
    } else if Blend(s.ackWord, Held(s), NextNumber(s)) {
      es := HeldBlends(s, request);
    } else {
      es := PendingBlends(s, request);
    }
  }

  lemma StaleMisleads(s: State, request: Request) returns (es: seq<Event>)
    requires s.host.Ready? && s.ackWord == NextNumber(s)
    ensures Misleads(Issued(s, request), es, |s.log|, NextNumber(s), Asked(s, request))
  {
    var m := Issued(s, request);
    IssuedIsBegun(s, request);
    FinishIsWithin(m.host);
    assert Exec(m, []) == Some(m);
    hide Exec, NextNumber;
    StaleRun(m);
    TailMisleads(m, [], FinishFrom(m.host), |s.log|);
    es := [] + FinishFrom(m.host);
  }

  // Main result: every answer is the call's own, whatever the command and its arguments, if and only if the
  // new number is held neither by the mailbox nor by the device and no change of ACK that is still to come can
  // be misread as it. The same holds for commands that leave the arguments alone.
  lemma TrustedIffFresh(s: State)
    requires s.host.Ready?
    ensures (forall call :: OnlyOwnAnswer(s, WithArgs(call))) <==> Trusted(s, NextNumber(s))
    ensures (forall command :: OnlyOwnAnswer(s, Bare(command))) <==> Trusted(s, NextNumber(s))
  {
    hide Trusted, OnlyOwnAnswer, NextNumber, Put;
    if Trusted(s, NextNumber(s)) {
      forall request ensures OnlyOwnAnswer(s, request) {
        TrustMakesOwn(s, request);
      }
    } else {
      var command := OtherCommand(s);
      DistrustMisleads(s, WithArgs(Call(command, ZERO, ZERO)));
      DistrustMisleads(s, Bare(command));
    }
  }

  function OtherCommand(s: State): (w: Word)
    ensures w != s.command
  {
    Put(s.command, 0, (s.command.b0 + 1) % 256)
  }

  lemma TrustMakesOwn(s: State, request: Request)
    requires s.host.Ready? && Trusted(s, NextNumber(s))
    ensures OnlyOwnAnswer(s, request)
  {
    hide Trusted, AnswerIsOwn, Exec;
    forall es | WithinCall(es) && Exec(Issued(s, request), es).Some?
      ensures AnswerIsOwn(Exec(Issued(s, request), es).value, |s.log|, NextNumber(s), Asked(s, request))
    {
      ReturnedAnswerIsOwn(s, request, es);
    }
  }

  lemma DistrustMisleads(s: State, request: Request)
    requires s.host.Ready? && !Trusted(s, NextNumber(s)) && Asked(s, request).command != s.command
    ensures !OnlyOwnAnswer(s, request)
  {
    hide Trusted, Exec, RanOnce, NextNumber, Asked;
    var es := OwnStatusNeedsTrust(s, request);
    assert WithinCall(es);
  }

  // When everything asked for has been run and acknowledged, freshness is all it takes: ACK alone decides.
  lemma SettledTrustIff(s: State, n: Word)
    requires s.device.Idle? && s.seqWord == s.ackWord
    ensures Trusted(s, n) <==> n != s.ackWord
  { }
}
