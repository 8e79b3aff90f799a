/** When the device runs nothing but the new command while the command lasts. */
module MailboxQuiet {
  import opened Prelude
  import opened Mailbox
  import opened MailboxCall

  // The device has run everything it was ever asked to run.
  predicate Settled(s: State) {
    Held(s) == s.seqWord && !s.device.Busy?
  }

  function Differ(a: byte, b: byte): nat {
    if a == b then 0 else 1
  }

  // How many bytes a change of SEQ has to touch.
  function Distance(v: Word, w: Word): nat {
    Differ(v.b0, w.b0) + Differ(v.b1, w.b1) + Differ(v.b2, w.b2) + Differ(v.b3, w.b3)
  }

  // A change of SEQ to n that no one can catch half way.
  predicate Atomic(s: State, n: Word) {
    Distance(s.seqWord, n) <= 1
  }

  // Whatever happens during the call, the device runs the call itself, at most once, or nothing.
  ghost predicate NothingElseRuns(s: State, request: Request)
    requires s.host.Ready?
  {
    forall es :: WithinCall(es) && Exec(Issued(s, request), es).Some?
      ==> OnlyThis(Exec(Issued(s, request), es).value.log, s.log, NextNumber(s), Asked(s, request))
  }

  predicate OnlyThis(log: seq<Execution>, before: seq<Execution>, n: Word, call: Call) {
    log == before
    || (|log| == |before| + 1 && log[..|before|] == before && log[|before|].number == n && log[|before|].call == call)
  }

  // ---- A settled mailbox and a change of one byte ----

  ghost predicate QuietInv(s: State, before: seq<Execution>) {
    var n := s.counter;
    && !s.host.Preparing? && (s.host.Writing? ==> Placed(s))
    && if s.seqWord != n then
         && Settled(s) && s.log == before && Distance(s.seqWord, n) <= 1
         && (s.host.Writing? || s.host == Ready(Failed(Bus)))
       else if Held(s) == n && !s.device.Busy? then OnlyThis(s.log, before, n, s.call)
       else
         && HoldsFields(s) && s.log == before && (s.host.Writing? ==> s.host.slot == SeqSlot)
         && (s.device.Busy? ==> s.device.number == n && FetchedFrom(s.device, s.call))
  }

  lemma OneByteChange(w: Word, n: Word, k: Index)
    requires Distance(w, n) <= 1
    ensures Put(w, k, ByteAt(n, k)) in {w, n}
  { }

  lemma PlacedStays(s: State)
    requires s.host.Writing? && Placed(s)
    ensures var t := Accessed(s);
            && (t.host.Writing? ==> Placed(t)) && !t.host.Preparing?
            && (s.host.slot == SeqSlot ==> HoldsFields(s) && HoldsFields(t))
            && (s.host.slot == SeqSlot && s.host.done == 3 ==> t.seqWord == s.counter)
  { }

  lemma StoreKeepsQuiet(s: State, before: seq<Execution>)
    requires QuietInv(s, before) && s.host.Writing?
    ensures QuietInv(Accessed(s), before) && QuietInv(Reached(s).(host := Ready(Failed(Bus))), before)
  {
    hide OnlyThis, Distance, Placed, HoldsFields, FetchedFrom, Put, ByteAt;
    PlacedStays(s);
    FieldsKept(s);
    if s.seqWord != s.counter {
      OneByteChange(s.seqWord, s.counter, s.host.done);
    } else if s.host.slot == SeqSlot {
      PutSame(s.seqWord, s.host.done);
    }
  }

  lemma PutSame(w: Word, k: Index)
    ensures Put(w, k, ByteAt(w, k)) == w
  { }

  lemma FieldsKept(s: State)
    requires s.host.Writing? && s.host.slot == SeqSlot ==> HoldsFields(s)
    ensures s.host.Writing? && s.host.slot == SeqSlot ==> HoldsFields(Reached(s).(host := Ready(Failed(Bus))))
  { }

  lemma HostKeepsQuiet(s: State, e: Event, before: seq<Execution>)
    requires IsHostEvent(e) && !e.Issue? && !e.Prepare?
    requires QuietInv(s, before) && HostStep(s, e).Some?
    ensures QuietInv(HostStep(s, e).value, before)
    ensures HostStep(s, e).value.counter == s.counter && HostStep(s, e).value.call == s.call
  {
    hide OnlyThis, Distance, DataAt, Put, ByteAt;
    if s.host.Writing? {
      StoreKeepsQuiet(s, before);
      hide QuietInv;
    }
  }

  lemma DeviceKeepsQuiet(s: State, e: Event, before: seq<Execution>)
    requires !IsHostEvent(e)
    requires QuietInv(s, before) && DeviceStep(s, e).Some?
    ensures QuietInv(DeviceStep(s, e).value, before)
    ensures DeviceStep(s, e).value.counter == s.counter && DeviceStep(s, e).value.call == s.call
  {
    hide Distance;
  }

  lemma {:induction false} RunKeepsQuiet(s: State, es: seq<Event>, before: seq<Execution>)
    requires QuietInv(s, before) && WithinCall(es) && Exec(s, es).Some?
    ensures QuietInv(Exec(s, es).value, before)
    ensures Exec(s, es).value.counter == s.counter && Exec(s, es).value.call == s.call
    decreases |es|
  {
    hide QuietInv, HostStep, DeviceStep;
    if es != [] {
      var e := es[|es| - 1];
      RunKeepsQuiet(s, es[..|es| - 1], before);
      var m := Exec(s, es[..|es| - 1]).value;
      if IsHostEvent(e) {
        HostKeepsQuiet(m, e, before);
      } else {
        DeviceKeepsQuiet(m, e, before);
      }
    }
  }

  lemma QuietMeansOnlyThis(s: State, before: seq<Execution>)
    requires QuietInv(s, before)
    ensures OnlyThis(s.log, before, s.counter, s.call)
  { }

  lemma SettledIsQuiet(s: State, request: Request)
    requires s.host.Ready? && Settled(s) && Atomic(s, NextNumber(s))
    ensures NothingElseRuns(s, request)
  {
    var m := Issued(s, request);
    assert QuietInv(m, s.log);
    hide QuietInv, OnlyThis, Exec;
    forall es | WithinCall(es) && Exec(m, es).Some?
      ensures OnlyThis(Exec(m, es).value.log, s.log, NextNumber(s), Asked(s, request))
    {
      RunKeepsQuiet(m, es, s.log);
      QuietMeansOnlyThis(Exec(m, es).value, s.log);
    }
  }

  // ---- An unsettled mailbox ----

  // The device can run something under an older number before it turns to the new call.
  lemma UnsettledRunsOther(s: State, request: Request) returns (es: seq<Event>)
    requires s.host.Ready? && Asked(s, request).command != s.command && !Settled(s)
    ensures WithinCall(es) && Exec(Issued(s, request), es).Some?
    ensures !OnlyThis(Exec(Issued(s, request), es).value.log, s.log, NextNumber(s), Asked(s, request))
  {
    hide NextNumber;
    var m := Issued(s, request);
    if s.device.Busy? {
      BusyDeviceRuns(m);
      es := FETCH_AND_RUN;
    } else {
      hide Exec, Finishing, WithinCall, SERVE, Asked;
      var lead := Finishing(m.device);
      FinishingIsWithin(m.device);
      ServingIsWithin();
      FinishingRuns(m);
      PendingRuns(Exec(m, lead).value);
      ExecConcat(m, lead, SERVE);
      WithinBoth(lead, SERVE);
      es := lead + SERVE;
    }
  }

  // ---- A change of several bytes ----

  // The first byte in which two words differ.
  function FirstDifference(v: Word, w: Word): (k: Index)
    requires v != w
    ensures Agree(v, w, k) && ByteAt(v, k) != ByteAt(w, k)
  {
    if v.b0 != w.b0 then 0 else if v.b1 != w.b1 then 1 else if v.b2 != w.b2 then 2 else 3
  }

  // What SEQ shows once that byte has been stored.
  function Torn(v: Word, w: Word): Word
    requires v != w
  {
    var k := FirstDifference(v, w);
    Put(v, k, ByteAt(w, k))
  }

  lemma TornIsNeither(v: Word, w: Word)
    requires Distance(v, w) > 1
    ensures v != w && Torn(v, w) != v && Torn(v, w) != w
  { }

  function Accesses(n: nat): seq<Event>
    requires n <= 4
  {
    if n == 0 then [] else if n == 1 then [Access] else if n == 2 then [Access] + [Access]
    else if n == 3 then [Access] + [Access] + [Access] else FOUR
  }

  // The bytes of SEQ up to the first one that changes it.
  lemma TearRun(s: State)
    requires s.host == Writing(SeqSlot, 0) && s.seqWord != s.counter
    ensures var k := FirstDifference(s.seqWord, s.counter);
            && Exec(s, Accesses(k + 1)).Some?
            && var t := Exec(s, Accesses(k + 1)).value;
               t == s.(seqWord := Torn(s.seqWord, s.counter), host := AfterWrite(SeqSlot, k), written := t.written)
  {
    hide Exec;
    ExecOne(s, Access);
    ExecSnoc(s, [Access], Access);
    ExecSnoc(s, [Access] + [Access], Access);
    ExecSnoc(s, [Access] + [Access] + [Access], Access);
  }

  // The rest of them.
  lemma RestRun(s: State)
    requires s.host.Writing? && s.host.slot == SeqSlot && Agree(s.seqWord, s.counter, s.host.done)
    ensures var es := Accesses(4 - s.host.done);
            && Exec(s, es).Some?
            && var t := Exec(s, es).value;
               t == s.(seqWord := s.counter, host := Polling(0, ZERO, 0), written := t.written)
  {
    hide Exec;
    ExecOne(s, Access);
    if s.host.done < 3 { ExecSnoc(s, [Access], Access); }
    if s.host.done < 2 { ExecSnoc(s, [Access] + [Access], Access); }
    if s.host.done < 1 { ExecSnoc(s, [Access] + [Access] + [Access], Access); }
  }

  // Up to the torn number, with an idle device.
  lemma UpToTorn(m: State, q: Word) returns (es: seq<Event>)
    requires Begun(m) && m.seqWord == q != m.counter
    ensures WithinCall(es) && Exec(m, es).Some?
    ensures var t := Exec(m, es).value; var k := FirstDifference(q, m.counter);
            t == m.(arg0 := m.call.arg0, arg1 := m.call.arg1, command := m.call.command,
                    seqWord := Torn(q, m.counter), host := AfterWrite(SeqSlot, k), written := t.written)
  {
    var bytes: nat := FirstDifference(q, m.counter) + 1;
    hide Exec, Torn, FirstDifference, AfterWrite, Accesses, Begun, FieldsFrom;
    FieldsRun(m);
    var fields := FieldsFrom(m.host);
    TearRun(Exec(m, fields).value);
    ExecConcat(m, fields, Accesses(bytes));
    es := fields + Accesses(bytes);
    AccessesAreWithin(bytes);
    WritesAreWithin(m.host);
  }

  lemma AccessesAreWithin(n: nat)
    requires n <= 4
    ensures WithinCall(Accesses(n))
  { }

  lemma FinishingAddsNothing(m: State)
    requires !m.device.Busy?
    ensures Exec(m, Finishing(m.device)).Some? && Exec(m, Finishing(m.device)).value.log == m.log
  {
    if m.device.Idle? {
      assert Exec(m, []) == Some(m);
    } else {
      ExecOne(m, Acknowledge);
    }
  }

  lemma TearingRunsOther(s: State, request: Request) returns (es: seq<Event>)
    requires s.host.Ready? && Settled(s) && !Atomic(s, NextNumber(s))
    ensures WithinCall(es) && Exec(Issued(s, request), es).Some?
    ensures !OnlyThis(Exec(Issued(s, request), es).value.log, s.log, NextNumber(s), Asked(s, request))
  {
    hide Exec, NextNumber, Torn, Finishing, WithinCall, SERVE, Distance, Asked;
    assert Distance(s.seqWord, NextNumber(s)) > 1;
    TornIsNeither(s.seqWord, NextNumber(s));
    ServingIsWithin();
    var m := Issued(s, request);
    var lead := Finishing(m.device);
    FinishingIsWithin(m.device);
    FinishingRuns(m);
    FinishingAddsNothing(m);
    IssuedIsBegun(s, request);
    var f := Exec(m, lead).value;
    var tear := UpToTorn(f, s.seqWord);
    ExecConcat(m, lead, tear);
    PendingRuns(Exec(m, lead + tear).value);
    ExecConcat(m, lead + tear, SERVE);
    WithinBoth(lead, tear);
    WithinBoth(lead + tear, SERVE);
    es := lead + tear + SERVE;
  }

  // Main result: the device is certain to run nothing but the new call, at most once, while that call lasts,
  // whatever the call, if and only if everything asked for before has been run and SEQ changes in one byte at
  // most. The same holds for commands that leave the arguments alone.
  lemma NothingElseRunsIff(s: State)
    requires s.host.Ready?
    ensures (forall call :: NothingElseRuns(s, WithArgs(call))) <==> Settled(s) && Atomic(s, NextNumber(s))
    ensures (forall command :: NothingElseRuns(s, Bare(command))) <==> Settled(s) && Atomic(s, NextNumber(s))
  {
    hide Settled, Atomic, NothingElseRuns, NextNumber;
    if Settled(s) && Atomic(s, NextNumber(s)) {
      forall request ensures NothingElseRuns(s, request) {
        SettledIsQuiet(s, request);
      }
    } else {
      var command := OtherCommand(s);
      OtherRuns(s, WithArgs(Call(command, ZERO, ZERO)));
      OtherRuns(s, Bare(command));
    }
  }

  lemma OtherRuns(s: State, request: Request)
    requires s.host.Ready? && !(Settled(s) && Atomic(s, NextNumber(s))) && Asked(s, request).command != s.command
    ensures !NothingElseRuns(s, request)
  {
    hide Settled, Atomic, Exec, OnlyThis, NextNumber, Asked;
    var es: seq<Event>;
    if !Settled(s) {
      es := UnsettledRunsOther(s, request);
    } else {
      es := TearingRunsOther(s, request);
    }
    assert WithinCall(es);
  }

  // ---- Before a call ----

  // Whatever happens until the next command is issued, its arguments going out among it, nothing runs.
  ghost predicate NothingRunsBefore(s: State) {
    forall es :: NoIssue(es) && Exec(s, es).Some? ==> Exec(s, es).value.log == s.log
  }

  ghost predicate NoIssue(es: seq<Event>) {
    forall k :: 0 <= k < |es| ==> !es[k].Issue?
  }

  lemma StepStaysSettled(s: State, e: Event)
    requires BetweenCalls(s.host) && Settled(s) && !e.Issue? && Apply(s, e).Some?
    ensures var t := Apply(s, e).value; BetweenCalls(t.host) && Settled(t) && t.log == s.log
  {
    hide Put, DataAt;
  }

  lemma {:induction false} StaysSettled(s: State, es: seq<Event>)
    requires BetweenCalls(s.host) && Settled(s) && NoIssue(es) && Exec(s, es).Some?
    ensures var t := Exec(s, es).value; BetweenCalls(t.host) && Settled(t) && t.log == s.log
    decreases |es|
  {
    hide Apply, Settled;
    if es != [] {
      StaysSettled(s, es[..|es| - 1]);
      StepStaysSettled(Exec(s, es[..|es| - 1]).value, es[|es| - 1]);
    }
  }

  // The server's arguments are safe from an earlier command, which would run with them, exactly when there is
  // none left to run.
  lemma NothingRunsBeforeIff(s: State)
    requires BetweenCalls(s.host)
    ensures NothingRunsBefore(s) <==> Settled(s)
  {
    if Settled(s) {
      hide Exec, Settled;
      forall es | NoIssue(es) && Exec(s, es).Some? ensures Exec(s, es).value.log == s.log {
        StaysSettled(s, es);
      }
    } else if s.device.Busy? {
      BusyDeviceRuns(s);
      assert NoIssue(FETCH_AND_RUN);
    } else {
      PendingRunsBefore(s);
    }
  }

  lemma PendingRunsBefore(s: State)
    requires !s.device.Busy? && Held(s) != s.seqWord
    ensures !NothingRunsBefore(s)
  {
    var lead := Finishing(s.device);
    FinishingRuns(s);
    FinishingIsWithin(s.device);
    assert WithinCall(SERVE);
    hide Exec, Finishing, SERVE;
    PendingRuns(Exec(s, lead).value);
    ExecConcat(s, lead, SERVE);
    WithinBoth(lead, SERVE);
    assert NoIssue(lead + SERVE);
  }

  // ---- One command, run twice ----

  // Two executions of the same call, under two numbers.
  predicate RunsUnder(log: seq<Execution>, before: seq<Execution>, first: Word, second: Word, call: Call) {
    var n := |before|;
    && |log| == n + 2 && log[..n] == before
    && log[n].number == first && log[n].call == call && log[n + 1].number == second && log[n + 1].call == call
  }

  // With the device idle and an older number showing in SEQ and pending, all fields in place and some bytes
  // of the number left to write, the device runs the call under both.
  lemma BothRun(m: State)
    requires m.device.Idle? && m.seqWord != m.ackWord && m.seqWord != m.counter && HoldsFields(m)
    requires m.host.Writing? && m.host.slot == SeqSlot && Agree(m.seqWord, m.counter, m.host.done)
    ensures var es := COMPLETE + Accesses(4 - m.host.done) + SERVE;
            && WithinCall(es) && Exec(m, es).Some?
            && RunsUnder(Exec(m, es).value.log, m.log, m.seqWord, m.counter, m.call)
  {
    var rest: nat := 4 - m.host.done;
    AccessesAreWithin(rest);
    ServingIsWithin();
    hide Exec, Accesses, WithinCall;
    PendingCompletes(m);
    RestRun(Exec(m, COMPLETE).value);
    ExecConcat(m, COMPLETE, Accesses(rest));
    PendingRuns(Exec(m, COMPLETE + Accesses(rest)).value);
    ExecConcat(m, COMPLETE + Accesses(rest), SERVE);
    WithinBoth(COMPLETE, Accesses(rest));
    WithinBoth(COMPLETE + Accesses(rest), SERVE);
  }

  lemma ServingIsWithin()
    ensures WithinCall(COMPLETE) && WithinCall(SERVE)
  { }

  lemma BothRunAfter(m: State, lead: seq<Event>, first: Word) returns (es: seq<Event>)
    requires WithinCall(lead) && Exec(m, lead).Some?
    requires var t := Exec(m, lead).value;
             && t.device.Idle? && t.seqWord == first && first != t.ackWord && first != t.counter && HoldsFields(t)
             && t.host.Writing? && t.host.slot == SeqSlot && Agree(first, t.counter, t.host.done)
             && t.log == m.log && t.counter == m.counter && t.call == m.call
    ensures WithinCall(es) && Exec(m, es).Some?
    ensures RunsUnder(Exec(m, es).value.log, m.log, first, m.counter, m.call)
  {
    hide Exec, Accesses;
    var t := Exec(m, lead).value;
    BothRun(t);
    var tail := COMPLETE + Accesses(4 - t.host.done) + SERVE;
    ExecConcat(m, lead, tail);
    es := lead + tail;
  }

  // While an earlier request is pending, one call's command can run under the number still in SEQ, because
  // the fields are overwritten before SEQ is, and then under its own.
  lemma UnsettledRunsTwice(s: State, request: Request) returns (es: seq<Event>)
    requires s.host.Ready? && s.device.Idle? && s.seqWord !in {s.ackWord, NextNumber(s)}
    ensures WithinCall(es) && Exec(Issued(s, request), es).Some?
    ensures RunsUnder(Exec(Issued(s, request), es).value.log, s.log, s.seqWord, NextNumber(s), Asked(s, request))
  {
    hide Exec, NextNumber;
    var m := Issued(s, request);
    IssuedIsBegun(s, request);
    FieldsRun(m);
    WritesAreWithin(m.host);
    es := BothRunAfter(m, FieldsFrom(m.host), s.seqWord);
  }

  // Even from a settled mailbox it can run under a number of which only the first bytes are the new one's.
  lemma TornNumberRunsToo(s: State, request: Request) returns (es: seq<Event>)
    requires s.host.Ready? && s.device.Idle? && Settled(s) && !Atomic(s, NextNumber(s))
    ensures s.seqWord != NextNumber(s)
    ensures WithinCall(es) && Exec(Issued(s, request), es).Some?
    ensures RunsUnder(Exec(Issued(s, request), es).value.log, s.log, Torn(s.seqWord, NextNumber(s)), NextNumber(s), Asked(s, request))
  {
    TornIsNeither(s.seqWord, NextNumber(s));
    TornAgrees(s.seqWord, NextNumber(s));
    hide Exec, NextNumber, Torn, FirstDifference;
    var m := Issued(s, request);
    IssuedIsBegun(s, request);
    var tear := UpToTorn(m, s.seqWord);
    es := BothRunAfter(m, tear, Torn(s.seqWord, NextNumber(s)));
  }

  lemma TornAgrees(v: Word, w: Word)
    requires Distance(v, w) > 1
    ensures FirstDifference(v, w) < 3 && Agree(Torn(v, w), w, FirstDifference(v, w) + 1)
  { }

  // The first number that a torn store repeats: call 512 from a mailbox settled at 511 also runs under 256.
  lemma Call512RunsUnder256(s: State, request: Request) returns (es: seq<Event>)
    requires s.host.Ready? && s.device.Idle? && Value(s.counter) == 511 && s.seqWord == s.ackWord == s.counter
    ensures WithinCall(es) && Exec(Issued(s, request), es).Some?
    ensures exists torn, own ::
              && Value(torn) == 256 && Value(own) == 512
              && RunsUnder(Exec(Issued(s, request), es).value.log, s.log, torn, own, Asked(s, request))
  {
    assert s.counter == Word(255, 1, 0, 0);
    assert NextNumber(s) == Word(0, 2, 0, 0) && Torn(s.seqWord, NextNumber(s)) == Word(0, 1, 0, 0);
    es := TornNumberRunsToo(s, request);
    assert Value(Word(0, 1, 0, 0)) == 256 && Value(Word(0, 2, 0, 0)) == 512;
  }
}
