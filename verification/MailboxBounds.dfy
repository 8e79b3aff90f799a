/**
 The exact number of commands after which a session can go wrong, for every number at which the mailbox can
 have been left.
 */
module MailboxBounds {
  import opened Prelude
  import opened Mailbox
  import opened MailboxCall
  import opened MailboxOutcome
  import opened MailboxQuiet
  import opened MailboxSession

  // ---- Without failed accesses: up to 511 calls ----

  // Numbers below 512.
  predicate Medium(w: Word) {
    w.b1 <= 1 && w.b2 == 0 && w.b3 == 0
  }

  // The order in which SEQ takes its values: 1 to 255, the torn zero of call 256, 256 to 511.
  function Rank(w: Word): nat {
    if w == ZERO then 256 else if w.b1 == 0 then w.b0 else 257 + w.b0
  }

  predicate HalfWay256(s: State) {
    s.host == Writing(SeqSlot, 1) && s.counter == N256
  }

  // The mailbox was left at a number whose first change tears 257.
  predicate Tears257(w: Word) {
    w.b0 != 1 && w.b1 == 1 && w.b2 == w.b3 == 0
  }

  // How many bytes of the number are in SEQ.
  function BytesOut(h: Host): nat
    requires h.Writing?
  {
    if h.slot == SeqSlot then h.done else 0
  }

  // In the first call SEQ changes byte by byte from where it was left to one.
  ghost predicate FirstInv(s: State, w: Word)
    requires s.host.Writing?
  {
    var d := BytesOut(s.host);
    && Agree(s.seqWord, ONE, d) && AgreeFrom(s.seqWord, w, d) && (d == 0 ==> s.written == [])
    && forall v :: v in s.written ==> AgreeFrom(v, w, d) && (Medium(v) ==> v == ONE)
  }

  ghost predicate LaterInv(s: State) {
    var c := s.counter;
    && Medium(s.seqWord)
    && (Early(s.host) ==> Next(s.seqWord) == c)
    && (!Early(s.host) ==> s.seqWord == if HalfWay256(s) then ZERO else c)
    && (s.seqWord == ZERO ==> HalfWay256(s))
    && (forall v :: v in s.written && Medium(v) ==> Rank(v) <= Rank(s.seqWord))
  }

  ghost predicate FreeInv(s: State, w: Word) {
    && Distinct(s.written) && Medium(s.counter)
    && if s.counter == ZERO then s.written == [] && s.seqWord == w && !s.host.Writing?
       else if s.counter == ONE && s.host.Writing? then FirstInv(s, w)
       else LaterInv(s)
  }

  lemma FirstStoreKeepsFree(s: State, w: Word)
    requires FreeInv(s, w) && !Tears257(w) && s.host.Writing? && s.counter == ONE
    ensures FreeInv(Accessed(s), w)
  {
    hide Distinct;
    var t := Stored(s, s.host.slot, s.host.done);
    if s.host.slot == SeqSlot && t.seqWord != s.seqWord {
      assert t.seqWord !in s.written;
      AppendDistinct(s.written, t.seqWord);
      assert forall v :: v in t.written <==> v in s.written || v == t.seqWord;
    }
  }

  lemma LaterStoreKeepsFree(s: State, w: Word)
    requires FreeInv(s, w) && s.host.Writing? && s.counter != ONE
    ensures FreeInv(Accessed(s), w)
  {
    hide Distinct;
    var t := Stored(s, s.host.slot, s.host.done);
    if s.host.slot == SeqSlot && t.seqWord != s.seqWord {
      assert Medium(t.seqWord) && Rank(s.seqWord) < Rank(t.seqWord);
      assert t.seqWord !in s.written;
      AppendDistinct(s.written, t.seqWord);
      assert forall v :: v in t.written <==> v in s.written || v == t.seqWord;
    }
  }

  lemma IssueKeepsFree(s: State, request: Request, w: Word)
    requires FreeInv(s, w) && s.host.Ready? && s.counter != Word(255, 1, 0, 0)
    ensures FreeInv(Issued(s, request), w)
  {
    hide Distinct, Rank;
  }

  // Nothing else touches SEQ or begins to.
  lemma SameSeqKeepsFree(s: State, t: State, w: Word)
    requires FreeInv(s, w) && t.counter == s.counter && t.seqWord == s.seqWord && t.written == s.written
    requires t.host == s.host || (!s.host.Writing? && !t.host.Writing?)
    ensures FreeInv(t, w)
  {
    hide Distinct, Rank, Medium, Agree, AgreeFrom;
  }

  lemma OtherStepsKeepSeq(s: State, e: Event)
    requires Apply(s, e).Some? && !e.Issue? && !e.AccessFails? && !(e.Access? && s.host.Writing?)
    ensures var t := Apply(s, e).value;
            && t.counter == s.counter && t.seqWord == s.seqWord && t.written == s.written
            && (t.host == s.host || (!s.host.Writing? && !t.host.Writing?))
  {
    hide Put, ByteAt, DataAt;
  }

  lemma StepKeepsFree(s: State, e: Event, w: Word)
    requires FreeInv(s, w) && !Tears257(w) && Apply(s, e).Some? && !e.AccessFails?
    requires e.Issue? ==> s.counter != Word(255, 1, 0, 0)
    ensures FreeInv(Apply(s, e).value, w)
  {
    hide FreeInv, Stored, AfterWrite, DeviceStep;
    if e.Issue? {
      IssueKeepsFree(s, e.request, w);
    } else if e.Access? && s.host.Writing? {
      if s.counter == ONE {
        FirstStoreKeepsFree(s, w);
      } else {
        LaterStoreKeepsFree(s, w);
      }
    } else {
      OtherStepsKeepSeq(s, e);
      SameSeqKeepsFree(s, Apply(s, e).value, w);
    }
  }

  lemma ValueBelow511(w: Word)
    ensures Value(w) < 511 ==> w != Word(255, 1, 0, 0)
  {
    hide Value;
    LowByteOnly(w);
  }

  // What a client does: it lets accesses fail or not, and it is the server or the smoke test.
  ghost predicate Proper(es: seq<Event>, faults: bool, server: bool) {
    forall k :: 0 <= k < |es| ==> IsProper(es[k], faults, server)
  }

  predicate IsProper(e: Event, faults: bool, server: bool) {
    && (e.AccessFails? ==> faults)
    && (e.Issue? ==> (e.request.Bare? <==> server))
    && (e.Prepare? ==> server)
  }

  lemma ProperFront(es: seq<Event>, faults: bool, server: bool)
    requires es != [] && Proper(es, faults, server)
    ensures Proper(es[..|es| - 1], faults, server) && IsProper(es[|es| - 1], faults, server)
  { }

  lemma FreeAtFirst(s: State, w: Word)
    requires Initial(s, w)
    ensures FreeInv(s, w)
  {
    DistinctNothing();
  }

  lemma {:induction false} LongSessions(s: State, w: Word, es: seq<Event>, server: bool)
    requires Initial(s, w) && !Tears257(w)
    requires Exec(s, es).Some? && Proper(es, false, server) && Calls(es) <= 511
    ensures FreeInv(Exec(s, es).value, w)
    decreases |es|
  {
    hide Exec, FreeInv, Apply, Proper;
    if es == [] {
      ExecNothing(s);
      FreeAtFirst(s, w);
    } else {
      LastStep(s, es);
      var front := es[..|es| - 1];
      CallsOfFront(es);
      ProperFront(es, false, server);
      LongSessions(s, w, front, server);
      CounterCounts(s, front);
      ValueBelow511(Exec(s, front).value.counter);
      StepKeepsFree(Exec(s, front).value, es[|es| - 1], w);
    }
  }

  lemma FreeIsDistinct(s: State, w: Word)
    requires FreeInv(s, w)
    ensures Distinct(s.written)
  { }

  // ---- Pieces of a client's run ----

  // So many calls, made as this client makes them, without failed accesses unless they are allowed.
  ghost predicate Fits(es: seq<Event>, calls: nat, faults: bool, server: bool) {
    Calls(es) == calls && Proper(es, faults, server)
  }

  lemma {:induction false} CallsConcat(a: seq<Event>, b: seq<Event>)
    ensures Calls(a + b) == Calls(a) + Calls(b)
    decreases |b|
  {
    if b == [] {
      assert a + b == a;
    } else {
      assert (a + b)[..|a + b| - 1] == a + b[..|b| - 1];
      CallsConcat(a, b[..|b| - 1]);
    }
  }

  lemma FitsBoth(a: seq<Event>, m: nat, b: seq<Event>, n: nat, faults: bool, server: bool)
    requires Fits(a, m, faults, server) && Fits(b, n, faults, server)
    ensures Fits(a + b, m + n, faults, server)
  {
    hide Calls;
    CallsConcat(a, b);
  }

  lemma NothingFits(faults: bool, server: bool)
    ensures Fits([], 0, faults, server)
  { }

  lemma {:induction false} CallsWithin(es: seq<Event>)
    requires WithinCall(es)
    ensures Calls(es) == 0
    decreases |es|
  {
    if es != [] {
      CallsWithin(es[..|es| - 1]);
    }
  }

  // The part of a call after its issue, or nothing the client does.
  ghost predicate Rest(es: seq<Event>) {
    forall k :: 0 <= k < |es| ==> !es[k].Issue? && !es[k].Prepare? && !es[k].AccessFails?
  }

  lemma RestBoth(a: seq<Event>, b: seq<Event>)
    requires Rest(a) && Rest(b)
    ensures Rest(a + b)
  { }

  lemma RestFits(es: seq<Event>, faults: bool, server: bool)
    requires Rest(es)
    ensures Fits(es, 0, faults, server)
  {
    assert WithinCall(es);
    hide Calls;
    CallsWithin(es);
  }

  lemma ShortParts()
    ensures Rest(FOUR) && Rest(SERVE) && Rest(COMPLETE) && Rest([Access])
  { }

  lemma WritesAreRest(h: Host)
    ensures Rest(FieldsFrom(h)) && Rest(WritesFrom(h))
  {
    ShortParts();
    hide Rest, FOUR;
    RestBoth(FOUR, FOUR);
    RestBoth(FOUR + FOUR, FOUR);
    RestBoth(FieldsFrom(h), FOUR);
  }

  // ---- One call in different ways ----

  function AnyRequest(server: bool): Request {
    if server then Bare(ZERO) else WithArgs(Call(ZERO, ZERO, ZERO))
  }

  function FirstSlot(server: bool): Host {
    Writing(if server then CommandSlot else Arg0Slot, 0)
  }

  function Opening(server: bool): seq<Event> {
    [Issue(AnyRequest(server))]
  }

  lemma OpeningFits(faults: bool, server: bool)
    ensures Fits(Opening(server), 1, faults, server)
  {
    assert Opening(server)[..0] == [];
    assert Calls([]) == 0;
  }

  // An issue and a rest of a call.
  lemma CallFits(es: seq<Event>, faults: bool, server: bool)
    requires Rest(es)
    ensures Fits(Opening(server) + es, 1, faults, server)
  {
    hide Fits, Rest, Opening;
    OpeningFits(faults, server);
    RestFits(es, faults, server);
    FitsBoth(Opening(server), 1, es, 0, faults, server);
  }

  lemma Opens(s: State, server: bool)
    requires s.host.Ready?
    ensures var m := Issued(s, AnyRequest(server));
            Exec(s, Opening(server)) == Some(m) && m.host == FirstSlot(server) && Begun(m)
  {
    hide Exec;
    ExecOne(s, Issue(AnyRequest(server)));
  }

  // A whole call that the device serves at once.
  function CleanRest(server: bool): seq<Event> {
    WritesFrom(FirstSlot(server)) + COMPLETE + FOUR + FOUR
  }

  function Clean(server: bool): seq<Event> {
    Opening(server) + CleanRest(server)
  }

  lemma CleanFits(faults: bool, server: bool)
    ensures Fits(Clean(server), 1, faults, server)
  {
    WritesAreRest(FirstSlot(server));
    ShortParts();
    hide Rest, Fits, WritesFrom, COMPLETE, FOUR;
    var writes := WritesFrom(FirstSlot(server));
    RestBoth(writes, COMPLETE);
    RestBoth(writes + COMPLETE, FOUR);
    RestBoth(writes + COMPLETE + FOUR, FOUR);
    CallFits(CleanRest(server), faults, server);
  }

  // Everything asked for has been run and answered, and the counter is at k.
  predicate Served(t: State, k: nat) {
    t.host.Ready? && t.device.Idle? && t.seqWord == t.ackWord == t.counter && Value(t.counter) == k
  }

  lemma CleanRun(s: State, server: bool)
    requires s.host.Ready? && s.device.Idle? && s.seqWord == s.ackWord != NextNumber(s)
    ensures Exec(s, Clean(server)).Some?
    ensures var t := Exec(s, Clean(server)).value; var n := NextNumber(s);
            && t.host.Ready? && t.device.Idle? && t.seqWord == t.ackWord == t.counter == n
            && |t.log| == |s.log| + 1 && t.log[..|s.log|] == s.log && t.log[|s.log|].number == n
  {
    hide Exec, NextNumber, WritesFrom, Begun, Asked;
    Opens(s, server);
    var m := Issued(s, AnyRequest(server));
    var writes := WritesFrom(FirstSlot(server));
    WritesRun(m);
    PendingCompletes(Exec(m, writes).value);
    ExecConcat(m, writes, COMPLETE);
    AckRun(Exec(m, writes + COMPLETE).value);
    ExecConcat(m, writes + COMPLETE, FOUR);
    StatusRun(Exec(m, writes + COMPLETE + FOUR).value);
    ExecConcat(m, writes + COMPLETE + FOUR, FOUR);
    ExecConcat(s, Opening(server), CleanRest(server));
  }

  lemma NextDiffers(w: Word)
    ensures Next(w) != w
  { }

  // A log that has grown still shows what ran before.
  lemma RanGrows(log: seq<Execution>, longer: seq<Execution>, w: Word)
    requires log <= longer && Ran(log, w)
    ensures Ran(longer, w)
  {
    var k :| 0 <= k < |log| && log[k].number == w;
    assert longer[k].number == w;
  }

  lemma RanTwice(log: seq<Execution>, longer: seq<Execution>, w: Word)
    requires log <= longer && |log| < |longer| && Ran(log, w) && longer[|log|].number == w
    ensures !NoRepeats(longer)
  {
    var k :| 0 <= k < |log| && log[k].number == w;
    assert longer[k].number == longer[|log|].number;
  }

  function Cleans(k: nat, server: bool): seq<Event> {
    if k == 0 then [] else Cleans(k - 1, server) + Clean(server)
  }

  lemma {:induction false} CleansFit(k: nat, faults: bool, server: bool)
    ensures Fits(Cleans(k, server), k, faults, server)
  {
    hide Fits, Clean;
    if k == 0 {
      NothingFits(faults, server);
    } else {
      CleansFit(k - 1, faults, server);
      CleanFits(faults, server);
      FitsBoth(Cleans(k - 1, server), k - 1, Clean(server), 1, faults, server);
    }
  }

  lemma CleanStep(m: State, k: nat, server: bool)
    requires Served(m, k) && k + 1 < TWO_32
    ensures Exec(m, Clean(server)).Some?
    ensures var t := Exec(m, Clean(server)).value;
            Served(t, k + 1) && m.log <= t.log && Ran(t.log, t.counter)
  {
    hide Exec, Clean, Next, Value;
    NextValue(m.counter);
    NextDiffers(m.counter);
    CleanRun(m, server);
    assert Exec(m, Clean(server)).value.log[|m.log|].number == NextNumber(m);
  }

  // The numbers after `from` run one by one.
  lemma {:induction false} CleansRun(s: State, from: nat, k: nat, server: bool)
    requires Served(s, from) && from + k < TWO_32
    ensures Exec(s, Cleans(k, server)).Some?
    ensures var t := Exec(s, Cleans(k, server)).value;
            Served(t, from + k) && s.log <= t.log && RanAll(t.log, from, from + k)
  {
    hide Exec, Clean, Served, Ran;
    if k == 0 {
      ExecNothing(s);
    } else {
      CleansRun(s, from, k - 1, server);
      var m := Exec(s, Cleans(k - 1, server)).value;
      CleanStep(m, from + k - 1, server);
      ExecConcat(s, Cleans(k - 1, server), Clean(server));
      OneMoreRan(m.log, Exec(m, Clean(server)).value, from, from + k);
    }
  }

  // The numbers above `from` up to `to` have run.
  ghost predicate RanAll(log: seq<Execution>, from: nat, to: nat) {
    forall v :: from < Value(v) <= to ==> Ran(log, v)
  }

  lemma OneMoreRan(log: seq<Execution>, t: State, from: nat, to: nat)
    requires to >= 1 && RanAll(log, from, to - 1) && log <= t.log && Ran(t.log, t.counter) && Served(t, to)
    ensures RanAll(t.log, from, to)
  {
    hide Value, Ran;
    forall v | from < Value(v) <= to ensures Ran(t.log, v) {
      if Value(v) == to {
        ValueInjective(v, t.counter);
      } else {
        RanGrows(log, t.log, v);
      }
    }
  }

  // A call that finds ACK at its number already.
  function Stale(server: bool): seq<Event> {
    Opening(server) + FinishFrom(FirstSlot(server))
  }

  lemma StaleFits(faults: bool, server: bool)
    ensures Fits(Stale(server), 1, faults, server)
  {
    WritesAreRest(FirstSlot(server));
    ShortParts();
    hide Rest, Fits, WritesFrom, FOUR;
    var writes := WritesFrom(FirstSlot(server));
    RestBoth(writes, FOUR);
    RestBoth(writes + FOUR, FOUR);
    CallFits(FinishFrom(FirstSlot(server)), faults, server);
  }

  lemma StaleCall(s: State, server: bool)
    requires s.host.Ready? && s.ackWord == NextNumber(s)
    ensures Exec(s, Stale(server)).Some?
    ensures var t := Exec(s, Stale(server)).value;
            && t.host == Ready(Returned(s.status)) && t.log == s.log && t.device == s.device
            && t.seqWord == t.ackWord == t.counter == NextNumber(s)
  {
    hide Exec, NextNumber, FinishFrom, Begun, Asked;
    Opens(s, server);
    StaleRun(Issued(s, AnyRequest(server)));
    ExecConcat(s, Opening(server), FinishFrom(FirstSlot(server)));
  }

  // The first call of a session: served, unless the mailbox was left at its number.
  function First(w: Word, server: bool): seq<Event> {
    if w == ONE then Stale(server) else Clean(server)
  }

  lemma FirstFits(w: Word, faults: bool, server: bool)
    ensures Fits(First(w, server), 1, faults, server)
  {
    hide Fits;
    CleanFits(faults, server);
    StaleFits(faults, server);
  }

  lemma FirstRun(s: State, w: Word, server: bool)
    requires Begins(s, w)
    ensures Exec(s, First(w, server)).Some?
    ensures var t := Exec(s, First(w, server)).value;
            && Served(t, 1) && s.log <= t.log
            && (w != ONE ==> |t.log| == |s.log| + 1 && t.log[|s.log|].number == ONE && t.ackWord == ONE)
  {
    hide Value;
    SmallValues();
    assert NextNumber(s) == ONE;
    hide Exec, Clean, Stale, Next;
    if w == ONE {
      StaleCall(s, server);
    } else {
      CleanRun(s, server);
    }
  }

  // A call that fails at its first access only moves the counter.
  function Skip(server: bool): seq<Event> {
    Opening(server) + [AccessFails(false)]
  }

  lemma SkipFits(server: bool)
    ensures Fits(Skip(server), 1, true, server)
  {
    var e := [AccessFails(false)];
    OpeningFits(true, server);
    assert e[..0] == [] && Calls([]) == 0;
    assert Fits(e, 0, true, server);
    hide Fits, Opening;
    FitsBoth(Opening(server), 1, e, 0, true, server);
  }

  lemma SkipRun(s: State, server: bool)
    requires s.host.Ready?
    ensures Exec(s, Skip(server)).Some?
    ensures var t := Exec(s, Skip(server)).value;
            t == s.(counter := NextNumber(s), call := t.call, host := Ready(Failed(Bus)))
  {
    hide Exec, Asked;
    Opens(s, server);
    ExecSnoc(s, Opening(server), AccessFails(false));
  }

  function Skips(k: nat, server: bool): seq<Event> {
    if k == 0 then [] else Skips(k - 1, server) + Skip(server)
  }

  lemma {:induction false} SkipsFit(k: nat, server: bool)
    ensures Fits(Skips(k, server), k, true, server)
  {
    hide Fits, Skip;
    if k == 0 {
      NothingFits(true, server);
    } else {
      SkipsFit(k - 1, server);
      SkipFits(server);
      FitsBoth(Skips(k - 1, server), k - 1, Skip(server), 1, true, server);
    }
  }

  lemma {:induction false} SkipsRun(s: State, k: nat, server: bool)
    requires s.host.Ready? && Value(s.counter) + k < TWO_32
    ensures Exec(s, Skips(k, server)).Some?
    ensures var t := Exec(s, Skips(k, server)).value;
            && t == s.(counter := t.counter, call := t.call, host := t.host)
            && t.host.Ready? && Value(t.counter) == Value(s.counter) + k
  {
    hide Exec, Next, Value, Skip;
    if k == 0 {
      ExecNothing(s);
    } else {
      SkipsRun(s, k - 1, server);
      var m := Exec(s, Skips(k - 1, server)).value;
      SkipRun(m, server);
      NextValue(m.counter);
      ExecConcat(s, Skips(k - 1, server), Skip(server));
    }
  }

  // A call up to the first byte of SEQ, and what the device makes of it.
  function TornRest(server: bool): seq<Event> {
    FieldsFrom(FirstSlot(server)) + [Access] + SERVE
  }

  function TornCall(server: bool): seq<Event> {
    Opening(server) + TornRest(server)
  }

  lemma TornFits(faults: bool, server: bool)
    ensures Fits(TornCall(server), 1, faults, server)
  {
    WritesAreRest(FirstSlot(server));
    ShortParts();
    hide Rest, Fits, FieldsFrom, SERVE;
    var fields := FieldsFrom(FirstSlot(server));
    RestBoth(fields, [Access]);
    RestBoth(fields + [Access], SERVE);
    CallFits(TornRest(server), faults, server);
  }

  lemma TornRun(s: State, server: bool)
    requires s.host.Ready? && s.device.Idle?
    requires Put(s.seqWord, 0, NextNumber(s).b0) != s.ackWord
    ensures Exec(s, TornCall(server)).Some?
    ensures var t := Exec(s, TornCall(server)).value;
            s.log <= t.log && |s.log| < |t.log| && t.log[|s.log|].number == Put(s.seqWord, 0, NextNumber(s).b0)
  {
    hide Exec, NextNumber, FieldsFrom, Begun, Asked;
    Opens(s, server);
    var m := Issued(s, AnyRequest(server));
    var fields := FieldsFrom(FirstSlot(server));
    FieldsRun(m);
    ExecSnoc(m, fields, Access);
    PendingRuns(Exec(m, fields + [Access]).value);
    ExecConcat(m, fields + [Access], SERVE);
    ExecConcat(s, Opening(server), TornRest(server));
  }

  // ---- Calls that time out ----

  lemma {:induction false} PollsAreRest(k: nat)
    ensures Rest(Polls(k))
  {
    if k > 0 {
      PollsAreRest(k - 1);
      ShortParts();
      hide Rest, FOUR;
      RestBoth(Polls(k - 1), FOUR);
    }
  }

  function TimedOutRest(server: bool): seq<Event> {
    WritesFrom(FirstSlot(server)) + Polls(100_000)
  }

  function TimedOut(server: bool): seq<Event> {
    Opening(server) + TimedOutRest(server)
  }

  lemma TimedOutFits(faults: bool, server: bool)
    ensures Fits(TimedOut(server), 1, faults, server)
  {
    WritesAreRest(FirstSlot(server));
    hide Rest, Fits, WritesFrom, Polls;
    PollsAreRest(100_000);
    RestBoth(WritesFrom(FirstSlot(server)), Polls(100_000));
    CallFits(TimedOutRest(server), faults, server);
  }

  // A call that no one answers leaves its fields and its number behind.
  lemma TimeoutRun(s: State, server: bool)
    requires s.host.Ready? && NextNumber(s) != s.ackWord
    ensures Exec(s, TimedOut(server)).Some?
    ensures var t := Exec(s, TimedOut(server)).value;
            && t.counter == t.seqWord == NextNumber(s) && t.host == Ready(Failed(Timeout))
            && t.ackWord == s.ackWord && t.device == s.device && t.log == s.log && t.status == s.status
  {
    hide Exec, Polls, NextNumber, WritesFrom, Begun, Asked;
    Opens(s, server);
    var m := Issued(s, AnyRequest(server));
    var writes := WritesFrom(FirstSlot(server));
    WritesRun(m);
    PollsRun(Exec(m, writes).value, 100_000);
    ExecConcat(m, writes, Polls(100_000));
    ExecConcat(s, Opening(server), TimedOutRest(server));
  }

  function Timeouts(k: nat, server: bool): seq<Event> {
    if k == 0 then [] else Timeouts(k - 1, server) + TimedOut(server)
  }

  lemma {:induction false} TimeoutsFit(k: nat, faults: bool, server: bool)
    ensures Fits(Timeouts(k, server), k, faults, server)
  {
    hide Fits, TimedOut;
    if k == 0 {
      NothingFits(faults, server);
    } else {
      TimeoutsFit(k - 1, faults, server);
      TimedOutFits(faults, server);
      FitsBoth(Timeouts(k - 1, server), k - 1, TimedOut(server), 1, faults, server);
    }
  }

  // Nothing has been served since s, and the counter is at k.
  predicate Neglected(t: State, s: State, k: nat) {
    && t.host.Ready? && t.device.Idle? && t.ackWord == s.ackWord && t.log == s.log && t.status == s.status
    && Value(t.counter) == k
  }

  lemma NeglectStep(m: State, s: State, k: nat, server: bool)
    requires Neglected(m, s, k) && k + 1 < TWO_32 && Value(s.ackWord) != k + 1
    ensures Exec(m, TimedOut(server)).Some? && Neglected(Exec(m, TimedOut(server)).value, s, k + 1)
  {
    hide Exec, Next, Value, TimedOut;
    NextValue(m.counter);
    TimeoutRun(m, server);
  }

  lemma {:induction false} TimeoutsRun(s: State, from: nat, k: nat, server: bool)
    requires Neglected(s, s, from) && from + k < TWO_32 && !(from < Value(s.ackWord) <= from + k)
    ensures Exec(s, Timeouts(k, server)).Some? && Neglected(Exec(s, Timeouts(k, server)).value, s, from + k)
  {
    hide Exec, TimedOut, Neglected, Value;
    if k == 0 {
      ExecNothing(s);
    } else {
      TimeoutsRun(s, from, k - 1, server);
      NeglectStep(Exec(s, Timeouts(k - 1, server)).value, s, from + k - 1, server);
      ExecConcat(s, Timeouts(k - 1, server), TimedOut(server));
    }
  }

  // A call that times out, and that the device takes after all.
  function Late(server: bool): seq<Event> {
    TimedOut(server) + SERVE
  }

  lemma LateFits(faults: bool, server: bool)
    ensures Fits(Late(server), 1, faults, server)
  {
    ShortParts();
    hide Fits, Rest, TimedOut, SERVE;
    TimedOutFits(faults, server);
    RestFits(SERVE, faults, server);
    FitsBoth(TimedOut(server), 1, SERVE, 0, faults, server);
  }

  lemma LateRun(s: State, server: bool)
    requires s.host.Ready? && s.device.Idle? && NextNumber(s) != s.ackWord
    ensures Exec(s, Late(server)).Some?
    ensures var t := Exec(s, Late(server)).value; var n := NextNumber(s);
            && t.host.Ready? && t.device == Mailbox.Device.Answered(n) && t.ackWord == s.ackWord && t.counter == n
            && |t.log| == |s.log| + 1 && t.log[..|s.log|] == s.log && t.log[|s.log|].number == n
  {
    hide Exec, NextNumber, TimedOut;
    TimeoutRun(s, server);
    PendingRuns(Exec(s, TimedOut(server)).value);
    ExecConcat(s, TimedOut(server), SERVE);
  }

  // A call that reads ACK in the middle of its change.
  function Misread(j: nat, server: bool): seq<Event>
    requires 1 <= j <= 3
  {
    Opening(server) + SplitFinish(FirstSlot(server), j)
  }

  lemma MisreadFits(j: nat, faults: bool, server: bool)
    requires 1 <= j <= 3
    ensures Fits(Misread(j, server), 1, faults, server)
  {
    WritesAreRest(FirstSlot(server));
    ShortParts();
    assert Rest(Split(j));
    hide Rest, Fits, WritesFrom, FOUR, Split;
    var writes := WritesFrom(FirstSlot(server));
    RestBoth(writes, Split(j));
    RestBoth(writes + Split(j), FOUR);
    CallFits(SplitFinish(FirstSlot(server), j), faults, server);
  }

  lemma MisreadRun(s: State, j: nat, server: bool)
    requires 1 <= j <= 3 && s.host.Ready? && s.device.Answered?
    requires Agree(s.ackWord, NextNumber(s), j) && AgreeFrom(s.device.number, NextNumber(s), j)
    ensures ReturnsIn(s, Misread(j, server))
    ensures var t := Exec(s, Misread(j, server)).value; t.log == s.log && t.counter == NextNumber(s)
  {
    hide Exec, NextNumber, Agree, AgreeFrom, SplitFinish, Begun, Asked;
    Opens(s, server);
    SplitFinishRun(Issued(s, AnyRequest(server)), j);
    ExecConcat(s, Opening(server), SplitFinish(FirstSlot(server), j));
  }

  // ---- Sessions in which a number runs twice ----

  lemma WordOfValue(w: Word)
    ensures Value(w) == 1 ==> w == ONE
    ensures Value(w) == 2 ==> w == Word(2, 0, 0, 0)
    ensures Value(w) == 3 ==> w == Word(3, 0, 0, 0)
    ensures Value(w) == 256 ==> w == N256
    ensures Value(w) == 257 ==> w == Word(1, 1, 0, 0)
    ensures Value(w) == 511 ==> w == Word(255, 1, 0, 0)
  {
    hide Value;
    var low: byte := Value(w) % 256;
    var v := Word(low, if Value(w) < 256 then 0 else 1, 0, 0);
    LowByteOnly(v);
    if Value(w) < 512 { ValueInjective(w, v); }
  }

  // How many commands of a session are sure to run under numbers of their own.
  function NumberBound(w: Word, faults: bool): nat {
    if faults then (if w == ONE then 257 else 256)
    else if Tears257(w) then 256 else 511
  }

  lemma SmallValues()
    ensures Value(ZERO) == 0 && Value(ONE) == 1 && Value(Word(2, 0, 0, 0)) == 2
    ensures Value(N256) == 256 && Value(Word(1, 1, 0, 0)) == 257
  {
    hide Value;
    LowByteOnly(ZERO);
    LowByteOnly(ONE);
    LowByteOnly(Word(2, 0, 0, 0));
    LowByteOnly(N256);
    LowByteOnly(Word(1, 1, 0, 0));
  }

  // With failing accesses: the lowest byte of the number comes round after 256 calls, over a SEQ that still
  // has an early number.
  lemma ReuseWithFaults(s: State, w: Word, server: bool) returns (es: seq<Event>)
    requires Begins(s, w)
    ensures Exec(s, es).Some? && Fits(es, NumberBound(w, true) + 1, true, server)
    ensures !NoRepeats(Exec(s, es).value.log)
  {
    SmallValues();
    hide Exec, Skips, Cleans, First, TornCall, Value, Fits, Next;
    var late: nat := if w == ONE then 1 else 0;
    FirstRun(s, w, server);
    var a := Exec(s, First(w, server)).value;
    CleansRun(a, 1, 1 + late, server);
    var b := Exec(a, Cleans(1 + late, server)).value;
    ExecConcat(s, First(w, server), Cleans(1 + late, server));
    SkipsRun(b, 254, server);
    var c := Exec(b, Skips(254, server)).value;
    ExecConcat(s, First(w, server) + Cleans(1 + late, server), Skips(254, server));
    WordOfValue(b.counter);
    WordOfValue(c.counter);
    TornNumber(c, late);
    var early := if w == ONE then Word(2, 0, 0, 0) else ONE;
    if w == ONE {
      assert Ran(b.log, early);
    } else {
      assert a.log[|s.log|].number == early;
      RanGrows(a.log, b.log, early);
    }
    TornRun(c, server);
    ExecConcat(s, First(w, server) + Cleans(1 + late, server) + Skips(254, server), TornCall(server));
    es := First(w, server) + Cleans(1 + late, server) + Skips(254, server) + TornCall(server);
    RanTwice(c.log, Exec(s, es).value.log, early);
    FirstFits(w, true, server);
    CleansFit(1 + late, true, server);
    SkipsFit(254, server);
    TornFits(true, server);
    FitsBoth(First(w, server), 1, Cleans(1 + late, server), 1 + late, true, server);
    FitsBoth(First(w, server) + Cleans(1 + late, server), 2 + late, Skips(254, server), 254, true, server);
    FitsBoth(First(w, server) + Cleans(1 + late, server) + Skips(254, server), 256 + late,
             TornCall(server), 1, true, server);
  }

  // What the first byte of number 257 or 258 makes of a SEQ at two or three.
  lemma TornNumber(c: State, late: nat)
    requires late <= 1 && c.seqWord == Word(2 + late, 0, 0, 0) && Value(c.counter) == 256 + late
    ensures Put(c.seqWord, 0, NextNumber(c).b0) == Word(1 + late, 0, 0, 0)
  {
    WordOfValue(c.counter);
  }

  // Without: call 512 makes SEQ 256 again.
  lemma Reuse512(s: State, w: Word, server: bool) returns (es: seq<Event>)
    requires Begins(s, w)
    ensures Exec(s, es).Some? && Fits(es, 512, false, server)
    ensures !NoRepeats(Exec(s, es).value.log)
  {
    SmallValues();
    hide Exec, Cleans, First, TornCall, Value, Fits;
    FirstRun(s, w, server);
    var a := Exec(s, First(w, server)).value;
    CleansRun(a, 1, 510, server);
    var b := Exec(a, Cleans(510, server)).value;
    ExecConcat(s, First(w, server), Cleans(510, server));
    WordOfValue(b.counter);
    assert Ran(b.log, N256);
    TornRun(b, server);
    ExecConcat(s, First(w, server) + Cleans(510, server), TornCall(server));
    es := First(w, server) + Cleans(510, server) + TornCall(server);
    RanTwice(b.log, Exec(s, es).value.log, N256);
    FirstFits(w, false, server);
    CleansFit(510, false, server);
    TornFits(false, server);
    FitsBoth(First(w, server), 1, Cleans(510, server), 510, false, server);
    FitsBoth(First(w, server) + Cleans(510, server), 511, TornCall(server), 1, false, server);
  }

  // A first call that the device also runs under the torn number.
  function TwiceRest(server: bool): seq<Event> {
    (FieldsFrom(FirstSlot(server)) + [Access] + COMPLETE) + (Accesses(3) + COMPLETE + FOUR + FOUR)
  }

  function TwiceCall(server: bool): seq<Event> {
    Opening(server) + TwiceRest(server)
  }

  lemma TwiceFits(faults: bool, server: bool)
    ensures Fits(TwiceCall(server), 1, faults, server)
  {
    WritesAreRest(FirstSlot(server));
    ShortParts();
    assert Rest(Accesses(3));
    hide Rest, Fits, FieldsFrom, COMPLETE, FOUR, Accesses;
    var fields := FieldsFrom(FirstSlot(server));
    RestBoth(fields, [Access]);
    RestBoth(fields + [Access], COMPLETE);
    RestBoth(Accesses(3), COMPLETE);
    RestBoth(Accesses(3) + COMPLETE, FOUR);
    RestBoth(Accesses(3) + COMPLETE + FOUR, FOUR);
    RestBoth(fields + [Access] + COMPLETE, Accesses(3) + COMPLETE + FOUR + FOUR);
    CallFits(TwiceRest(server), faults, server);
  }

  lemma TwiceTorn(m: State, w: Word)
    requires Begun(m) && m.counter == ONE && m.device.Idle? && m.seqWord == m.ackWord == w && Tears257(w)
    ensures var es := FieldsFrom(m.host) + [Access] + COMPLETE;
            && Exec(m, es).Some?
            && var t := Exec(m, es).value;
               && t.host == Writing(SeqSlot, 1) && t.device.Idle? && t.counter == ONE
               && t.seqWord == t.ackWord == Word(1, 1, 0, 0) && HoldsFields(t)
               && |t.log| == |m.log| + 1 && m.log <= t.log && t.log[|m.log|].number == Word(1, 1, 0, 0)
  {
    hide Exec, FieldsFrom, Begun;
    var fields := FieldsFrom(m.host);
    FieldsRun(m);
    ExecSnoc(m, fields, Access);
    PendingCompletes(Exec(m, fields + [Access]).value);
    ExecConcat(m, fields + [Access], COMPLETE);
  }

  lemma TwiceEnds(m: State)
    requires m.host == Writing(SeqSlot, 1) && m.device.Idle? && m.counter == ONE
    requires m.seqWord == m.ackWord == Word(1, 1, 0, 0)
    ensures var es := Accesses(3) + COMPLETE + FOUR + FOUR;
            && Exec(m, es).Some?
            && var t := Exec(m, es).value;
               t.host.Ready? && t.device.Idle? && t.seqWord == t.ackWord == t.counter == ONE && m.log <= t.log
  {
    hide Exec, Accesses;
    RestRun(m);
    PendingCompletes(Exec(m, Accesses(3)).value);
    ExecConcat(m, Accesses(3), COMPLETE);
    AckRun(Exec(m, Accesses(3) + COMPLETE).value);
    ExecConcat(m, Accesses(3) + COMPLETE, FOUR);
    StatusRun(Exec(m, Accesses(3) + COMPLETE + FOUR).value);
    ExecConcat(m, Accesses(3) + COMPLETE + FOUR, FOUR);
  }

  lemma TwiceRun(s: State, w: Word, server: bool)
    requires Begins(s, w) && Tears257(w)
    ensures Exec(s, TwiceCall(server)).Some?
    ensures var t := Exec(s, TwiceCall(server)).value;
            Served(t, 1) && |s.log| < |t.log| && s.log <= t.log && t.log[|s.log|].number == Word(1, 1, 0, 0)
  {
    hide Value;
    SmallValues();
    assert NextNumber(s) == ONE;
    hide Exec, FieldsFrom, Begun, Asked, Next, COMPLETE, Accesses, FOUR;
    Opens(s, server);
    var m := Issued(s, AnyRequest(server));
    TwiceTorn(m, w);
    var torn := FieldsFrom(m.host) + [Access] + COMPLETE;
    TwiceEnds(Exec(m, torn).value);
    ExecConcat(m, torn, Accesses(3) + COMPLETE + FOUR + FOUR);
    ExecConcat(s, Opening(server), TwiceRest(server));
  }

  // A mailbox left at 256 to 511, but not at 257: the first call runs 257 already, and call 257 does again.
  lemma Reuse257(s: State, w: Word, server: bool) returns (es: seq<Event>)
    requires Begins(s, w) && Tears257(w)
    ensures Exec(s, es).Some? && Fits(es, 257, false, server)
    ensures !NoRepeats(Exec(s, es).value.log)
  {
    hide Exec, Cleans, TwiceCall, TornCall, Value, Fits;
    TwiceRun(s, w, server);
    var a := Exec(s, TwiceCall(server)).value;
    CleansRun(a, 1, 255, server);
    var b := Exec(a, Cleans(255, server)).value;
    ExecConcat(s, TwiceCall(server), Cleans(255, server));
    WordOfValue(b.counter);
    var torn := Word(1, 1, 0, 0);
    assert a.log[|s.log|].number == torn;
    RanGrows(a.log, b.log, torn);
    TornRun(b, server);
    ExecConcat(s, TwiceCall(server) + Cleans(255, server), TornCall(server));
    es := TwiceCall(server) + Cleans(255, server) + TornCall(server);
    RanTwice(b.log, Exec(s, es).value.log, torn);
    TwiceFits(false, server);
    CleansFit(255, false, server);
    TornFits(false, server);
    FitsBoth(TwiceCall(server), 1, Cleans(255, server), 255, false, server);
    FitsBoth(TwiceCall(server) + Cleans(255, server), 256, TornCall(server), 1, false, server);
  }

  // ---- Sessions in which an old answer is taken for a new one ----

  lemma NoOwnAnswer(t: State)
    requires t.host.Ready? && t.host.outcome.Returned? && !Ran(t.log, t.counter)
    ensures !OwnAnswer(t, 0)
  { }

  // The counter meets the number at which the mailbox was left.
  lemma StaleAnswer(s: State, k: nat, server: bool) returns (es: seq<Event>)
    requires Begins(s, s.ackWord) && Value(s.ackWord) == k + 1 < TWO_32
    ensures Exec(s, es).Some? && Fits(es, k + 1, false, server)
    ensures var t := Exec(s, es).value; t.host == Ready(Returned(s.status)) && t.log == s.log
  {
    hide Exec, Timeouts, Stale, Value, Fits, Next;
    SmallValues();
    TimeoutsRun(s, 0, k, server);
    var a := Exec(s, Timeouts(k, server)).value;
    NextValue(a.counter);
    ValueInjective(NextNumber(a), a.ackWord);
    StaleCall(a, server);
    ExecConcat(s, Timeouts(k, server), Stale(server));
    es := Timeouts(k, server) + Stale(server);
    TimeoutsFit(k, false, server);
    StaleFits(false, server);
    FitsBoth(Timeouts(k, server), k, Stale(server), 1, false, server);
  }

  // After k commands and one more timed out, the late answer to that one is misread as the next one's.
  lemma LateAnswer(s: State, from: nat, k: nat, j: nat, late: Word, n: Word, server: bool) returns (es: seq<Event>)
    requires Neglected(s, s, from) && Value(late) == from + k + 1 && Value(n) == from + k + 2 < TWO_32
    requires !(from < Value(s.ackWord) <= from + k + 1)
    requires 1 <= j <= 3 && Agree(s.ackWord, n, j) && AgreeFrom(late, n, j)
    ensures ReturnsIn(s, es) && Fits(es, k + 2, false, server)
    ensures var t := Exec(s, es).value;
            t.counter == n && |t.log| == |s.log| + 1 && t.log[..|s.log|] == s.log && t.log[|s.log|].number == late
  {
    hide Exec, Timeouts, Late, Misread, Value, Fits, Next, Agree, AgreeFrom;
    TimeoutsRun(s, from, k, server);
    var a := Exec(s, Timeouts(k, server)).value;
    NextValue(a.counter);
    ValueInjective(NextNumber(a), late);
    LateRun(a, server);
    var b := Exec(a, Late(server)).value;
    NextValue(b.counter);
    ValueInjective(NextNumber(b), n);
    MisreadRun(b, j, server);
    ExecConcat(s, Timeouts(k, server), Late(server));
    ExecConcat(s, Timeouts(k, server) + Late(server), Misread(j, server));
    es := Timeouts(k, server) + Late(server) + Misread(j, server);
    TimeoutsFit(k, false, server);
    LateFits(false, server);
    MisreadFits(j, false, server);
    FitsBoth(Timeouts(k, server), k, Late(server), 1, false, server);
    FitsBoth(Timeouts(k, server) + Late(server), k + 1, Misread(j, server), 1, false, server);
  }

  // A number above 256 with a lowest byte that the counter reaches, or of the form of 256.
  lemma LeftMisread(s: State, w: Word, server: bool) returns (es: seq<Event>)
    requires Initial(s, w) && Value(w) > 256 && (w.b0 >= 2 || (w.b0 == 0 && w.b1 == 1))
    ensures Exec(s, es).Some? && Fits(es, AnswerBound(w) + 1, false, server) && !OwnAnswer(Exec(s, es).value, 0)
  {
    hide Exec, Value, Fits;
    SmallValues();
    var bound: nat := if w.b0 >= 2 then w.b0 - 1 else 255;
    var late := Word(bound, 0, 0, 0);
    var n := if w.b0 >= 2 then Word(w.b0, 0, 0, 0) else N256;
    LowByteOnly(late);
    LowByteOnly(n);
    assert AnswerBound(w) == bound;
    es := LateAnswer(s, 0, bound - 1, if w.b0 >= 2 then 1 else 2, late, n, server);
    NoOwnAnswer(Exec(s, es).value);
  }

  // Otherwise the answer to command 256 comes late, after ACK has been at one.
  lemma LateAnswer257(s: State, w: Word, server: bool) returns (es: seq<Event>)
    requires Initial(s, w) && w != ONE
    ensures Exec(s, es).Some? && Fits(es, 257, false, server) && !OwnAnswer(Exec(s, es).value, 0)
  {
    hide Exec, Value, Fits, First;
    SmallValues();
    FirstRun(s, w, server);
    var a := Exec(s, First(w, server)).value;
    var tail := LateAnswer(a, 1, 254, 1, N256, Word(1, 1, 0, 0), server);
    ExecConcat(s, First(w, server), tail);
    es := First(w, server) + tail;
    NoOwnAnswer(Exec(s, es).value);
    FirstFits(w, false, server);
    FitsBoth(First(w, server), 1, tail, 256, false, server);
  }

  lemma AnswerGoesWrong(s: State, w: Word, server: bool) returns (es: seq<Event>)
    requires Initial(s, w)
    ensures Exec(s, es).Some? && Fits(es, AnswerBound(w) + 1, false, server) && !OwnAnswer(Exec(s, es).value, 0)
  {
    hide Exec, Value, Fits;
    ValueOfOne(w);
    if 1 <= Value(w) <= 256 {
      es := StaleAnswer(s, Value(w) - 1, server);
      NoOwnAnswer(Exec(s, es).value);
    } else if w.b0 >= 2 || (w.b0 == 0 && w.b1 == 1) {
      assert Value(w) > 256;
      es := LeftMisread(s, w, server);
    } else {
      es := LateAnswer257(s, w, server);
    }
  }

  // ---- The bounds are exact ----

  // What a session has added to the log.
  function Since(s: State, t: State): seq<Execution> {
    if |s.log| <= |t.log| then t.log[|s.log|..] else []
  }

  // Every session of up to so many calls keeps its numbers apart ...
  ghost predicate NumbersStayApart(s: State, calls: nat, faults: bool, server: bool) {
    forall es :: Calls(es) <= calls && Proper(es, faults, server) && Exec(s, es).Some?
      ==> NoRepeats(Since(s, Exec(s, es).value))
  }

  // ... and its answers too.
  ghost predicate AnswersStayOwn(s: State, calls: nat, faults: bool, server: bool) {
    forall es :: Calls(es) <= calls && Proper(es, faults, server) && Exec(s, es).Some?
      ==> OwnAnswer(Exec(s, es).value, |s.log|)
  }

  lemma ShortIsApart(s: State, w: Word, faults: bool, server: bool, es: seq<Event>)
    requires Initial(s, w) && Calls(es) <= NumberBound(w, faults) && Proper(es, faults, server) && Exec(s, es).Some?
    ensures NoRepeats(Exec(s, es).value.log)
  {
    hide Exec, NoRepeats, Initial, Calls, Proper;
    if faults || Tears257(w) {
      var first := if w == ONE then 2 else 1;
      SeqStaysDistinct(s, w, first, es);
      SeqIsDistinct(Exec(s, es).value, w, first);
    } else {
      LongSessions(s, w, es, server);
      FreeIsDistinct(Exec(s, es).value, w);
    }
    DistinctMeansNoRepeats(s, w, es);
  }

  lemma LongIsNotApart(s: State, w: Word, faults: bool, server: bool) returns (es: seq<Event>)
    requires Begins(s, w)
    ensures Exec(s, es).Some? && Fits(es, NumberBound(w, faults) + 1, faults, server)
    ensures !NoRepeats(Exec(s, es).value.log)
  {
    hide Exec, NoRepeats, Fits, Begins;
    if faults {
      es := ReuseWithFaults(s, w, server);
    } else if Tears257(w) {
      es := Reuse257(s, w, server);
    } else {
      es := Reuse512(s, w, server);
    }
  }

  // Main result: in a session that begins at a mailbox left at w, whatever happened before, no number runs
  // twice in so many calls exactly up to the bound: 511 without failed accesses and 256 with them, but for the
  // few numbers that are torn early. It is the same for both clients.
  lemma NumbersStayApartIff(s: State, w: Word, calls: nat, faults: bool, server: bool)
    requires Begins(s, w)
    ensures NumbersStayApart(s, calls, faults, server) <==> calls <= NumberBound(w, faults)
  {
    var f := Fresher(s);
    assert Initial(f, w);
    hide Exec, NoRepeats, Initial, Calls, Proper, NumberBound;
    if calls <= NumberBound(w, faults) {
      forall es | Calls(es) <= calls && Proper(es, faults, server) && Exec(s, es).Some?
        ensures NoRepeats(Since(s, Exec(s, es).value))
      {
        SessionsStartFresh(s, es);
        ShortIsApart(f, w, faults, server, es);
      }
    } else {
      var es := LongIsNotApart(f, w, faults, server);
      SessionsStartFresh(s, es);
      assert !NoRepeats(Since(s, Exec(s, es).value));
    }
  }

  // Main result: every answer that comes back is the command's own exactly in sessions of up to so many calls,
  // whether or not accesses fail, for both clients.
  lemma AnswersStayOwnIff(s: State, w: Word, calls: nat, faults: bool, server: bool)
    requires Begins(s, w)
    ensures AnswersStayOwn(s, calls, faults, server) <==> calls <= AnswerBound(w)
  {
    var f := Fresher(s);
    assert Initial(f, w);
    hide Exec, OwnAnswer, Initial, Calls, Proper, AnswerBound;
    if calls <= AnswerBound(w) {
      forall es | Calls(es) <= calls && Proper(es, faults, server) && Exec(s, es).Some?
        ensures OwnAnswer(Exec(s, es).value, |s.log|)
      {
        SessionsStartFresh(s, es);
        ShortSessions(f, w, es);
        SessionMeans(Exec(f, es).value, w);
      }
    } else {
      var es := AnswerGoesWrong(f, w, server);
      SessionsStartFresh(s, es);
      FaultsMayBeAllowed(es, faults, server);
      assert !OwnAnswer(Exec(s, es).value, |s.log|);
    }
  }

  lemma FaultsMayBeAllowed(es: seq<Event>, faults: bool, server: bool)
    requires Proper(es, false, server)
    ensures Proper(es, faults, server)
  { }
}
