/**
 How a command ends: with a status, a timeout or a failed access, told from the words that its polls read
 (rp1_debug_stub.rs:1027-1042, 1162-1180).
 */
module MailboxOutcome {
  import opened Prelude
  import opened Mailbox
  import opened MailboxCall

  // The last byte of a word is about to be read; this completes it.
  function Completed(seen: Word, field: Word): Word {
    Word(seen.b0, seen.b1, seen.b2, field.b3)
  }

  // The words read from ACK in a run, in order; each takes four accesses.
  function AckReads(s: State, es: seq<Event>): seq<Word>
    requires Exec(s, es).Some?
    decreases |es|
  {
    if es == [] then [] else
    var m := Exec(s, es[..|es| - 1]).value;
    AckReads(s, es[..|es| - 1])
      + (if es[|es| - 1].Access? && m.host.Polling? && m.host.done == 3 then [Completed(m.host.seen, m.ackWord)] else [])
  }

  // And from STATUS.
  function StatusReads(s: State, es: seq<Event>): seq<Word>
    requires Exec(s, es).Some?
    decreases |es|
  {
    if es == [] then [] else
    var m := Exec(s, es[..|es| - 1]).value;
    StatusReads(s, es[..|es| - 1])
      + (if es[|es| - 1].Access? && m.host.ReadingStatus? && m.host.done == 3 then [Completed(m.host.seen, m.status)] else [])
  }

  // Some access of the run fails.
  ghost predicate Failing(es: seq<Event>) {
    exists k :: 0 <= k < |es| && es[k].AccessFails?
  }

  // The number is the last of these words, and was none of those before.
  predicate EndsWith(acks: seq<Word>, n: Word) {
    1 <= |acks| <= 100_000 && acks[|acks| - 1] == n && n !in acks[..|acks| - 1]
  }

  // Where a call stands, given what it has read.
  ghost predicate Tells(h: Host, acks: seq<Word>, statuses: seq<Word>, failing: bool, n: Word) {
    if failing then h == Ready(Failed(Bus)) && |acks| <= 100_000 && (n !in acks || EndsWith(acks, n)) else
    match h
    case Writing(_, _) => acks == [] && statuses == []
    case Polling(polls, _, _) => |acks| == polls < 100_000 && n !in acks && statuses == []
    case ReadingStatus(_, _) => EndsWith(acks, n) && statuses == []
    case ReadingData(status, _, _) => EndsWith(acks, n) && statuses == [status]
    case Ready(Returned(status)) => EndsWith(acks, n) && statuses == [status]
    case Ready(WithData(status, _)) => EndsWith(acks, n) && statuses == [status]
    case Ready(Failed(Timeout)) => |acks| == 100_000 && n !in acks && statuses == []
    case _ => false
  }

  // What an access adds to the words read.
  function AckRead(m: State, e: Event): seq<Word> {
    if e.Access? && m.host.Polling? && m.host.done == 3 then [Completed(m.host.seen, m.ackWord)] else []
  }

  function StatusRead(m: State, e: Event): seq<Word> {
    if e.Access? && m.host.ReadingStatus? && m.host.done == 3 then [Completed(m.host.seen, m.status)] else []
  }

  lemma PollTells(m: State, acks: seq<Word>)
    requires m.host.Polling? && Tells(m.host, acks, [], false, m.counter)
    ensures var t := Accessed(m); Tells(t.host, acks + AckRead(m, Access), [], false, m.counter)
  {
    if m.host.done == 3 {
      var word := Completed(m.host.seen, m.ackWord);
      var longer := acks + [word];
      assert longer[..|longer| - 1] == acks;
      assert forall w :: w in longer <==> w in acks || w == word;
    }
  }

  lemma StatusTells(m: State, acks: seq<Word>)
    requires m.host.ReadingStatus? && Tells(m.host, acks, [], false, m.counter)
    ensures var t := Accessed(m); Tells(t.host, acks, StatusRead(m, Access), false, m.counter)
  {
    hide EndsWith;
  }

  lemma HostTells(m: State, e: Event, acks: seq<Word>, statuses: seq<Word>, failing: bool)
    requires IsHostEvent(e) && !e.Issue? && !e.Prepare? && HostStep(m, e).Some?
    requires Tells(m.host, acks, statuses, failing, m.counter)
    ensures var t := HostStep(m, e).value;
            && t.counter == m.counter
            && Tells(t.host, acks + AckRead(m, e), statuses + StatusRead(m, e), failing || e.AccessFails?, m.counter)
  {
    hide Put, ByteAt, DataAt, EndsWith;
    assert acks + [] == acks && statuses + [] == statuses && [] + StatusRead(m, e) == StatusRead(m, e);
    if e.AccessFails? {
      FailureTells(m.host, acks, statuses, failing, m.counter);
    } else if !failing && m.host.Polling? {
      PollTells(m, acks);
    } else if !failing && m.host.ReadingStatus? {
      StatusTells(m, acks);
    }
  }

  lemma FailureTells(h: Host, acks: seq<Word>, statuses: seq<Word>, failing: bool, n: Word)
    requires Tells(h, acks, statuses, failing, n)
    ensures |acks| <= 100_000 && (n !in acks || EndsWith(acks, n)) && acks + [] == acks
  { }

  lemma DeviceTells(m: State, e: Event)
    requires !IsHostEvent(e) && DeviceStep(m, e).Some?
    ensures DeviceStep(m, e).value.counter == m.counter && DeviceStep(m, e).value.host == m.host
  { }

  lemma FailingGrows(es: seq<Event>)
    requires es != []
    ensures Failing(es) <==> Failing(es[..|es| - 1]) || es[|es| - 1].AccessFails?
  { }

  lemma {:induction false} RunTells(s: State, request: Request, es: seq<Event>)
    requires WithinCall(es) && Exec(Issued(s, request), es).Some?
    ensures var m := Issued(s, request); var t := Exec(m, es).value;
            && t.counter == NextNumber(s)
            && Tells(t.host, AckReads(m, es), StatusReads(m, es), Failing(es), NextNumber(s))
    decreases |es|
  {
    hide HostStep, DeviceStep, Tells, Failing, Next;
    var m := Issued(s, request);
    if es == [] {
      IssueTells(s, request);
    } else {
      var front, e := es[..|es| - 1], es[|es| - 1];
      RunTells(s, request, front);
      FailingGrows(es);
      var before := Exec(m, front).value;
      if IsHostEvent(e) {
        HostTells(before, e, AckReads(m, front), StatusReads(m, front), Failing(front));
      } else {
        DeviceTells(before, e);
        assert AckReads(m, front) + [] == AckReads(m, front) && StatusReads(m, front) + [] == StatusReads(m, front);
      }
    }
  }

  lemma IssueTells(s: State, request: Request)
    ensures Tells(Issued(s, request).host, [], [], Failing([]), NextNumber(s))
  { }

  // How a command that has ended did so, in what it read.
  ghost predicate Decided(m: State, es: seq<Event>, outcome: Outcome)
    requires Exec(m, es).Some?
  {
    var acks := AckReads(m, es);
    && (outcome == Failed(Bus) <==> Failing(es))
    && (outcome == Failed(Timeout) <==> !Failing(es) && |acks| == 100_000 && m.counter !in acks)
    && (outcome.Returned? <==> !Failing(es) && m.counter in acks)
    && (outcome.Returned? ==> StatusReads(m, es) == [outcome.status])
    && |acks| <= 100_000 && (m.counter in acks ==> EndsWith(acks, m.counter))
  }

  predicate Ended(o: Outcome) {
    o.Returned? || o.Failed?
  }

  // Main result: a command that ends has failed exactly if an access failed; it timed out exactly if none did
  // and it made 100000 reads of ACK, none of them the number; and else, with the first read that is the
  // number, be it the last of them, it returns the status then read.
  lemma OutcomeIsDecided(s: State, request: Request, es: seq<Event>)
    requires WithinCall(es) && Exec(Issued(s, request), es).Some?
    requires var t := Exec(Issued(s, request), es).value; t.host.Ready? && Ended(t.host.outcome)
    ensures Decided(Issued(s, request), es, Exec(Issued(s, request), es).value.host.outcome)
  {
    hide Exec, AckReads, StatusReads, Failing, Next;
    RunTells(s, request, es);
  }

  // ---- The last moment for an answer ----

  function Polls(n: nat): seq<Event> {
    if n == 0 then [] else Polls(n - 1) + FOUR
  }

  function Unanswered(m: State, n: nat): State {
    m.(host := if n < 100_000 then Polling(n, ZERO, 0) else Ready(Failed(Timeout)))
  }

  lemma PollStep(m: State, n: nat)
    requires m.ackWord != m.counter && n < 100_000
    ensures Exec(Unanswered(m, n), FOUR) == Some(Unanswered(m, n + 1))
  {
    hide Exec, FOUR;
    AckRun(Unanswered(m, n));
  }

  lemma {:induction false} PollsRun(m: State, n: nat)
    requires m.host == Polling(0, ZERO, 0) && m.ackWord != m.counter && n <= 100_000
    ensures Exec(m, Polls(n)) == Some(Unanswered(m, n))
  {
    hide Exec, FOUR;
    if n == 0 {
      NothingRead(m);
    } else {
      hide Unanswered;
      PollsRun(m, n - 1);
      PollStep(m, n - 1);
      ExecConcat(m, Polls(n - 1), FOUR);
    }
  }

  lemma NothingRead(m: State)
    ensures Exec(m, []) == Some(m)
  { }

  function AnsweredAfter(h: Host, n: nat): seq<Event> {
    WritesFrom(h) + Polls(n) + COMPLETE + FOUR + FOUR
  }

  // On a settled, idle mailbox a command whose answer comes after n reads of ACK returns that answer's status
  // for n up to 99999; after 100000 reads it has timed out.
  lemma AnswerInTime(s: State, request: Request, n: nat)
    requires s.host.Ready? && s.device.Idle? && s.seqWord == s.ackWord != NextNumber(s)
    ensures var m := Issued(s, request);
            && (n < 100_000 ==>
                  && Exec(m, AnsweredAfter(m.host, n)).Some?
                  && Exec(m, AnsweredAfter(m.host, n)).value.host == Ready(Returned(ZERO)))
            && Exec(m, WritesFrom(m.host) + Polls(100_000)).Some?
            && Exec(m, WritesFrom(m.host) + Polls(100_000)).value.host == Ready(Failed(Timeout))
  {
    hide Exec, NextNumber, WritesFrom, Polls, Begun, Asked;
    IssuedIsBegun(s, request);
    var m := Issued(s, request);
    WritesRun(m);
    var writes := WritesFrom(m.host);
    var a := Exec(m, writes).value;
    PollsRun(a, 100_000);
    ExecConcat(m, writes, Polls(100_000));
    if n < 100_000 {
      PollsRun(a, n);
      ExecConcat(m, writes, Polls(n));
      var b := Exec(m, writes + Polls(n)).value;
      PendingCompletes(b);
      ExecConcat(m, writes + Polls(n), COMPLETE);
      AckRun(Exec(m, writes + Polls(n) + COMPLETE).value);
      ExecConcat(m, writes + Polls(n) + COMPLETE, FOUR);
      StatusRun(Exec(m, writes + Polls(n) + COMPLETE + FOUR).value);
      ExecConcat(m, writes + Polls(n) + COMPLETE + FOUR, FOUR);
    }
  }
}
