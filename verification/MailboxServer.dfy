/**
 The program's own use of the mailbox (rp1_debug_stub.rs:555-659, 879-886): the smoke test makes seven commands
 and stops at the first that fails; then the debug server starts counting at zero on the same mailbox. The
 transport refuses an access for its address alone, so after the smoke test no access to the mailbox fails.
 */
module MailboxServer {
  import opened Prelude
  import opened Mailbox
  import opened MailboxCall
  import opened MailboxSession
  import opened MailboxBounds

  const SEVEN: Word := Word(7, 0, 0, 0)

  predicate HasAnswer(s: State) {
    s.host.Ready? && (s.host.outcome.Returned? || s.host.outcome.WithData?)
  }

  // A new command is issued only after an answer to the one before.
  ghost predicate StopsAtFailures(s: State, es: seq<Event>)
    decreases |es|
  {
    es != [] ==>
      && StopsAtFailures(s, es[..|es| - 1])
      && (es[|es| - 1].Issue? && Calls(es) > 1 ==>
            Exec(s, es[..|es| - 1]).Some? && HasAnswer(Exec(s, es[..|es| - 1]).value))
  }

  // A whole smoke test that passes.
  ghost predicate SmokeTest(s: State, es: seq<Event>) {
    Exec(s, es).Some? && Calls(es) == 7 && StopsAtFailures(s, es) && HasAnswer(Exec(s, es).value)
  }

  // The server takes over the mailbox as it is, with a counter of its own.
  function TakenOver(t: State): State {
    t.(counter := ZERO, host := Ready(NoCallYet))
  }

  // From one answer to the next: before the first command the mailbox is as it was left, and from then on each
  // command has a number that can be trusted, except that the first is not even noticed on a mailbox left at one.
  ghost predicate SmokeInv(s: State, w: Word) {
    if s.counter == ZERO then
      s.device.Idle? && s.seqWord == s.ackWord == w && !HasAnswer(s) && (s.host.Ready? || s.host.Preparing?)
    else if s.counter == ONE && w == ONE then s.device.Idle? && s.seqWord == s.ackWord == ONE
    else exists base: nat :: CallInv(s, base)
  }

  // An answer leaves nothing pending.
  lemma AnswerMeansServed(s: State, w: Word)
    requires SmokeInv(s, w) && HasAnswer(s)
    ensures s.device.Idle? && s.seqWord == s.ackWord == s.counter
    ensures s.counter == ONE != w ==> Ran(s.log, ONE)
  {
    if !(s.counter == ONE && w == ONE) {
      var base: nat :| CallInv(s, base);
      assert s.log[|s.log| - 1].number == s.counter;
    }
  }

  lemma IssueKeepsSmoke(s: State, request: Request, w: Word)
    requires SmokeInv(s, w) && s.host.Ready? && (s.counter == ZERO || HasAnswer(s)) && Value(s.counter) + 1 < TWO_32
    ensures SmokeInv(Issued(s, request), w)
  {
    hide Value;
    NextValue(s.counter);
    ValueOfOne(s.counter);
    ValueOfOne(NextNumber(s));
    if s.counter != ZERO {
      AnswerMeansServed(s, w);
    }
    if !(s.counter == ZERO && w == ONE) {
      assert NextNumber(s) != s.ackWord;
      SettledTrustIff(s, NextNumber(s));
      hide Trusted, CallInv, Next;
      IssueStartsCall(s, request, |s.log|);
    }
  }

  // On a mailbox left at one the first command changes nothing that the device sees.
  lemma UnnoticedStaysSo(s: State, e: Event)
    requires s.device.Idle? && s.seqWord == s.ackWord == s.counter && !e.Issue? && Apply(s, e).Some?
    ensures var t := Apply(s, e).value; t.device.Idle? && t.seqWord == t.ackWord == t.counter == s.counter
  { }

  lemma NotYetBegun(s: State, e: Event)
    requires s.device.Idle? && s.seqWord == s.ackWord && !HasAnswer(s) && (s.host.Ready? || s.host.Preparing?)
    requires !e.Issue? && Apply(s, e).Some?
    ensures var t := Apply(s, e).value;
            && t.device.Idle? && t.seqWord == t.ackWord == s.ackWord && t.counter == s.counter
            && !HasAnswer(t) && (t.host.Ready? || t.host.Preparing?)
  { }

  lemma OtherKeepsCall(s: State, e: Event, base: nat)
    requires CallInv(s, base) && !e.Issue? && Apply(s, e).Some?
    ensures CallInv(Apply(s, e).value, base) && Apply(s, e).value.counter == s.counter
  {
    hide CallInv, DeviceStep;
    if e.Prepare? {
      PreparingIsNoCall(HostStep(s, e).value, base);
    } else if IsHostEvent(e) {
      HostKeepsCall(s, e, base);
    } else {
      DeviceKeepsCall(s, e, base);
    }
  }

  lemma OtherKeepsSmoke(s: State, e: Event, w: Word)
    requires SmokeInv(s, w) && !e.Issue? && Apply(s, e).Some?
    ensures SmokeInv(Apply(s, e).value, w)
  {
    hide Apply, CallInv;
    if s.counter == ZERO {
      NotYetBegun(s, e);
    } else if s.counter == ONE && w == ONE {
      UnnoticedStaysSo(s, e);
    } else {
      var base: nat :| CallInv(s, base);
      OtherKeepsCall(s, e, base);
    }
  }

  lemma LogGrows(s: State, e: Event)
    requires Apply(s, e).Some?
    ensures s.log <= Apply(s, e).value.log
  { }

  lemma LastIssue(s: State, es: seq<Event>)
    requires es != [] && StopsAtFailures(s, es) && Exec(s, es).Some?
    ensures StopsAtFailures(s, es[..|es| - 1])
    ensures es[|es| - 1].Issue? && Calls(es[..|es| - 1]) > 0 ==> HasAnswer(Exec(s, es[..|es| - 1]).value)
  { }

  lemma {:induction false} SmokeTestIsServed(s: State, w: Word, es: seq<Event>)
    requires Begins(s, w) && Exec(s, es).Some? && Calls(es) < TWO_32 && StopsAtFailures(s, es)
    ensures SmokeInv(Exec(s, es).value, w)
    ensures Calls(es) >= 2 && w != ONE ==> Ran(Exec(s, es).value.log, ONE)
    decreases |es|
  {
    hide Exec, Apply, Ran, SmokeInv, Value, HasAnswer, StopsAtFailures;
    if es == [] {
      ExecNothing(s);
      SmokeAtFirst(s, w);
    } else {
      LastStep(s, es);
      LastIssue(s, es);
      CallsOfFront(es);
      var front, e := es[..|es| - 1], es[|es| - 1];
      var m := Exec(s, front).value;
      SmokeTestIsServed(s, w, front);
      CounterCounts(s, front);
      ValueOfOne(m.counter);
      if e.Issue? {
        IssueOfEvent(m, e);
        IssueKeepsSmoke(m, e.request, w);
        if Calls(front) == 1 { AnswerMeansServed(m, w); }
      } else {
        OtherKeepsSmoke(m, e, w);
      }
      LogGrows(m, e);
      if Calls(es) >= 2 && w != ONE { RanGrows(m.log, Exec(s, es).value.log, ONE); }
    }
  }

  lemma SmokeAtFirst(s: State, w: Word)
    requires Begins(s, w)
    ensures SmokeInv(s, w)
  { }

  lemma IssueOfEvent(s: State, e: Event)
    requires e.Issue? && Apply(s, e).Some?
    ensures s.host.Ready? && Apply(s, e).value == Issued(s, e.request)
  { }

  // Wherever the mailbox was left before, the smoke test leaves an idle mailbox at seven, and has used number one
  // unless it began there.
  lemma SmokeTestLeavesSeven(s: State, w: Word, es: seq<Event>)
    requires Begins(s, w) && SmokeTest(s, es)
    ensures var u := TakenOver(Exec(s, es).value); Begins(u, SEVEN) && (w != ONE ==> Ran(u.log, ONE))
  {
    hide Exec, StopsAtFailures, Calls, SmokeInv, Value, Ran;
    SmokeTestIsServed(s, w, es);
    var t := Exec(s, es).value;
    AnswerMeansServed(t, w);
    CounterCounts(s, es);
    ValueOfSeven(t.counter);
  }

  lemma ValueOfSeven(w: Word)
    ensures Value(SEVEN) == 7
    ensures Value(w) == 7 ==> w == SEVEN
  {
    hide Value;
    LowByteOnly(SEVEN);
    if Value(w) == 7 { ValueInjective(w, SEVEN); }
  }

  // Main result for the program: on the mailbox that the smoke test leaves, the server can rely on the answers
  // of its first six commands and not on the seventh's, and its own numbers stay apart for 511 commands.
  lemma ServerBounds(s: State, w: Word, es: seq<Event>, calls: nat)
    requires Begins(s, w) && SmokeTest(s, es)
    ensures var u := TakenOver(Exec(s, es).value);
            && (AnswersStayOwn(u, calls, false, true) <==> calls <= 6)
            && (NumbersStayApart(u, calls, false, true) <==> calls <= 511)
  {
    hide Exec, StopsAtFailures, Calls, AnswersStayOwn, NumbersStayApart, Value;
    SmokeTestLeavesSeven(s, w, es);
    var u := TakenOver(Exec(s, es).value);
    ValueOfSeven(SEVEN);
    AnswersStayOwnIff(u, SEVEN, calls, false, true);
    NumbersStayApartIff(u, SEVEN, calls, false, true);
  }

  // How the seventh goes wrong: after six that time out, it gets the status of the smoke test's last command,
  // and nothing has run at all.
  lemma SeventhAnswerIsOld(u: State) returns (es: seq<Event>)
    requires Begins(u, SEVEN)
    ensures Exec(u, es).Some? && Fits(es, 7, false, true)
    ensures var t := Exec(u, es).value; t.host == Ready(Returned(u.status)) && t.log == u.log
  {
    hide Value, Exec, Fits;
    ValueOfSeven(SEVEN);
    es := StaleAnswer(u, 6, true);
  }

  // Over the program as a whole no number stays its own for long: the server's first command, the program's
  // eighth, runs under one again.
  lemma EighthCommandRunsAsOne(u: State) returns (es: seq<Event>)
    requires Begins(u, SEVEN) && Ran(u.log, ONE)
    ensures Exec(u, es).Some? && Fits(es, 1, false, true)
    ensures !NoRepeats(Exec(u, es).value.log)
  {
    hide Exec, Fits, Clean;
    es := First(SEVEN, true);
    FirstRun(u, SEVEN, true);
    FirstFits(SEVEN, false, true);
    RanTwice(u.log, Exec(u, es).value.log, ONE);
  }
}
