/**
 Whole sessions of commands. A session begins with the host's counter at zero, on an idle mailbox that was
 left at some number: zero after a reset, seven when the debug server takes over from the smoke test.
 */
module MailboxSession {
  import opened Prelude
  import opened Mailbox
  import opened MailboxCall

  predicate Begins(s: State, w: Word) {
    s.counter == ZERO && s.seqWord == s.ackWord == w && s.device == Idle && s.host == Ready(NoCallYet)
  }

  // A session without a history.
  predicate Initial(s: State, w: Word) {
    Begins(s, w) && s.log == [] && s.written == []
  }

  const ONE: Word := Word(1, 0, 0, 0)

  function Calls(es: seq<Event>): nat {
    if es == [] then 0 else Calls(es[..|es| - 1]) + if es[|es| - 1].Issue? then 1 else 0
  }

  ghost predicate NoRepeats(log: seq<Execution>) {
    forall i, j :: 0 <= i < j < |log| ==> log[i].number != log[j].number
  }

  // An answer that has come back is that of an execution of the command that got it, after the first `base`.
  ghost predicate OwnAnswer(s: State, base: nat) {
    s.host.Ready? && (s.host.outcome.Returned? || s.host.outcome.WithData?) ==>
      exists k :: base <= k < |s.log| && Answers(s.log[k], s)
  }

  ghost predicate Answers(x: Execution, s: State)
    requires s.host.Ready? && (s.host.outcome.Returned? || s.host.outcome.WithData?)
  {
    && x.number == s.counter && x.call == s.call && x.status == s.host.outcome.status
    && (s.host.outcome.WithData? ==> Reads(s.host.outcome.bytes, x.data))
  }

  // ---- Every value of SEQ runs at most once ----

  ghost predicate Ran(log: seq<Execution>, w: Word) {
    exists k :: 0 <= k < |log| && log[k].number == w
  }

  ghost predicate Distinct(ws: seq<Word>) {
    forall i, j :: 0 <= i < j < |ws| ==> ws[i] != ws[j]
  }

  ghost predicate RunInv(s: State, w: Word) {
    && NoRepeats(s.log)
    && (forall k :: 0 <= k < |s.log| ==> s.log[k].number in s.written)
    && (!s.device.Idle? ==> s.device.number in s.written)
    && (s.device.Busy? ==> !Ran(s.log, s.device.number))
    && (Ran(s.log, s.seqWord) ==> Held(s) == s.seqWord && !s.device.Busy?)
    && (if s.written == [] then s.device.Idle? && s.ackWord == s.seqWord == w
        else s.seqWord == s.written[|s.written| - 1])
    && (s.ackWord == w || s.ackWord in s.written)
  }

  // What runs depend on.
  predicate SameForRuns(s: State, t: State) {
    && s.log == t.log && s.written == t.written && s.device == t.device
    && s.seqWord == t.seqWord && s.ackWord == t.ackWord
  }

  lemma RunInvSame(s: State, t: State, w: Word)
    requires SameForRuns(s, t) && RunInv(s, w)
    ensures RunInv(t, w)
  {
    hide NoRepeats, Ran;
  }

  lemma StoreKeepsRuns(s: State, slot: Slot, k: Index, w: Word)
    requires RunInv(s, w) && Distinct(Stored(s, slot, k).written)
    ensures RunInv(Stored(s, slot, k), w)
  {
    hide NoRepeats;
    var t := Stored(s, slot, k);
    if t.written != s.written {
      assert t.written[|s.written|] == t.seqWord;
      forall v | v in s.written ensures v != t.seqWord {
        var i :| 0 <= i < |s.written| && s.written[i] == v;
        assert t.written[i] == v;
      }
    }
  }

  // Of all that runs depend on, a host step changes at most SEQ, by a store.
  lemma HostOnlyStores(s: State, e: Event)
    requires IsHostEvent(e) && HostStep(s, e).Some?
    ensures var t := HostStep(s, e).value;
            SameForRuns(s, t) || (s.host.Writing? && SameForRuns(Stored(s, s.host.slot, s.host.done), t))
  {
    hide Put, ByteAt, DataAt;
  }

  lemma HostKeepsRuns(s: State, e: Event, w: Word)
    requires IsHostEvent(e) && HostStep(s, e).Some?
    requires RunInv(s, w) && Distinct(HostStep(s, e).value.written)
    ensures RunInv(HostStep(s, e).value, w)
  {
    hide RunInv, Distinct, Stored, HostStep;
    var t := HostStep(s, e).value;
    HostOnlyStores(s, e);
    if SameForRuns(s, t) {
      RunInvSame(s, t, w);
    } else {
      var m := Stored(s, s.host.slot, s.host.done);
      StoreKeepsRuns(s, s.host.slot, s.host.done, w);
      RunInvSame(m, t, w);
    }
  }

  lemma DeviceKeepsRuns(s: State, e: Event, w: Word)
    requires !IsHostEvent(e) && DeviceStep(s, e).Some? && RunInv(s, w)
    ensures RunInv(DeviceStep(s, e).value, w)
  {
    var t := DeviceStep(s, e).value;
    if e.Answer? {
      var n := s.device.number;
      assert forall k :: 0 <= k < |s.log| ==> t.log[k] == s.log[k];
      assert t.log[|s.log|].number == n;
      assert !Ran(s.log, n);
      forall v ensures Ran(t.log, v) <==> Ran(s.log, v) || v == n {
        if Ran(s.log, v) {
          var k :| 0 <= k < |s.log| && s.log[k].number == v;
          assert t.log[k].number == v;
        }
      }
    }
  }

  lemma WrittenGrows(s: State, e: Event)
    requires Apply(s, e).Some?
    ensures var ws := Apply(s, e).value.written; |s.written| <= |ws| && ws[..|s.written|] == s.written
  { }

  lemma DistinctPrefix(ws: seq<Word>, n: nat)
    requires n <= |ws| && Distinct(ws)
    ensures Distinct(ws[..n])
  { }

  lemma StepKeepsRuns(s: State, e: Event, w: Word)
    requires Apply(s, e).Some? && RunInv(s, w) && Distinct(Apply(s, e).value.written)
    ensures RunInv(Apply(s, e).value, w)
  {
    hide RunInv, Distinct;
    if IsHostEvent(e) {
      HostKeepsRuns(s, e, w);
    } else {
      DeviceKeepsRuns(s, e, w);
    }
  }

  // As long as SEQ never takes a value twice, no number runs twice.
  lemma {:induction false} DistinctMeansNoRepeats(s: State, w: Word, es: seq<Event>)
    requires Initial(s, w) && Exec(s, es).Some? && Distinct(Exec(s, es).value.written)
    ensures RunInv(Exec(s, es).value, w) && NoRepeats(Exec(s, es).value.log)
    decreases |es|
  {
    if es != [] {
      var m, e := Exec(s, es[..|es| - 1]).value, es[|es| - 1];
      hide Apply, RunInv, Distinct;
      WrittenGrows(m, e);
      DistinctPrefix(Apply(m, e).value.written, |m.written|);
      DistinctMeansNoRepeats(s, w, es[..|es| - 1]);
      StepKeepsRuns(m, e, w);
      RunInvNoRepeats(Exec(s, es).value, w);
    }
  }

  lemma RunInvNoRepeats(s: State, w: Word)
    requires RunInv(s, w)
    ensures NoRepeats(s.log)
  { }

  // ---- Counting ----

  lemma LastStep(s: State, es: seq<Event>)
    requires es != [] && Exec(s, es).Some?
    ensures Exec(s, es[..|es| - 1]).Some? && Exec(s, es) == Apply(Exec(s, es[..|es| - 1]).value, es[|es| - 1])
  { }

  lemma CounterStep(m: State, e: Event)
    requires Apply(m, e).Some?
    ensures Apply(m, e).value.counter == if e.Issue? then Next(m.counter) else m.counter
  { }

  lemma {:induction false} CounterCounts(s: State, es: seq<Event>)
    requires s.counter == ZERO && Exec(s, es).Some? && Calls(es) < TWO_32
    ensures Value(Exec(s, es).value.counter) == Calls(es)
    decreases |es|
  {
    if es != [] {
      var m, e := Exec(s, es[..|es| - 1]).value, es[|es| - 1];
      CounterCounts(s, es[..|es| - 1]);
      NextValue(m.counter);
      hide Exec;
      CounterStep(m, e);
      assert Exec(s, es) == Apply(m, e) by { LastStep(s, es); }
    }
  }

  lemma CallsOfFront(es: seq<Event>)
    requires es != []
    ensures Calls(es) == Calls(es[..|es| - 1]) + if es[|es| - 1].Issue? then 1 else 0
  { }

  // ---- The values SEQ takes in 256 calls ----

  // Which of the 256 calls from `first` on stores this lowest byte.
  function Turn(v: Word, first: nat): nat {
    if v.b0 >= first then v.b0 else 256 + v.b0
  }

  // The call has not changed SEQ yet.
  predicate Early(h: Host) {
    h.Writing? && (h.slot != SeqSlot || h.done == 0)
  }

  // A session of which no call before `first` changes SEQ: the first does not if the mailbox was left at one.
  predicate StartsAt(w: Word, first: nat) {
    first == 1 || (first == 2 && w == ONE)
  }

  // Every value of SEQ has the lowest byte of the call that stored it, and within a call its bytes change in
  // order, whatever failed on the way.
  ghost predicate SeqInv(s: State, w: Word, first: nat) {
    var k := Value(s.counter);
    && Distinct(s.written)
    && (s.host.Writing? ==> k >= 1)
    && (k < first ==> s.written == [] && s.seqWord == w && (k > 0 ==> s.counter == w))
    && (forall v :: v in s.written ==> first <= Turn(v, first) <= if Early(s.host) then k - 1 else k)
    && (s.host.Writing? && s.host.slot == SeqSlot && s.host.done > 0 ==> ThisCallInOrder(s, first))
  }

  ghost predicate ThisCallInOrder(s: State, first: nat)
    requires s.host.Writing?
  {
    && s.seqWord.b0 == s.counter.b0
    && forall v :: v in s.written && Turn(v, first) == Value(s.counter) ==> AgreeFrom(v, s.seqWord, s.host.done)
  }

  lemma AppendDistinct(ws: seq<Word>, w: Word)
    requires Distinct(ws) && w !in ws
    ensures Distinct(ws + [w])
  { }

  lemma TurnOfValue(c: Word, first: nat)
    requires 1 <= first <= 2 && first <= Value(c) <= first + 255
    ensures Turn(c, first) == Value(c)
  { }

  // A byte of the number goes into SEQ: a new value, if it is a change at all.
  lemma SeqByteIsNew(s: State, w: Word, first: nat)
    requires SeqInv(s, w, first) && StartsAt(w, first) && first <= Value(s.counter) <= first + 255
    requires s.host.Writing? && s.host.slot == SeqSlot
    ensures var v := Put(s.seqWord, s.host.done, ByteAt(s.counter, s.host.done));
            v.b0 == s.counter.b0 && (v != s.seqWord ==> v !in s.written)
  {
    hide Distinct;
    TurnOfValue(s.counter, first);
  }

  lemma StoreKeepsSeq(s: State, w: Word, first: nat)
    requires SeqInv(s, w, first) && StartsAt(w, first) && Value(s.counter) <= first + 255 && s.host.Writing?
    ensures SeqInv(Accessed(s), w, first) && SeqInv(Reached(s).(host := Ready(Failed(Bus))), w, first)
  {
    hide Distinct, Value;
    if s.host.slot == SeqSlot {
      if first <= Value(s.counter) {
        TurnOfValue(s.counter, first);
        SeqByteIsNew(s, w, first);
        var t := Stored(s, SeqSlot, s.host.done);
        if t.seqWord != s.seqWord {
          AppendDistinct(s.written, t.seqWord);
          assert forall v :: v in t.written <==> v in s.written || v == t.seqWord;
        }
      }
    }
  }

  lemma HostKeepsSeq(s: State, e: Event, w: Word, first: nat)
    requires IsHostEvent(e) && HostStep(s, e).Some? && SeqInv(s, w, first) && StartsAt(w, first)
    requires Value(s.counter) <= if e.Issue? then first + 254 else first + 255
    ensures SeqInv(HostStep(s, e).value, w, first)
  {
    if s.host.Writing? {
      hide SeqInv, Stored, Distinct, Value;
      StoreKeepsSeq(s, w, first);
    } else {
      NextValue(s.counter);
      ValueOfOne(NextNumber(s));
      hide Distinct, Value, Next, Put, ByteAt, DataAt;
    }
  }

  lemma ValueOfOne(w: Word)
    ensures Value(w) == 0 <==> w == ZERO
    ensures Value(w) == 1 <==> w == ONE
  {
    hide Value;
    LowByteOnly(ZERO);
    LowByteOnly(ONE);
    if Value(w) == 0 { ValueInjective(w, ZERO); }
    if Value(w) == 1 { ValueInjective(w, ONE); }
  }

  lemma DeviceKeepsSeq(s: State, e: Event, w: Word, first: nat)
    requires !IsHostEvent(e) && DeviceStep(s, e).Some? && SeqInv(s, w, first)
    ensures SeqInv(DeviceStep(s, e).value, w, first)
  {
    hide Distinct, Value, Turn;
  }

  lemma StepKeepsSeq(s: State, e: Event, w: Word, first: nat)
    requires Apply(s, e).Some? && SeqInv(s, w, first) && StartsAt(w, first)
    requires Value(s.counter) <= if e.Issue? then first + 254 else first + 255
    ensures SeqInv(Apply(s, e).value, w, first)
  {
    hide SeqInv, Value;
    if IsHostEvent(e) {
      HostKeepsSeq(s, e, w, first);
    } else {
      DeviceKeepsSeq(s, e, w, first);
    }
  }

  lemma SeqIsDistinct(s: State, w: Word, first: nat)
    requires SeqInv(s, w, first)
    ensures Distinct(s.written)
  { }

  lemma SeqInvAtFirst(s: State, w: Word, first: nat)
    requires Initial(s, w) && StartsAt(w, first)
    ensures SeqInv(s, w, first)
  {
    hide Distinct, Value, Turn;
    DistinctNothing();
    ValueOfOne(ZERO);
  }

  lemma DistinctNothing()
    ensures Distinct([])
  { }

  lemma ExecNothing(s: State)
    ensures Exec(s, []) == Some(s)
  { }

  lemma {:induction false} SeqStaysDistinct(s: State, w: Word, first: nat, es: seq<Event>)
    requires Initial(s, w) && StartsAt(w, first) && Exec(s, es).Some? && Calls(es) <= first + 255
    ensures SeqInv(Exec(s, es).value, w, first)
    decreases |es|
  {
    hide Exec, SeqInv, Apply;
    if es == [] {
      ExecNothing(s);
      SeqInvAtFirst(s, w, first);
    } else {
      LastStep(s, es);
      CallsOfFront(es);
      var front := es[..|es| - 1];
      SeqStaysDistinct(s, w, first, front);
      CounterCounts(s, front);
      StepKeepsSeq(Exec(s, front).value, es[|es| - 1], w, first);
    }
  }

  // ---- Sessions in which every new number can be trusted ----

  // How many commands of a session are sure to get their own answers, given the number the mailbox was left
  // at: until the counter meets that number, or one that shares with it what a change of ACK keeps.
  function AnswerBound(w: Word): nat {
    if 1 <= Value(w) <= 256 then Value(w) - 1
    else if w.b0 >= 2 then w.b0 - 1
    else if w.b0 == 0 && w.b1 == 1 then 255
    else 256
  }

  // Up to the call that has a second byte, SEQ takes its second bytes from zero and from where it was left.
  ghost predicate TailInv(s: State, w: Word) {
    Value(s.counter) <= 255 ==> s.seqWord.b1 in {0, w.b1} && forall v :: v in s.written ==> v.b1 in {0, w.b1}
  }

  lemma HostKeepsTail(s: State, e: Event, w: Word)
    requires IsHostEvent(e) && HostStep(s, e).Some? && TailInv(s, w) && Value(s.counter) <= 256
    ensures TailInv(HostStep(s, e).value, w)
  {
    NextValue(s.counter);
    SecondByte(s.counter);
    hide Value, Next, DataAt;
  }

  lemma SecondByte(c: Word)
    ensures Value(c) <= 255 ==> c.b1 == 0
  { }

  lemma DeviceKeepsTail(s: State, e: Event, w: Word)
    requires !IsHostEvent(e) && DeviceStep(s, e).Some? && TailInv(s, w)
    ensures TailInv(DeviceStep(s, e).value, w)
  { }

  // What has been in SEQ during the session shares no lowest byte with the next number ...
  lemma WrittenIsApart(s: State, w: Word, v: Word)
    requires SeqInv(s, w, 1) && Value(s.counter) <= 255 && s.host.Ready? && v in s.written
    ensures v.b0 != NextNumber(s).b0
  {
    NextValue(s.counter);
    TurnOfValue(NextNumber(s), 1);
    hide Distinct;
  }

  // ... so neither its values nor a change from one of them can be taken for that number.
  lemma ApartIsUnblended(v: Word, m: Word, n: Word)
    requires v.b0 != n.b0
    ensures v != n && !Blend(v, m, n)
  { }

  // The number the mailbox was left at: no change from it can be taken for the next number within the bound.
  lemma LeftIsUnblended(s: State, w: Word, m: Word)
    requires Value(s.counter) < AnswerBound(w)
    requires m == w || (Value(s.counter) >= 1 && m.b1 in {0, w.b1} && m.b0 != NextNumber(s).b0)
    ensures w != NextNumber(s) && !Blend(w, m, NextNumber(s))
  {
    hide Value, Next, Blend, AnswerBound;
    NextValue(s.counter);
    BoundIsSmall(w);
    ValueOfOne(NextNumber(s));
    BoundMeans(w, NextNumber(s));
    LeftDoesNotBlend(w, m, NextNumber(s));
  }

  const N256: Word := Word(0, 1, 0, 0)

  // Within the bound, a number that has its lowest byte in common with the mailbox's is one or 256.
  lemma BoundMeans(w: Word, n: Word)
    requires 1 <= Value(n) <= AnswerBound(w)
    ensures w != n && n.b2 == n.b3 == 0 && (n.b1 == 0 || n == N256)
    ensures w.b0 == n.b0 ==> n == ONE || (n == N256 && w.b1 != 1)
  {
    BytesBelow257(n);
    BoundIsSmall(w);
    LowByteOnly(w);
  }

  lemma LowByteOnly(w: Word)
    ensures w.b1 == w.b2 == w.b3 == 0 ==> Value(w) == w.b0
    ensures w.b2 == w.b3 == 0 ==> Value(w) == w.b0 + 256 * w.b1
  { }

  lemma LeftDoesNotBlend(w: Word, m: Word, n: Word)
    requires w != n && n.b2 == n.b3 == 0 && (n.b1 == 0 || n == N256)
    requires w.b0 == n.b0 ==> n == ONE || (n == N256 && w.b1 != 1)
    requires m == w || (n != ONE && m.b1 in {0, w.b1} && m.b0 != n.b0)
    ensures !Blend(w, m, n)
  { }

  lemma BytesBelow257(n: Word)
    ensures Value(n) <= 256 ==> n == if Value(n) == 256 then N256 else Word(Value(n), 0, 0, 0)
  {
    hide Value;
    if Value(n) <= 256 {
      var w := if Value(n) == 256 then N256 else Word(Value(n), 0, 0, 0);
      LowByteOnly(w);
      ValueInjective(n, w);
    }
  }

  lemma NextIsTrusted(s: State, w: Word)
    requires s.host.Ready? && RunInv(s, w) && SeqInv(s, w, 1) && TailInv(s, w) && Value(s.counter) < AnswerBound(w)
    ensures Trusted(s, NextNumber(s)) && NeverRan(s.log, 0, NextNumber(s))
  {
    hide NoRepeats, Ran, Distinct, Blend, Value;
    var n := NextNumber(s);
    assert Value(s.counter) <= 255 by { BoundIsSmall(w); }
    forall v | v in s.written ensures v.b0 != n.b0 {
      WrittenIsApart(s, w, v);
    }
    OneIsTrusted(s, w, s.ackWord, Held(s));
    OneIsTrusted(s, w, Held(s), s.seqWord);
    OneIsTrusted(s, w, s.seqWord, s.seqWord);
    forall k | 0 <= k < |s.log| ensures s.log[k].number != n {
      assert s.log[k].number in s.written;
    }
  }

  lemma BoundIsSmall(w: Word)
    ensures AnswerBound(w) <= 256
  { }

  lemma OneIsTrusted(s: State, w: Word, a: Word, m: Word)
    requires RunInv(s, w) && SeqInv(s, w, 1) && TailInv(s, w) && Value(s.counter) < AnswerBound(w)
    requires forall v :: v in s.written ==> v.b0 != NextNumber(s).b0
    requires (a == w || a in s.written) && (m == w || m in s.written)
    ensures a != NextNumber(s) && !Blend(a, m, NextNumber(s))
  {
    hide NoRepeats, Ran, Distinct, Blend, Value, Turn, RunInv;
    BoundIsSmall(w);
    if a in s.written {
      ApartIsUnblended(a, m, NextNumber(s));
    } else {
      LeftIsUnblended(s, w, m);
    }
  }

  ghost predicate SessionInv(s: State, w: Word) {
    RunInv(s, w) && SeqInv(s, w, 1) && TailInv(s, w) && CallInv(s, 0)
  }

  lemma StepKeepsCall(s: State, e: Event, w: Word)
    requires SessionInv(s, w) && Apply(s, e).Some?
    requires if e.Issue? then Value(s.counter) < AnswerBound(w) else Value(s.counter) <= 256
    ensures CallInv(Apply(s, e).value, 0)
  {
    hide RunInv, SeqInv, TailInv, CallInv, DeviceStep, Value, Trusted, NeverRan;
    if e.Issue? {
      NextIsTrusted(s, w);
      IssueStartsCall(s, e.request, 0);
    } else if e.Prepare? {
      PreparingIsNoCall(HostStep(s, e).value, 0);
    } else if IsHostEvent(e) {
      HostKeepsCall(s, e, 0);
    } else {
      DeviceKeepsCall(s, e, 0);
    }
  }

  lemma PreparingIsNoCall(s: State, base: nat)
    requires s.host.Preparing?
    ensures CallInv(s, base)
  { }

  lemma StepKeepsSession(s: State, e: Event, w: Word)
    requires SessionInv(s, w) && Apply(s, e).Some?
    requires if e.Issue? then Value(s.counter) < AnswerBound(w) else Value(s.counter) <= 256
    ensures SessionInv(Apply(s, e).value, w)
  {
    BoundIsSmall(w);
    StepKeepsCall(s, e, w);
    hide RunInv, SeqInv, TailInv, CallInv, Distinct, DeviceStep, HostStep, Value;
    if IsHostEvent(e) {
      HostKeepsTail(s, e, w);
    } else {
      DeviceKeepsTail(s, e, w);
    }
    StepKeepsSeq(s, e, w, 1);
    SeqIsDistinct(Apply(s, e).value, w, 1);
    StepKeepsRuns(s, e, w);
  }

  lemma SessionAtFirst(s: State, w: Word)
    requires Initial(s, w)
    ensures SessionInv(s, w)
  {
    hide SeqInv, Value;
    SeqInvAtFirst(s, w, 1);
  }

  lemma {:induction false} ShortSessions(s: State, w: Word, es: seq<Event>)
    requires Initial(s, w) && Exec(s, es).Some? && Calls(es) <= AnswerBound(w)
    ensures SessionInv(Exec(s, es).value, w)
    decreases |es|
  {
    hide Exec, SessionInv, Apply, AnswerBound;
    BoundIsSmall(w);
    if es == [] {
      ExecNothing(s);
      SessionAtFirst(s, w);
    } else {
      LastStep(s, es);
      var front := es[..|es| - 1];
      CallsOfFront(es);
      ShortSessions(s, w, front);
      CounterCounts(s, front);
      StepKeepsSession(Exec(s, front).value, es[|es| - 1], w);
    }
  }

  lemma SessionMeans(s: State, w: Word)
    requires SessionInv(s, w)
    ensures OwnAnswer(s, 0)
  {
    if s.host.Ready? && (s.host.outcome.Returned? || s.host.outcome.WithData?) {
      assert Answers(s.log[|s.log| - 1], s);
    }
  }

  // ---- The history before a session ----

  // The same state with an earlier history.
  function After(log: seq<Execution>, written: seq<Word>, s: State): State {
    s.(log := log + s.log, written := written + s.written)
  }

  function Fresher(s: State): State {
    s.(log := [], written := [])
  }

  lemma HostIgnoresHistory(log: seq<Execution>, written: seq<Word>, s: State, e: Event)
    requires IsHostEvent(e)
    ensures HostStep(s, e).None? <==> HostStep(After(log, written, s), e).None?
    ensures HostStep(s, e).Some? ==>
              HostStep(After(log, written, s), e) == Some(After(log, written, HostStep(s, e).value))
  {
    hide Put, ByteAt, DataAt, Next, AfterWrite, AfterAck, AfterData;
    if HostStep(s, e).Some? {
      var t := HostStep(s, e).value;
      assert written + t.written == (written + s.written) + t.written[|s.written|..];
    }
  }

  lemma DeviceIgnoresHistory(log: seq<Execution>, written: seq<Word>, s: State, e: Event)
    requires !IsHostEvent(e)
    ensures DeviceStep(s, e).None? <==> DeviceStep(After(log, written, s), e).None?
    ensures DeviceStep(s, e).Some? ==>
              DeviceStep(After(log, written, s), e) == Some(After(log, written, DeviceStep(s, e).value))
  {
    if DeviceStep(s, e).Some? {
      var t := DeviceStep(s, e).value;
      assert log + t.log == (log + s.log) + t.log[|s.log|..];
    }
  }

  lemma StepIgnoresHistory(log: seq<Execution>, written: seq<Word>, s: State, e: Event)
    ensures Apply(s, e).None? <==> Apply(After(log, written, s), e).None?
    ensures Apply(s, e).Some? ==> Apply(After(log, written, s), e) == Some(After(log, written, Apply(s, e).value))
  {
    hide HostStep, DeviceStep, After;
    if IsHostEvent(e) {
      HostIgnoresHistory(log, written, s, e);
    } else {
      DeviceIgnoresHistory(log, written, s, e);
    }
  }

  // What happened before a session has no influence on it.
  lemma {:induction false} HistoryIsIgnored(log: seq<Execution>, written: seq<Word>, s: State, es: seq<Event>)
    ensures Exec(s, es).None? <==> Exec(After(log, written, s), es).None?
    ensures Exec(s, es).Some? ==> Exec(After(log, written, s), es) == Some(After(log, written, Exec(s, es).value))
    decreases |es|
  {
    hide Apply, After;
    if es != [] {
      var front := es[..|es| - 1];
      HistoryIsIgnored(log, written, s, front);
      if Exec(s, front).Some? {
        StepIgnoresHistory(log, written, Exec(s, front).value, es[|es| - 1]);
      }
    }
  }

  // A run of a session adds to the log what the same run without a history leaves.
  lemma SessionsStartFresh(s: State, es: seq<Event>)
    ensures Exec(s, es).Some? <==> Exec(Fresher(s), es).Some?
    ensures Exec(s, es).Some? ==>
              var t, u := Exec(s, es).value, Exec(Fresher(s), es).value;
              && t == After(s.log, s.written, u) && t.log[|s.log|..] == u.log
              && (OwnAnswer(t, |s.log|) <==> OwnAnswer(u, 0))
  {
    assert After(s.log, s.written, Fresher(s)) == s;
    HistoryIsIgnored(s.log, s.written, Fresher(s), es);
    if Exec(s, es).Some? {
      OwnAnswerAfter(s.log, s.written, Exec(Fresher(s), es).value);
    }
  }

  lemma OwnAnswerAfter(log: seq<Execution>, written: seq<Word>, u: State)
    ensures OwnAnswer(After(log, written, u), |log|) <==> OwnAnswer(u, 0)
  {
    var t := After(log, written, u);
    if u.host.Ready? && (u.host.outcome.Returned? || u.host.outcome.WithData?) {
      forall k | 0 <= k < |u.log| ensures t.log[|log| + k] == u.log[k] && (Answers(t.log[|log| + k], t) <==> Answers(u.log[k], u)) { }
      if OwnAnswer(t, |log|) {
        var k :| |log| <= k < |t.log| && Answers(t.log[k], t);
        assert t.log[|log| + (k - |log|)] == u.log[k - |log|];
        assert Answers(u.log[k - |log|], u);
      }
      if OwnAnswer(u, 0) {
        var k :| 0 <= k < |u.log| && Answers(u.log[k], u);
        assert Answers(t.log[|log| + k], t);
      }
    }
  }
}
