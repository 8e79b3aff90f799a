/**
 The bounded seqlock reader of the cold telemetry record, run against a concurrent writer.

 Every load and every store of one 32-bit word is a separate event, and a run is any interleaving of the
 reader's loads with the writer's stores. Barriers are modelled by that order.
 */
module Seqlock {
  import opened Prelude

  const WORDS: nat := 27
  const SEQ: nat := 2           // the index of the sequence word
  const MAX_ATTEMPTS: nat := 4
  const WRAP: nat := 0x1_0000_0000

  type Record = r: seq<u32> | |r| == 27 witness seq(27, i => 0)

  type Partial = r: seq<u32> | |r| <= 27

  datatype Reader =
    | Start(attempt: nat)                                   // about to load the sequence word
    | Copying(attempt: nat, before: u32, words: Partial)    // copying, then loading the sequence word again
    | Done(attempt: nat, copy: Record)
    | Failed

  datatype State = State(
    mem: Record,
    origin: nat,         // the sequence number of the first record, before any wrap-around
    writing: bool,       // between making the sequence odd and making it even again
    log: seq<Record>,    // every record published so far, oldest first
    reader: Reader,
    base: nat,           // |log| when the current attempt loaded the sequence word
    loads: nat)          // loads the reader has made

  datatype Event = Begin | Store(index: nat, value: u32) | Publish | Load

  // The sequence number the writer has reached, before reduction modulo 2^32.
  function Sequence(s: State): int {
    s.origin + 2 * (|s.log| - 1) + if s.writing then 1 else 0
  }

  function Retry(attempt: nat): Reader {
    if attempt < MAX_ATTEMPTS then Start(attempt + 1) else Failed
  }

  function ReaderLoad(s: State): Option<State> {
    var s' := s.(loads := s.loads + 1);
    match s.reader
    case Start(attempt) =>
      var before := s.mem[SEQ];
      if before % 2 != 0 then Some(s'.(reader := Retry(attempt)))
      else Some(s'.(reader := Copying(attempt, before, []), base := |s.log|))
    case Copying(attempt, before, words) =>
      if |words| < WORDS then Some(s'.(reader := Copying(attempt, before, words + [s.mem[|words|]])))
      else
        var after := s.mem[SEQ];
        if before != after || words[SEQ] != before then Some(s'.(reader := Retry(attempt)))
        else Some(s'.(reader := Done(attempt, words)))
    case Done(_, _) => None
    case Failed => None
  }

  function Apply(s: State, e: Event): Option<State> {
    match e
    case Begin =>
      if s.writing then None
      else Some(s.(writing := true, mem := s.mem[SEQ := (s.mem[SEQ] + 1) % WRAP]))
    case Store(index, value) =>
      if !s.writing || index >= WORDS || index == SEQ then None
      else Some(s.(mem := s.mem[index := value]))
    case Publish =>
      if !s.writing then None
      else
        var mem := s.mem[SEQ := (s.mem[SEQ] + 1) % WRAP];
        Some(s.(writing := false, mem := mem, log := s.log + [mem]))
    case Load => ReaderLoad(s)
  }

  function Exec(s: State, es: seq<Event>): Option<State>
    decreases |es|
  {
    if es == [] then Some(s)
    else match Exec(s, es[..|es| - 1])
      case None => None
      case Some(m) => Apply(m, es[|es| - 1])
  }

  // A published record and an idle writer; the reader has not started.
  predicate Initial(s: State) {
    && s.origin % 2 == 0 && s.mem[SEQ] == s.origin % WRAP
    && !s.writing && s.log == [s.mem]
    && s.reader == Start(1) && s.loads == 0
  }

  // Fewer than 2^31 publications since the attempt under way loaded the sequence word.
  predicate Paced(s: State) {
    s.reader.Copying? ==> |s.log| < s.base + 0x8000_0000
  }

  predicate PacedRun(s: State, es: seq<Event>)
    decreases |es|
  {
    && (es == [] || PacedRun(s, es[..|es| - 1]))
    && (Exec(s, es).Some? ==> Paced(Exec(s, es).value))
  }

  ghost predicate ReaderInv(s: State) {
    match s.reader
    case Start(attempt) => 1 <= attempt <= MAX_ATTEMPTS && s.loads <= 29 * (attempt - 1)
    case Copying(attempt, before, words) =>
      && 1 <= attempt <= MAX_ATTEMPTS && s.loads <= 29 * (attempt - 1) + 1 + |words|
      && 1 <= s.base <= |s.log|
      && before == (s.origin + 2 * (s.base - 1)) % WRAP
      && (|s.log| == s.base && !s.writing ==> words == s.mem[..|words|])
    case Done(attempt, copy) =>
      && 1 <= attempt <= MAX_ATTEMPTS && s.loads <= 29 * attempt
      && 1 <= s.base <= |s.log| && copy == s.log[s.base - 1]
    case Failed => s.loads <= 29 * MAX_ATTEMPTS
  }

  ghost predicate Inv(s: State) {
    && s.origin % 2 == 0 && s.log != []
    && s.mem[SEQ] == Sequence(s) % WRAP
    && (!s.writing ==> s.mem == s.log[|s.log| - 1])
    && ReaderInv(s)
  }

  // Two sequence numbers less than 2^32 apart that agree modulo 2^32 are equal.
  lemma NoAlias(a: int, b: int)
    requires 0 <= a <= b < a + WRAP && a % WRAP == b % WRAP
    ensures a == b
  {
  }

  lemma ParityKept(n: nat)
    ensures n % WRAP % 2 == n % 2
  {
  }

  // A second look at an unchanged sequence word means that nothing was published or begun in between.
  lemma UnchangedMeansQuiet(s: State)
    requires Inv(s) && Paced(s) && s.reader.Copying? && s.reader.before == s.mem[SEQ] && s.reader.before % 2 == 0
    ensures |s.log| == s.base && !s.writing
  {
    ParityKept(Sequence(s));
    NoAlias(s.origin + 2 * (s.base - 1), Sequence(s));
  }

  // The sequence word a reader starts from is even.
  lemma StartedEven(s: State)
    requires Inv(s) && s.reader.Copying?
    ensures s.reader.before % 2 == 0
  {
    ParityKept(s.origin + 2 * (s.base - 1));
  }

  lemma StartKeepsInv(s: State)
    requires Inv(s) && s.reader.Start?
    ensures Inv(ReaderLoad(s).value)
  {
    ParityKept(Sequence(s));
    if !s.writing {
      assert Sequence(s) == s.origin + 2 * (|s.log| - 1);
    }
  }

  lemma CopyKeepsInv(s: State)
    requires Inv(s) && s.reader.Copying? && |s.reader.words| < WORDS
    ensures Inv(ReaderLoad(s).value)
  {
    assert Sequence(ReaderLoad(s).value) == Sequence(s);
  }

  lemma CheckKeepsInv(s: State)
    requires Inv(s) && Paced(s) && s.reader.Copying? && |s.reader.words| == WORDS
    ensures Inv(ReaderLoad(s).value)
  {
    StartedEven(s);
    if s.reader.before == s.mem[SEQ] {
      UnchangedMeansQuiet(s);
      assert s.mem[..WORDS] == s.mem;
    }
  }

  lemma LoadKeepsInv(s: State)
    requires Inv(s) && Paced(s) && ReaderLoad(s).Some?
    ensures Inv(ReaderLoad(s).value)
  {
    hide Inv, Paced;
    if s.reader.Start? {
      StartKeepsInv(s);
    } else if |s.reader.words| < WORDS {
      CopyKeepsInv(s);
    } else {
      CheckKeepsInv(s);
    }
  }

  lemma NextSequence(n: nat)
    ensures (n % WRAP + 1) % WRAP == (n + 1) % WRAP
  { }

  lemma WriterKeepsInv(s: State, e: Event)
    requires Inv(s) && !e.Load? && Apply(s, e).Some?
    ensures Inv(Apply(s, e).value)
  {
    NextSequence(Sequence(s));
    assert Apply(s, e).value.reader == s.reader;
    match e
    case Begin => assert Sequence(Apply(s, e).value) == Sequence(s) + 1;
    case Store(_, _) =>
    case Publish => assert Sequence(Apply(s, e).value) == Sequence(s) + 1;
  }

  lemma StepKeepsInv(s: State, e: Event)
    requires Inv(s) && Paced(s) && Apply(s, e).Some?
    ensures Inv(Apply(s, e).value)
  {
    hide Inv, Paced, ReaderLoad;
    if e.Load? {
      LoadKeepsInv(s);
    } else {
      WriterKeepsInv(s, e);
    }
  }

  lemma {:induction false} RunKeepsInv(s: State, es: seq<Event>)
    requires Initial(s) && PacedRun(s, es) && Exec(s, es).Some?
    ensures Inv(Exec(s, es).value)
    decreases |es|
  {
    if es != [] {
      RunKeepsInv(s, es[..|es| - 1]);
      StepKeepsInv(Exec(s, es[..|es| - 1]).value, es[|es| - 1]);
    }
  }

  // Main result: in every paced interleaving, an accepted copy is the record that was current when the
  // successful attempt began, whole and untorn, after at most four attempts of 29 loads each.
  lemma AcceptedCopyIsPublished(s: State, es: seq<Event>)
    requires Initial(s) && PacedRun(s, es) && Exec(s, es).Some?
    requires Exec(s, es).value.reader.Done?
    ensures var t := Exec(s, es).value;
            && 1 <= t.base <= |t.log| && t.reader.copy == t.log[t.base - 1]
            && t.reader.attempt <= MAX_ATTEMPTS && t.loads <= 29 * t.reader.attempt
  {
    RunKeepsInv(s, es);
  }

  // What the reader's bounded loops bound by themselves.
  predicate Counted(s: State) {
    match s.reader
    case Start(attempt) => 1 <= attempt <= MAX_ATTEMPTS && s.loads <= 29 * (attempt - 1)
    case Copying(attempt, _, words) =>
      1 <= attempt <= MAX_ATTEMPTS && s.loads <= 29 * (attempt - 1) + 1 + |words| && |words| <= WORDS
    case Done(attempt, _) => attempt <= MAX_ATTEMPTS && s.loads <= 29 * attempt
    case Failed => s.loads <= 29 * MAX_ATTEMPTS
  }

  lemma StepIsCounted(s: State, e: Event)
    requires Counted(s) && Apply(s, e).Some?
    ensures Counted(Apply(s, e).value)
  { }

  // The reader always finishes: whatever the writer does, and however much of it, it makes at most 116 loads.
  lemma {:induction false} LoadsAreBounded(s: State, es: seq<Event>)
    requires s.reader == Start(1) && s.loads == 0 && Exec(s, es).Some?
    ensures Counted(Exec(s, es).value) && Exec(s, es).value.loads <= 116
    decreases |es|
  {
    hide Apply;
    if es != [] {
      LoadsAreBounded(s, es[..|es| - 1]);
      StepIsCounted(Exec(s, es[..|es| - 1]).value, es[|es| - 1]);
    }
  }

  // The caller's verdict: the copy equals the expected cold tuple.
  predicate Verdict(s: State, expected: Record) {
    s.reader.Done? && s.reader.copy == expected
  }

  lemma VerdictMeansPublished(s: State, es: seq<Event>, expected: Record)
    requires Initial(s) && PacedRun(s, es) && Exec(s, es).Some?
    requires Verdict(Exec(s, es).value, expected)
    ensures expected in Exec(s, es).value.log
  {
    AcceptedCopyIsPublished(s, es);
  }

  // ---- An undisturbed attempt succeeds ----

  lemma ExecOne(s: State, e: Event)
    ensures Exec(s, [e]) == Apply(s, e)
  { }

  lemma {:induction false} ExecConcat(s: State, a: seq<Event>, b: seq<Event>)
    requires Exec(s, a).Some?
    ensures Exec(s, a + b) == Exec(Exec(s, a).value, b)
    decreases |b|
  {
    hide Apply;
    if b == [] {
      assert a + b == a;
    } else {
      assert (a + b)[..|a + b| - 1] == a + b[..|b| - 1];
      ExecConcat(s, a, b[..|b| - 1]);
    }
  }

  lemma ExecSnoc(s: State, es: seq<Event>, e: Event)
    requires Exec(s, es).Some?
    ensures Exec(s, es + [e]) == Apply(Exec(s, es).value, e)
  { }

  function Loads(n: nat): (es: seq<Event>) {
    if n == 0 then [] else Loads(n - 1) + [Load]
  }

  function Copied(s: State, n: nat): State
    requires s.reader.Copying? && |s.reader.words| + n <= WORDS
  {
    var words := s.reader.words;
    s.(reader := s.reader.(words := words + s.mem[|words|..|words| + n]), loads := s.loads + n)
  }

  lemma CopiedOne(s: State, n: nat)
    requires s.reader.Copying? && |s.reader.words| + n < WORDS
    ensures Apply(Copied(s, n), Load) == Some(Copied(s, n + 1))
  {
    var words := s.reader.words;
    var k := |words|;
    assert s.mem[k..k + n + 1] == s.mem[k..k + n] + [s.mem[k + n]];
    assert (words + s.mem[k..k + n]) + [s.mem[k + n]] == words + s.mem[k..k + n + 1];
  }

  lemma {:induction false} CopyOn(s: State, n: nat)
    requires s.reader.Copying? && |s.reader.words| + n <= WORDS
    ensures Exec(s, Loads(n)) == Some(Copied(s, n))
    decreases n
  {
    hide Copied, Apply, Exec;
    if n == 0 {
      NothingCopied(s);
    } else {
      CopyOn(s, n - 1);
      ExecSnoc(s, Loads(n - 1), Load);
      CopiedOne(s, n - 1);
    }
  }

  lemma NothingCopied(s: State)
    requires s.reader.Copying?
    ensures Exec(s, Loads(0)) == Some(Copied(s, 0))
  {
    assert s.reader.words + s.mem[|s.reader.words|..|s.reader.words|] == s.reader.words;
  }

  // With the writer idle an attempt delivers the current record with its 29 loads.
  lemma QuietAttemptSucceeds(s: State)
    requires s.reader.Start? && !s.writing && s.mem[SEQ] % 2 == 0
    ensures Exec(s, [Load] + Loads(27) + [Load])
         == Some(s.(reader := Done(s.reader.attempt, s.mem), base := |s.log|, loads := s.loads + 29))
  {
    hide Exec;
    ExecOne(s, Load);
    var m := Apply(s, Load).value;
    CopyOn(m, 27);
    ExecConcat(s, [Load], Loads(27));
    assert m.reader.words + s.mem[0..27] == s.mem;
    ExecSnoc(s, [Load] + Loads(27), Load);
  }

  // ---- The reader gives up after four disturbed attempts, and not before ----

  // The load at hand ends the attempt without a result: the sequence word is odd, or is not what it was.
  predicate Spoils(s: State) {
    match s.reader
    case Start(_) => s.mem[2] % 2 == 1
    case Copying(_, before, words) => |words| == 27 && (s.mem[2] != before || words[2] != before)
    case _ => false
  }

  // How many attempts of a run ended so.
  function Spoilt(s: State, es: seq<Event>): nat
    requires Exec(s, es).Some?
    decreases |es|
  {
    if es == [] then 0 else
    var m := Exec(s, es[..|es| - 1]).value;
    Spoilt(s, es[..|es| - 1]) + if es[|es| - 1] == Load && Spoils(m) then 1 else 0
  }

  // The attempt the reader is in, and what ended the earlier ones.
  predicate Attempted(r: Reader, spoilt: nat) {
    match r
    case Start(attempt) => attempt == spoilt + 1 <= 4
    case Copying(attempt, before, words) => attempt == spoilt + 1 <= 4 && |words| <= 27
    case Done(attempt, _) => attempt == spoilt + 1 <= 4
    case Failed => spoilt == 4
  }

  lemma StepAttempts(s: State, e: Event, spoilt: nat)
    requires Attempted(s.reader, spoilt) && Apply(s, e).Some?
    ensures Attempted(Apply(s, e).value.reader, spoilt + if e == Load && Spoils(s) then 1 else 0)
  { }

  // Main result: whatever the writer does, the reader fails exactly when four attempts met an odd or a changed
  // sequence word; after fewer of them it is in the next attempt, or has its copy from it.
  lemma {:induction false} FailsAfterFourIff(s: State, es: seq<Event>)
    requires s.reader == Start(1) && Exec(s, es).Some?
    ensures Attempted(Exec(s, es).value.reader, Spoilt(s, es))
    ensures Exec(s, es).value.reader == Failed <==> Spoilt(s, es) == 4
    decreases |es|
  {
    hide Apply, Spoils;
    if es != [] {
      FailsAfterFourIff(s, es[..|es| - 1]);
      StepAttempts(Exec(s, es[..|es| - 1]).value, es[|es| - 1], Spoilt(s, es[..|es| - 1]));
    }
  }

  // An attempt that begins with the i-th event, while the writer is idle, and through which it stays idle.
  ghost predicate QuietAttempt(s: State, es: seq<Event>, i: nat) {
    && i + 29 <= |es| && (forall k :: i <= k < i + 29 ==> es[k] == Load)
    && Exec(s, es[..i]).Some?
    && var t := Exec(s, es[..i]).value; t.reader.Start? && !t.writing && t.mem[2] % 2 == 0
  }

  lemma {:induction false} LoadsAre(n: nat)
    ensures |Loads(n)| == n && forall k :: 0 <= k < n ==> Loads(n)[k] == Load
  {
    if n > 0 {
      LoadsAre(n - 1);
    }
  }

  lemma LoadsOfAttempt()
    ensures |[Load] + Loads(27) + [Load]| == 29
    ensures forall k :: 0 <= k < 29 ==> ([Load] + Loads(27) + [Load])[k] == Load
  {
    LoadsAre(27);
    hide Loads;
  }

  lemma {:induction false} DoneStays(s: State, es: seq<Event>)
    requires s.reader.Done? && Exec(s, es).Some?
    ensures Exec(s, es).value.reader == s.reader
    decreases |es|
  {
    if es != [] {
      DoneStays(s, es[..|es| - 1]);
    }
  }

  lemma {:induction false} ExecPrefix(s: State, es: seq<Event>, i: nat)
    requires i <= |es| && Exec(s, es).Some?
    ensures Exec(s, es[..i]).Some?
    decreases |es|
  {
    if i == |es| {
      assert es[..i] == es;
    } else {
      assert es[..|es| - 1][..i] == es[..i];
      ExecPrefix(s, es[..|es| - 1], i);
    }
  }

  // Main result: a quiet attempt, whichever of the four it is, leaves the reader with the record of that time.
  lemma QuietAttemptDecides(s: State, es: seq<Event>, i: nat)
    requires Exec(s, es).Some? && QuietAttempt(s, es, i)
    ensures Exec(s, es).value.reader.Done? && Exec(s, es).value.reader.copy == Exec(s, es[..i]).value.mem
  {
    hide Exec, Loads;
    var t := Exec(s, es[..i]).value;
    LoadsOfAttempt();
    var attempt := [Load] + Loads(27) + [Load];
    assert es[i..i + 29] == attempt;
    QuietAttemptSucceeds(t);
    assert es[..i + 29] == es[..i] + attempt && es == es[..i + 29] + es[i + 29..];
    ExecConcat(s, es[..i], attempt);
    ExecPrefix(s, es, i + 29);
    ExecConcat(s, es[..i + 29], es[i + 29..]);
    DoneStays(Exec(s, es[..i + 29]).value, es[i + 29..]);
  }

  // ---- The pacing bound is exact ----

  // n publications that change nothing but the sequence word.
  function Churn(n: nat): (es: seq<Event>) {
    if n == 0 then [] else Churn(n - 1) + [Begin] + [Publish]
  }

  // t is s after such publications; none of them touched word 0.
  ghost predicate Churned(s: State, t: State, n: nat) {
    && t == s.(mem := s.mem[SEQ := (s.mem[SEQ] + 2 * n) % WRAP], log := t.log)
    && |t.log| == |s.log| + n && t.log[..|s.log|] == s.log
    && forall k :: |s.log| <= k < |t.log| ==> t.log[k][0] == s.mem[0]
  }

  lemma BumpTwice(m: int)
    ensures ((m % WRAP + 1) % WRAP + 1) % WRAP == (m + 2) % WRAP
  {
  }

  lemma ChurnedOnce(s: State, t: State, n: nat)
    requires !s.writing && Churned(s, t, n)
    ensures Apply(t, Begin).Some? && Apply(Apply(t, Begin).value, Publish).Some?
    ensures Churned(s, Apply(Apply(t, Begin).value, Publish).value, n + 1)
  {
    var u := Apply(Apply(t, Begin).value, Publish).value;
    BumpTwice(s.mem[SEQ] + 2 * n);
    assert u.mem == s.mem[SEQ := (s.mem[SEQ] + 2 * (n + 1)) % WRAP];
    assert u.log == t.log + [u.mem];
  }

  lemma {:induction false} ChurnEffect(s: State, n: nat)
    requires !s.writing
    ensures Exec(s, Churn(n)).Some? && Churned(s, Exec(s, Churn(n)).value, n)
    decreases n
  {
    if n == 0 {
      assert s.mem[SEQ := s.mem[SEQ] % WRAP] == s.mem;
    } else {
      hide Exec, Apply, Churned;
      ChurnEffect(s, n - 1);
      ChurnedOnce(s, Exec(s, Churn(n - 1)).value, n - 1);
      ExecSnoc(s, Churn(n - 1), Begin);
      ExecSnoc(s, Churn(n - 1) + [Begin], Publish);
    }
  }

  const ZERO: Record := seq(27, i => 0)
  const START: State := State(ZERO, 0, false, [ZERO], Start(1), 0, 0)
  const LATER: Record := ZERO[0 := 1][1 := 1][SEQ := 2]
  const TORN: State := State(LATER, 0, false, [ZERO, LATER], Copying(1, 0, [0]), 1, 2)

  // Two loads, then a publication that changes words 0 and 1.
  lemma Opening() returns (es: seq<Event>)
    ensures Exec(START, es) == Some(TORN)
  {
    hide Exec;
    var s1 := START.(reader := Copying(1, 0, []), base := 1, loads := 1);
    var s2 := s1.(reader := Copying(1, 0, [0]), loads := 2);
    var s3 := s2.(writing := true, mem := ZERO[SEQ := 1]);
    var s4 := s3.(mem := ZERO[SEQ := 1][0 := 1]);
    var s5 := s3.(mem := ZERO[SEQ := 1][0 := 1][1 := 1]);
    assert Apply(START, Load) == Some(s1);
    assert [] + [ZERO[0]] == [0];
    assert Apply(s1, Load) == Some(s2);
    assert Apply(s2, Begin) == Some(s3);
    assert Apply(s3, Store(0, 1)) == Some(s4);
    assert Apply(s4, Store(1, 1)) == Some(s5);
    assert ZERO[SEQ := 1][0 := 1][1 := 1][SEQ := 2] == LATER;
    assert s5.mem[SEQ] == 1 && [ZERO] + [LATER] == [ZERO, LATER];
    assert Apply(s5, Publish) == Some(TORN);
    hide Apply;
    ExecOne(START, Load);
    ExecSnoc(START, [Load], Load);
    ExecSnoc(START, [Load] + [Load], Begin);
    ExecSnoc(START, [Load] + [Load] + [Begin], Store(0, 1));
    ExecSnoc(START, [Load] + [Load] + [Begin] + [Store(0, 1)], Store(1, 1));
    es := [Load] + [Load] + [Begin] + [Store(0, 1)] + [Store(1, 1)];
    ExecSnoc(START, es, Publish);
    es := es + [Publish];
  }

  // The copy as the reader completes it once the sequence word has come round to zero again.
  lemma Closing(m: State, n: nat)
    requires n == 0x7fff_ffff && Churned(TORN, m, n)
    ensures ReaderLoad(Copied(m, 26)).Some?
    ensures var t := ReaderLoad(Copied(m, 26)).value;
            t.reader.Done? && t.reader.copy !in t.log && |t.log| == t.base + 0x8000_0000
  {
    assert m.mem == LATER[SEQ := 0];
    var words := [0] + m.mem[1..27];
    assert words[0] == 0 && words[1] == 1 && words[SEQ] == 0;
    var t := ReaderLoad(Copied(m, 26)).value;
    forall k | 0 <= k < |t.log| ensures t.reader.copy != t.log[k] {
      if k < 2 {
        assert t.log[k] == m.log[..2][k];
      }
    }
  }

  // After exactly 2^31 publications within one attempt a torn copy that no writer ever published passes.
  lemma TornCopyAtTheBound()
    ensures exists es: seq<Event> ::
              && Initial(START) && Exec(START, es).Some?
              && Exec(START, es).value.reader.Done?
              && Exec(START, es).value.reader.copy !in Exec(START, es).value.log
              && |Exec(START, es).value.log| == Exec(START, es).value.base + 0x8000_0000
  {
    var n := 0x7fff_ffff;
    var opening := Opening();
    hide Exec, Copied, ReaderLoad, Churned;
    ChurnEffect(TORN, n);
    var m := Exec(TORN, Churn(n)).value;
    Closing(m, n);
    ExecConcat(START, opening, Churn(n));
    assert m.reader == Copying(1, 0, [0]) by { ChurnKeepsReader(TORN, m, n); }
    CopyOn(m, 26);
    ExecConcat(START, opening + Churn(n), Loads(26));
    ExecSnoc(START, opening + Churn(n) + Loads(26), Load);
    var es := opening + Churn(n) + Loads(26) + [Load];
    assert Exec(START, es) == ReaderLoad(Copied(m, 26));
  }

  lemma ChurnKeepsReader(s: State, t: State, n: nat)
    requires Churned(s, t, n)
    ensures t.reader == s.reader
  {
  }
}
