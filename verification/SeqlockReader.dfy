/**
 * The reader as it is written: bounded attempts, each a load of the sequence
 * word, a copy and a second load (rp1_debug_stub.rs:301-341, 423-434). Every run of it
 * is a run of the interleaving model, so what that model guarantees holds for
 * its answer.
 */
module SeqlockReader {
  import opened Prelude
  import opened Seqlock
  import ChunkedAccess

  // Where the record is in RP1's shared memory, and how long it is in bytes.
  const RECORD_AT: u32 := 0x2000_a298
  const RECORD_BYTES: nat := 108
  const ADDRESS_LIMIT: nat := 0x1_0000_0000_0000_0000

  // The record lies in the window, at an aligned host address that does not wrap around.
  predicate Reachable(sramBase: nat, sramSize: nat) {
    var window := if sramSize < ChunkedAccess.SRAM_SIZE then sramSize else ChunkedAccess.SRAM_SIZE;
    var at := ChunkedAccess.Translate(window, RECORD_AT, RECORD_BYTES);
    && at.Some?
    && (sramBase + at.value) % 4 == 0
    && sramBase + at.value + RECORD_BYTES < ADDRESS_LIMIT
  }

  // The word a reader loads next, and where the value takes it.
  function Wants(r: Reader): (i: nat)
    ensures i < WORDS
  {
    if r.Copying? && |r.words| < WORDS then |r.words| else SEQ
  }

  function After(r: Reader, word: u32): Reader
    requires r.Start? || r.Copying?
  {
    match r
    case Start(attempt) => if word % 2 != 0 then Retry(attempt) else Copying(attempt, word, [])
    case Copying(attempt, before, words) =>
      if |words| < WORDS then Copying(attempt, before, words + [word])
      else if before != word || words[SEQ] != before then Retry(attempt)
      else Done(attempt, words)
  }

  lemma LoadIsAfter(s: State)
    requires s.reader.Start? || s.reader.Copying?
    ensures ReaderLoad(s).Some?
    ensures ReaderLoad(s).value.reader == After(s.reader, s.mem[Wants(s.reader)])
  { }

  // The writer's events that are possible, one after another; others are left out.
  function Possible(s: State, es: seq<Event>): (State, seq<Event>)
    decreases |es|
  {
    if es == [] then (s, []) else
    var (m, done) := Possible(s, es[..|es| - 1]);
    var e := es[|es| - 1];
    if e == Load then (m, done) else
    match Apply(m, e)
    case None => (m, done)
    case Some(t) => (t, done + [e])
  }

  lemma {:induction false} PossibleRuns(s: State, es: seq<Event>)
    ensures var (t, done) := Possible(s, es);
            Exec(s, done) == Some(t) && t.reader == s.reader
    decreases |es|
  {
    if es != [] {
      var e := es[|es| - 1];
      var (m, done) := Possible(s, es[..|es| - 1]);
      PossibleRuns(s, es[..|es| - 1]);
      hide Exec;
      ExecSnoc(s, done, e);
    }
  }

  // Some attempt of the run meets an idle writer and this record, and the writer stays idle through it.
  ghost predicate QuietRecord(s: State, es: seq<Event>, expected: Record) {
    exists i: nat :: QuietWith(s, es, i, expected)
  }

  ghost predicate QuietWith(s: State, es: seq<Event>, i: nat, expected: Record) {
    QuietAttempt(s, es, i) && Exec(s, es[..i]).value.mem == expected
  }

  lemma QuietIsRecognised(s: State, es: seq<Event>, i: nat, expected: Record)
    requires Exec(s, es).Some? && QuietWith(s, es, i, expected)
    ensures Verdict(Exec(s, es).value, expected)
  {
    hide Exec;
    QuietAttemptDecides(s, es, i);
  }

  // Where the record must be: at offset 0xa298 of the 64 KiB window, 108 bytes, at a multiple of four.
  lemma ReachableIff(sramBase: nat, sramSize: nat)
    ensures Reachable(sramBase, sramSize) <==>
            && 0xa298 + 108 <= sramSize && (sramBase + 0xa298) % 4 == 0
            && sramBase + 0xa298 + 108 < 0x1_0000_0000_0000_0000
  { }

  lemma PacedVerdict(s: State, es: seq<Event>, expected: Record)
    requires Initial(s) && Exec(s, es).Some?
    ensures Exec(s, es).value.loads <= 116
    ensures PacedRun(s, es) && Verdict(Exec(s, es).value, expected) ==> expected in Exec(s, es).value.log
    ensures Exec(s, es).value.reader == Failed <==> Spoilt(s, es) == 4
    ensures QuietRecord(s, es, expected) ==> Verdict(Exec(s, es).value, expected)
  {
    hide Exec, PacedRun, QuietWith, Spoilt;
    LoadsAreBounded(s, es);
    FailsAfterFourIff(s, es);
    if QuietRecord(s, es, expected) {
      var i: nat :| QuietWith(s, es, i, expected);
      QuietIsRecognised(s, es, i, expected);
    }
    if PacedRun(s, es) && Verdict(Exec(s, es).value, expected) {
      VerdictMeansPublished(s, es, expected);
    }
  }

  // A record shared with a writer that may do anything between two loads.
  class SharedRecord {
    const start: State
    const schedule: nat -> seq<Event>
    var now: State
    var ticks: nat
    ghost var run: seq<Event>

    ghost predicate Valid()
      reads this
    {
      Initial(start) && Exec(start, run) == Some(now)
    }

    constructor (start: State, schedule: nat -> seq<Event>)
      requires Initial(start)
      ensures Valid() && now == start
    {
      this.start, this.schedule := start, schedule;
      now, ticks, run := start, 0, [];
    }

    method LoadWord(i: nat) returns (word: u32)
      requires Valid() && (now.reader.Start? || now.reader.Copying?) && i == Wants(now.reader)
      modifies this
      ensures Valid() && now.reader == After(old(now).reader, word)
    {
      hide Exec, ReaderLoad;
      var (m, done) := Possible(now, schedule(ticks));
      PossibleRuns(now, schedule(ticks));
      ExecConcat(start, run, done);
      ExecSnoc(start, run + done, Load);
      LoadIsAfter(m);
      run := run + done + [Load];
      ticks := ticks + 1;
      word := m.mem[i];
      now := ReaderLoad(m).value;
    }

    // Whether the record can be reached, and a stable copy was obtained and is
    // the expected record. At most 116 loads are made, and none at all of what is
    // out of reach. If fewer than 2^31 records are published during any attempt,
    // a positive answer means that the record was published. The reader gives up
    // exactly after four disturbed attempts, and one attempt that the writer leaves
    // alone is enough to recognise the expected record.
    method LogScmiColdSample(sramBase: nat, sramSize: nat, expected: Record) returns (ok: bool)
      requires Valid() && now.reader == Start(1) && sramBase < ADDRESS_LIMIT
      modifies this
      ensures Valid()
      ensures ok <==> Reachable(sramBase, sramSize) && Verdict(now, expected)
      ensures !Reachable(sramBase, sramSize) ==> now == old(now)
      ensures Reachable(sramBase, sramSize) ==> now.reader.Done? || now.reader == Failed
      ensures now.loads <= 116
      ensures PacedRun(start, run) && ok ==> expected in now.log
      ensures Reachable(sramBase, sramSize) ==> Exec(start, run) == Some(now) && (now.reader == Failed <==> Spoilt(start, run) == 4)
      ensures Reachable(sramBase, sramSize) && QuietRecord(start, run, expected) ==> ok
    {
      hide Exec, PacedRun, Initial, Apply, QuietRecord, Spoilt;
      var window := if sramSize < ChunkedAccess.SRAM_SIZE then sramSize else ChunkedAccess.SRAM_SIZE;
      var at := ChunkedAccess.Translate(window, RECORD_AT, RECORD_BYTES);
      if at.None? {
        PacedVerdict(start, run, expected);
        return false;
      }
      var base := sramBase + at.value;
      if base % 4 != 0 || base + RECORD_BYTES >= ADDRESS_LIMIT {
        PacedVerdict(start, run, expected);
        return false;
      }
      var attempt := 1;
      while attempt <= MAX_ATTEMPTS
        invariant 1 <= attempt <= MAX_ATTEMPTS + 1 && Valid()
        invariant now.reader == if attempt <= MAX_ATTEMPTS then Start(attempt) else Failed
      {
        var before := LoadWord(SEQ);
        if before % 2 != 0 {
          attempt := attempt + 1;
          continue;
        }
        var words: Partial := [];
        while |words| < WORDS
          invariant Valid() && now.reader == Copying(attempt, before, words)
        {
          var word := LoadWord(|words|);
          words := words + [word];
        }
        var after := LoadWord(SEQ);
        if before != after || words[SEQ] != before {
          attempt := attempt + 1;
          continue;
        }
        PacedVerdict(start, run, expected);
        return words == expected;
      }
      PacedVerdict(start, run, expected);
      return false;
    }
  }
}
