/** The rollover-safe 64-bit timer read, and the chain of samples built from it. */
module TimeAnchor {
  import opened Prelude

  const MAX_ATTEMPTS: nat := 4
  const TWO_64: nat := 0x1_0000_0000_0000_0000

  datatype RawRead = RawRead(highBefore: u32, low: u32, highAfter: u32, attempts: nat)

  function Raw64(r: RawRead): nat {
    r.highBefore * TWO_32 + r.low
  }

  type u64 = w: int | 0 <= w < 0x1_0000_0000_0000_0000

  // The counter's true value at the successive instants at which it is read.
  ghost predicate Monotone(instants: seq<u64>) {
    forall i, j :: 0 <= i <= j < |instants| ==> instants[i] <= instants[j]
  }

  class Counter {
    const instants: seq<u64>
    var taken: nat          // reads made so far

    constructor (instants: seq<u64>)
      ensures this.instants == instants && taken == 0
    {
      this.instants := instants;
      taken := 0;
    }

    // Offset 0 is the high word, offset 4 the low one.
    method Read(offset: nat) returns (word: u32)
      requires taken < |instants| && (offset == 0 || offset == 4)
      modifies this
      ensures taken == old(taken) + 1
      ensures word == if offset == 0 then instants[old(taken)] / TWO_32 else instants[old(taken)] % TWO_32
    {
      word := if offset == 0 then instants[taken] / TWO_32 else instants[taken] % TWO_32;
      taken := taken + 1;
    }
  }

  // The attempt that makes reads 3k, 3k+1 and 3k+2.
  function Attempt(instants: seq<u64>, k: nat): RawRead
    requires 3 * k + 2 < |instants|
  {
    RawRead(instants[3 * k] / TWO_32, instants[3 * k + 1] % TWO_32, instants[3 * k + 2] / TWO_32, k + 1)
  }

  predicate Stable(r: RawRead) {
    r.highBefore == r.highAfter
  }

  // The result is the first stable attempt, or the last of the four.
  method ReadRaw(counter: Counter) returns (raw: RawRead)
    requires counter.taken == 0 && |counter.instants| >= 12
    modifies counter
    ensures 1 <= raw.attempts <= 4 && counter.taken == 3 * raw.attempts
    ensures raw == Attempt(counter.instants, raw.attempts - 1)
    ensures forall k :: 0 <= k < raw.attempts - 1 ==> !Stable(Attempt(counter.instants, k))
    ensures !Stable(raw) ==> raw.attempts == 4
  {
    raw := RawRead(0, 0, 0, 0);
    for attempt := 1 to MAX_ATTEMPTS + 1
      invariant counter.taken == 3 * (attempt - 1)
      invariant attempt > 1 ==> raw == Attempt(counter.instants, attempt - 2)
      invariant forall k :: 0 <= k < attempt - 1 ==> !Stable(Attempt(counter.instants, k))
    {
      var highBefore := counter.Read(0);
      var low := counter.Read(4);
      var highAfter := counter.Read(0);
      raw := RawRead(highBefore, low, highAfter, attempt);
      assert raw == Attempt(counter.instants, attempt - 1);
      if raw.highBefore == raw.highAfter {
        break;
      }
    }
  }

  // Main result: a stable read is the counter's exact value at the instant of its low read.
  lemma StableReadIsExact(instants: seq<u64>, k: nat)
    requires Monotone(instants) && 3 * k + 2 < |instants| && Stable(Attempt(instants, k))
    ensures Raw64(Attempt(instants, k)) == instants[3 * k + 1]
  { }

  lemma HighMonotone(a: nat, b: nat)
    requires a <= b
    ensures a / TWO_32 <= b / TWO_32
  {
  }

  // Every unstable attempt spends at least one step of the high word.
  lemma {:induction false} UnstableAttemptsAdvance(instants: seq<u64>, n: nat)
    requires Monotone(instants) && 1 <= n && 3 * n <= |instants|
    requires forall k :: 0 <= k < n ==> !Stable(Attempt(instants, k))
    ensures instants[3 * n - 1] / TWO_32 >= instants[0] / TWO_32 + n
    decreases n
  {
    var a, c := instants[3 * n - 3], instants[3 * n - 1];
    HighMonotone(a, c);
    assert !Stable(Attempt(instants, n - 1));
    if n > 1 {
      UnstableAttemptsAdvance(instants, n - 1);
      HighMonotone(instants[3 * n - 4], a);
    }
  }

  // Main result: if the counter advances by at most (m - 1) * 2^32 over the first m attempts, one of them is
  // stable; in particular an advance below 2^32 means success by attempt two.
  lemma StableWithin(instants: seq<u64>, m: nat) returns (k: nat)
    requires Monotone(instants) && 1 <= m && 3 * m <= |instants|
    requires instants[3 * m - 1] - instants[0] <= (m - 1) * TWO_32
    ensures k < m && Stable(Attempt(instants, k))
  {
    if forall i :: 0 <= i < m ==> !Stable(Attempt(instants, i)) {
      UnstableAttemptsAdvance(instants, m);
    }
    k :| 0 <= k < m && Stable(Attempt(instants, k));
  }

  // The bound is exact: an advance of one more can leave every one of the m attempts unstable.
  function CrossingInstant(i: nat): nat {
    if i == 0 then TWO_32 - 1 else (i + 2) / 3 * TWO_32
  }

  lemma BoundIsExact(m: nat) returns (instants: seq<u64>)
    requires 1 <= m <= 4
    ensures Monotone(instants) && |instants| == 3 * m
    ensures instants[3 * m - 1] - instants[0] == (m - 1) * TWO_32 + 1
    ensures forall k :: 0 <= k < m ==> !Stable(Attempt(instants, k))
  {
    instants := seq(3 * m, i requires 0 <= i < 3 * m => CrossingInstant(i));
    forall i, j | 0 <= i <= j < |instants| ensures instants[i] <= instants[j] {
      CrossingGrows(i, j);
    }
    forall k | 0 <= k < m ensures !Stable(Attempt(instants, k)) {
      CrossingAttempt(k);
    }
  }

  lemma CrossingGrows(i: nat, j: nat)
    requires i <= j
    ensures CrossingInstant(i) <= CrossingInstant(j)
  {
  }

  lemma CrossingAttempt(k: nat)
    ensures CrossingInstant(3 * k) / TWO_32 == k && CrossingInstant(3 * k + 2) / TWO_32 == k + 1
  {
  }

  // ---- Chains of samples ----

  datatype Sample = Sample(
    hostBefore: u64, hostAfter: u64, cntfrq: u64, cntvoffBefore: u64, cntvoffAfter: u64,
    raw: RawRead, mapError: Option<string>)

  function OwnError(s: Sample): string {
    if s.mapError.Some? then s.mapError.value
    else if s.raw.highBefore != s.raw.highAfter then "rollover-exhausted"
    else if Raw64(s.raw) == TWO_64 - 1 then "all-ones"
    else if s.hostAfter < s.hostBefore then "host-order"
    else if s.cntfrq == 0 then "cntfrq-zero"
    else if s.cntvoffBefore != s.cntvoffAfter then "cntvoff-change"
    else "none"
  }

  function Error(s: Sample, previous: Option<Sample>): string {
    var own := OwnError(s);
    if own != "none" then own
    else match previous
      case None => "none"
      case Some(prev) =>
        if s.hostBefore < prev.hostAfter then "host-order"
        else if s.cntfrq != prev.cntfrq then "cntfrq-change"
        else if s.cntvoffBefore != prev.cntvoffAfter then "cntvoff-change"
        else if OwnError(prev) == "none" && Raw64(s.raw) < Raw64(prev.raw) then "raw-backwards"
        else "none"
  }

  // No sample of the run is in error, each judged against its predecessor.
  ghost predicate CleanRun(samples: seq<Sample>) {
    forall i :: 0 <= i < |samples| ==> Error(samples[i], Before(samples, i)) == "none"
  }

  function Before(samples: seq<Sample>, i: nat): Option<Sample>
    requires i < |samples|
  {
    if i == 0 then None else Some(samples[i - 1])
  }

  predicate Sound(s: Sample) {
    && s.raw.highBefore == s.raw.highAfter && Raw64(s.raw) != 0xffff_ffff_ffff_ffff
    && s.hostBefore <= s.hostAfter && s.cntfrq != 0 && s.cntvoffBefore == s.cntvoffAfter
  }

  // One sample after another: host intervals in order, raw time not backwards, same clock and offset.
  predicate Later(a: Sample, b: Sample) {
    && a.hostAfter <= b.hostBefore && Raw64(a.raw) <= Raw64(b.raw)
    && a.cntfrq == b.cntfrq && a.cntvoffAfter == b.cntvoffBefore
  }

  ghost predicate NoMapErrors(samples: seq<Sample>) {
    forall i :: 0 <= i < |samples| ==> samples[i].mapError.None? || samples[i].mapError == Some("bar1-range")
                                       || samples[i].mapError == Some("bar1-alignment-overflow")
  }

  lemma OwnErrorIsSound(s: Sample)
    requires s.mapError.Some? ==> s.mapError.value != "none"
    ensures OwnError(s) == "none" <==> s.mapError.None? && Sound(s)
  { }

  lemma DistinctTexts()
    ensures "rollover-exhausted" != "none" && "all-ones" != "none" && "host-order" != "none" && "cntfrq-zero" != "none"
    ensures "cntvoff-change" != "none" && "cntfrq-change" != "none" && "raw-backwards" != "none"
    ensures "bar1-range" != "none" && "bar1-alignment-overflow" != "none"
  { }

  lemma ErrorIsOrder(s: Sample, prev: Sample)
    requires OwnError(prev) == "none" && OwnError(s) == "none" && Sound(prev) && Sound(s)
    ensures Error(s, Some(prev)) == "none" <==> Later(prev, s)
  { }

  // What can be wrong with a mapped sample, most serious first, and the text that says so.
  predicate Fault(s: Sample, previous: Option<Sample>, k: nat) {
    match k
    case 0 => s.raw.highBefore != s.raw.highAfter
    case 1 => Raw64(s.raw) == 0xffff_ffff_ffff_ffff
    case 2 => s.hostAfter < s.hostBefore
    case 3 => s.cntfrq == 0
    case 4 => s.cntvoffBefore != s.cntvoffAfter
    case 5 => previous.Some? && s.hostBefore < previous.value.hostAfter
    case 6 => previous.Some? && s.cntfrq != previous.value.cntfrq
    case 7 => previous.Some? && s.cntvoffBefore != previous.value.cntvoffAfter
    case _ => previous.Some? && previous.value.mapError.None? && Sound(previous.value) && Raw64(s.raw) < Raw64(previous.value.raw)
  }

  const TEXTS := ["rollover-exhausted", "all-ones", "host-order", "cntfrq-zero", "cntvoff-change",
                  "host-order", "cntfrq-change", "cntvoff-change", "raw-backwards"]

  // The error of a mapped sample is the text of its first fault.
  lemma FirstFaultIsTold(s: Sample, previous: Option<Sample>, k: nat)
    requires s.mapError.None? && (previous.Some? && previous.value.mapError.Some? ==> previous.value.mapError.value != "none")
    requires k <= 9 && forall j :: 0 <= j < k ==> !Fault(s, previous, j)
    ensures k < 9 && Fault(s, previous, k) ==> Error(s, previous) == TEXTS[k]
    ensures k == 9 ==> Error(s, previous) == "none"
  {
    DistinctTexts();
    if previous.Some? {
      OwnErrorIsSound(previous.value);
    }
    assert (k > 0 ==> !Fault(s, previous, 0)) && (k > 1 ==> !Fault(s, previous, 1)) && (k > 2 ==> !Fault(s, previous, 2));
    assert (k > 3 ==> !Fault(s, previous, 3)) && (k > 4 ==> !Fault(s, previous, 4)) && (k > 5 ==> !Fault(s, previous, 5));
    assert (k > 6 ==> !Fault(s, previous, 6)) && (k > 7 ==> !Fault(s, previous, 7)) && (k > 8 ==> !Fault(s, previous, 8));
  }

  // Main result: a run is clean exactly when every sample is sound and each is later than its predecessor.
  lemma CleanIffOrdered(samples: seq<Sample>)
    requires NoMapErrors(samples)
    ensures CleanRun(samples)
       <==> && (forall i :: 0 <= i < |samples| ==> samples[i].mapError.None? && Sound(samples[i]))
            && (forall i :: 1 <= i < |samples| ==> Later(samples[i - 1], samples[i]))
  {
    DistinctTexts();
    forall i | 0 <= i < |samples| ensures OwnError(samples[i]) == "none" <==> samples[i].mapError.None? && Sound(samples[i])
    {
      OwnErrorIsSound(samples[i]);
    }
    forall i | 1 <= i < |samples| && OwnError(samples[i - 1]) == "none" && OwnError(samples[i]) == "none"
      ensures Error(samples[i], Before(samples, i)) == "none" <==> Later(samples[i - 1], samples[i])
    {
      ErrorIsOrder(samples[i], samples[i - 1]);
    }
    OwnFirst(samples);
    hide OwnError, Error, Sound, Later;
    if CleanRun(samples) {
      forall i | 1 <= i < |samples| ensures Later(samples[i - 1], samples[i]) {
        assert Error(samples[i], Before(samples, i)) == "none";
      }
    } else {
      var i :| 0 <= i < |samples| && Error(samples[i], Before(samples, i)) != "none";
    }
  }

  lemma OwnFirst(samples: seq<Sample>)
    ensures forall i :: 0 <= i < |samples| && Error(samples[i], Before(samples, i)) == "none" ==> OwnError(samples[i]) == "none"
    ensures |samples| > 0 && OwnError(samples[0]) == "none" ==> Error(samples[0], Before(samples, 0)) == "none"
  {
  }

  // Over a clean run the order holds between any two samples, not only neighbours.
  lemma {:induction false} CleanMeansLater(samples: seq<Sample>, i: nat, j: nat)
    requires NoMapErrors(samples) && CleanRun(samples) && i < j < |samples|
    ensures Later(samples[i], samples[j])
    decreases j
  {
    CleanIffOrdered(samples);
    hide CleanRun, NoMapErrors, Error;
    assert Later(samples[j - 1], samples[j]);
    if i < j - 1 {
      LaterStep(samples, i, j - 1);
    }
  }

  lemma {:induction false} LaterStep(samples: seq<Sample>, i: nat, j: nat)
    requires forall k :: 0 <= k < |samples| ==> Sound(samples[k])
    requires forall k :: 1 <= k < |samples| ==> Later(samples[k - 1], samples[k])
    requires i < j < |samples|
    ensures Later(samples[i], samples[j])
    decreases j
  {
    assert Later(samples[j - 1], samples[j]);
    if i < j - 1 {
      LaterStep(samples, i, j - 1);
    }
  }
}
