/**
 The admission monitors: sticky-valid machines that watch 31 records and decide once at the end.
 Each is proved to decide one predicate on the whole history of calls it was given.
 */
module Admission {
  const SAMPLES: nat := 31
  const FIRST_STEADY: nat := 3
  const WRAP: int := 0x1_0000_0000

  type Record = r: seq<bv32> | |r| == 256 witness seq(256, i => 0)

  // One call of sample: the number the caller gives and the record it shows.
  datatype Call = Call(number: nat, words: Record)

  function U(w: bv32): int {
    w as int
  }

  // u32 wrapping_sub, as a number.
  function Delta(now: bv32, before: bv32): int {
    (U(now) - U(before)) % WRAP
  }

  // The counter moved forward, by less than half its range.
  predicate Moved(now: bv32, before: bv32) {
    1 <= Delta(now, before) < 0x8000_0000
  }

  // ---- What a history must look like, for any monitor ----

  ghost predicate Advances(now: Record, before: Record, watched: seq<nat>) {
    forall k :: 0 <= k < |watched| && watched[k] < 256 ==> Moved(now[watched[k]], before[watched[k]])
  }

  ghost predicate StepOk(h: seq<Call>, i: nat, always: Record -> bool, steady: Record -> bool, watched: seq<nat>)
    requires i < |h|
  {
    && h[i].number == i && i < SAMPLES && always(h[i].words)
    && (i >= FIRST_STEADY ==> steady(h[i].words))
    && (i > FIRST_STEADY ==> Advances(h[i].words, h[i - 1].words, watched))
  }

  // Every call so far was numbered in order, passed its checks and moved the watched counters.
  ghost predicate TraceOk(h: seq<Call>, always: Record -> bool, steady: Record -> bool, watched: seq<nat>) {
    forall i :: 0 <= i < |h| ==> StepOk(h, i, always, steady, watched)
  }

  // Between records 3 and 30, elapsed microseconds per tick stay within five per cent of a thousand.
  predicate RateOk(first: Record, last: Record) {
    RateBound(Delta(last[8], first[8]), Delta(last[11], first[11]))
  }

  predicate RateBound(ticks: int, elapsed: int) {
    ticks > 0 && 950 * ticks <= elapsed <= 1050 * ticks
  }

  ghost predicate Admitted(h: seq<Call>, always: Record -> bool, steady: Record -> bool, watched: seq<nat>) {
    |h| == SAMPLES && TraceOk(h, always, steady, watched) && RateOk(h[FIRST_STEADY].words, h[SAMPLES - 1].words)
  }

  lemma TraceGrows(h: seq<Call>, s: Call, always: Record -> bool, steady: Record -> bool, watched: seq<nat>)
    ensures TraceOk(h + [s], always, steady, watched)
       <==> TraceOk(h, always, steady, watched) && StepOk(h + [s], |h|, always, steady, watched)
  {
    var t := h + [s];
    assert forall i :: 0 <= i < |h| ==> t[i] == h[i];
    assert forall i :: 0 <= i < |h| ==> StepOk(t, i, always, steady, watched) == StepOk(h, i, always, steady, watched);
  }

  // ---- R1Admission ----

  const R1_WATCHED: seq<nat> := [8, 9, 14, 15, 17, 49, 50, 64, 80]

  predicate InHeap(a: bv32) {
    0x2000_0000 <= a < 0x2000_e000
  }

  predicate R1Always(w: Record) {
    w[0] == 0x3130_5452 && w[1] == 1 && w[2] != 0xffff_ffff && w[3] == 0 && w[4] == 0 && w[192] != 0x3154_4652
  }

  predicate R1Steady(w: Record) {
    && w[2] == 5 && w[19] == 0x1357_9bdf && w[20] == 0
    && w[28] == 0 && w[29] & 3 == 2 && w[30] & 7 == 0
    && 0x2000_e000 <= w[31] <= 0x2000_f000
    && w[21] & 0x700 == 0 && U(w[22]) + 1 == U(w[5]) / 1000
    && w[39] == 1 && w[17] > 0 && w[50] > 0
    && 1 <= w[18] < 4096 && (forall i :: 32 <= i < 39 ==> w[i] > 0)
    && w[70] == 0 && w[86] == 0 && w[65] == 0 && w[81] == 0
    && w[66] & 3 == 2 && w[82] & 3 == 2
    && w[67] != w[83] && w[67] & 7 == 0 && w[83] & 7 == 0
    && InHeap(w[67]) && InHeap(w[83])
  }

  // The checks as they are made on one record.
  method CheckR1Record(w: Record) returns (ok: bool)
    ensures ok <==> R1Always(w)
  {
    ok := w[0] == 0x3130_5452 && w[1] == 1 && w[2] != 0xffff_ffff;
    ok := ok && w[3] == 0 && w[4] == 0 && w[192] != 0x3154_4652;
  }

  method CheckR1Steady(w: Record) returns (ok: bool)
    ensures ok <==> R1Steady(w)
  {
    ok := w[2] == 5 && w[19] == 0x1357_9bdf && w[20] == 0 && w[28] == 0 && w[29] & 3 == 2 && w[30] & 7 == 0;
    ok := ok && 0x2000_e000 <= w[31] <= 0x2000_f000;
    ok := ok && w[21] & 0x700 == 0 && U(w[22]) + 1 == U(w[5]) / 1000;
    ok := ok && w[39] == 1 && w[17] > 0 && w[50] > 0 && 1 <= w[18] < 4096;
    ok := ok && (forall i :: 32 <= i < 39 ==> w[i] > 0);
    ok := ok && w[70] == 0 && w[86] == 0 && w[65] == 0 && w[81] == 0 && w[66] & 3 == 2 && w[82] & 3 == 2;
    ok := ok && w[67] != w[83] && w[67] & 7 == 0 && w[83] & 7 == 0;
    ok := ok && 0x2000_0000 <= w[67] < 0x2000_e000 && 0x2000_0000 <= w[83] < 0x2000_e000;
  }

  ghost predicate R1Trace(h: seq<Call>) {
    TraceOk(h, R1Always, R1Steady, R1_WATCHED)
  }

  ghost predicate R1Admitted(h: seq<Call>) {
    Admitted(h, R1Always, R1Steady, R1_WATCHED)
  }

  // The loop over the watched words.
  method AllMoved(now: Record, before: Record, watched: seq<nat>) returns (ok: bool)
    requires forall k :: 0 <= k < |watched| ==> watched[k] < 256
    ensures ok <==> Advances(now, before, watched)
  {
    hide Moved;
    for k := 0 to |watched|
      invariant forall j :: 0 <= j < k ==> Moved(now[watched[j]], before[watched[j]])
    {
      if !Moved(now[watched[k]], before[watched[k]]) {
        return false;
      }
    }
    return true;
  }

  class R1Admission {
    var next: nat
    var valid: bool
    var first: Record
    var previous: Record
    ghost var history: seq<Call>

    ghost predicate Valid()
      reads this
    {
      && next == |history| && valid == R1Trace(history)
      && (valid && |history| > FIRST_STEADY ==>
            first == history[FIRST_STEADY].words && previous == history[|history| - 1].words)
    }

    constructor ()
      ensures Valid() && history == []
    {
      next, valid, first, previous := 0, true, seq(256, i => 0), seq(256, i => 0);
      history := [];
    }

    // The counter of calls is a u32: fewer than 2^32 calls.
    method Sample(number: nat, w: Record) returns (ok: bool)
      requires Valid() && next < WRAP - 1
      modifies this
      ensures Valid() && history == old(history) + [Call(number, w)]
      ensures ok <==> R1Trace(history)
    {
      hide R1Always, R1Steady, Moved;
      TraceGrows(history, Call(number, w), R1Always, R1Steady, R1_WATCHED);
      history := history + [Call(number, w)];
      var good := CheckR1Record(w);
      valid := valid && number == next && number < 31 && good;
      if number >= 3 {
        good := CheckR1Steady(w);
        valid := valid && good;
        if number == 3 {
          first := w;
        } else {
          var moved := AllMoved(w, previous, [8, 9, 14, 15, 17, 49, 50, 64, 80]);
          valid := valid && moved;
        }
        previous := w;
      }
      next := next + 1;
      ok := valid;
    }

    // Main result: the verdict is the predicate on everything that was ever sampled.
    method Complete() returns (ok: bool)
      requires Valid()
      ensures ok <==> R1Admitted(history)
    {
      var ticks := Delta(previous[8], first[8]);
      var elapsed := Delta(previous[11], first[11]);
      ok := valid && next == SAMPLES && ticks > 0 && 950 * ticks <= elapsed && elapsed <= 1050 * ticks;
    }
  }

  // ---- ServiceAdmission<PHASE> ----

  const SERVICE_WATCHED: seq<nat> := [8, 9, 14]

  predicate ServiceAlways(phase: nat, w: Record) {
    && w[0] == 0x3130_4741 && w[1] == 1 // "AG01", little-endian
    && w[2] != 0xffff_ffff && w[3] == 0 && w[4] == 0 && w[192] != 0x3154_4652
    && phase <= 1 && w[42] == 2 && w[43] == 1024 && U(w[44]) == phase
  }

  predicate ServiceSteady(w: Record) {
    && w[2] == 5 && w[19] == 0x1357_9bdf && w[20] == 0
    && w[28] == 0 && w[29] & 3 == 2 && w[30] & 7 == 0
    && InHeap(w[30]) && 0x2000_e000 <= w[31] <= 0x2000_f000
    && w[21] & 0x700 == 0 && w[5] >= 1000
    && U(w[22]) + 1 == U(w[5]) / 1000
    && 1 <= w[18] <= 3968 && (forall i :: 32 <= i < 34 ==> 32 <= w[i] <= 512)
    && (forall i :: 34 <= i < 39 ==> w[i] == 0)
    && w[64] == 0 && w[80] == 0 && w[45] == 0
  }

  method CheckServiceRecord(phase: nat, w: Record) returns (ok: bool)
    ensures ok <==> ServiceAlways(phase, w)
  {
    ok := w[0] == 0x3130_4741 && w[1] == 1 && w[2] != 0xffff_ffff && w[3] == 0 && w[4] == 0 && w[192] != 0x3154_4652;
    ok := ok && phase <= 1 && w[42] == 2 && w[43] == 1024 && U(w[44]) == phase;
  }

  method CheckServiceSteady(w: Record) returns (ok: bool)
    ensures ok <==> ServiceSteady(w)
  {
    ok := w[2] == 5 && w[19] == 0x1357_9bdf && w[20] == 0 && w[28] == 0 && w[29] & 3 == 2 && w[30] & 7 == 0;
    ok := ok && 0x2000_0000 <= w[30] < 0x2000_e000 && 0x2000_e000 <= w[31] <= 0x2000_f000;
    ok := ok && w[21] & 0x700 == 0 && w[5] >= 1000 && U(w[22]) + 1 == U(w[5]) / 1000;
    ok := ok && 1 <= w[18] <= 3968 && (forall i :: 32 <= i < 34 ==> 32 <= w[i] <= 512);
    ok := ok && (forall i :: 34 <= i < 39 ==> w[i] == 0) && w[64] == 0 && w[80] == 0 && w[45] == 0;
  }

  function ServiceCheck(phase: nat): Record -> bool {
    (w: Record) => ServiceAlways(phase, w)
  }

  ghost predicate ServiceTrace(phase: nat, h: seq<Call>) {
    TraceOk(h, ServiceCheck(phase), ServiceSteady, SERVICE_WATCHED)
  }

  ghost predicate ServiceAdmitted(phase: nat, h: seq<Call>) {
    Admitted(h, ServiceCheck(phase), ServiceSteady, SERVICE_WATCHED)
  }

  // The loop over the watched words, against the kept ones.
  method AllMovedFrom(now: Record, kept: seq<bv32>, watched: seq<nat>) returns (ok: bool)
    requires |watched| <= |kept| && forall k :: 0 <= k < |watched| ==> watched[k] < 256
    ensures ok <==> forall k :: 0 <= k < |watched| ==> Moved(now[watched[k]], kept[k])
  {
    hide Moved;
    for k := 0 to |watched|
      invariant forall j :: 0 <= j < k ==> Moved(now[watched[j]], kept[j])
    {
      if !Moved(now[watched[k]], kept[k]) {
        return false;
      }
    }
    return true;
  }

  // The monitor keeps only the words it compares: 8, 11, 14 of record 3 and 8, 9, 14, 11 of the latest.
  class ServiceAdmission {
    const phase: nat
    var next: nat
    var valid: bool
    var first: seq<bv32>
    var previous: seq<bv32>
    ghost var history: seq<Call>

    ghost predicate Valid()
      reads this
    {
      && next == |history| && valid == ServiceTrace(phase, history)
      && |first| == 3 && |previous| == 4
      && (valid && |history| > FIRST_STEADY ==>
            var f, p := history[FIRST_STEADY].words, history[|history| - 1].words;
            first == [f[8], f[11], f[14]] && previous == [p[8], p[9], p[14], p[11]])
    }

    constructor (phase: nat)
      ensures Valid() && history == [] && this.phase == phase
    {
      this.phase := phase;
      next, valid, first, previous := 0, true, [0, 0, 0], [0, 0, 0, 0];
      history := [];
    }

    method Sample(number: nat, w: Record) returns (ok: bool)
      requires Valid() && next < WRAP - 1
      modifies this
      ensures Valid() && history == old(history) + [Call(number, w)]
      ensures ok <==> ServiceTrace(phase, history)
    {
      hide ServiceAlways, ServiceSteady, Moved;
      TraceGrows(history, Call(number, w), ServiceCheck(phase), ServiceSteady, SERVICE_WATCHED);
      history := history + [Call(number, w)];
      var good := CheckServiceRecord(phase, w);
      valid := valid && number == next && number < 31 && good;
      if number >= 3 {
        good := CheckServiceSteady(w);
        valid := valid && good;
        if number == 3 {
          first := [w[8], w[11], w[14]];
        } else {
          var moved := AllMovedFrom(w, previous, [8, 9, 14]);
          valid := valid && moved;
        }
        previous := [w[8], w[9], w[14], w[11]];
      }
      next := next + 1;
      ok := valid;
    }

    method Complete() returns (ok: bool)
      requires Valid()
      ensures ok <==> ServiceAdmitted(phase, history)
    {
      var ticks := Delta(previous[0], first[0]);
      var elapsed := Delta(previous[3], first[1]);
      ok := valid && next == SAMPLES && ticks > 0 && 950 * ticks <= elapsed && elapsed <= 1050 * ticks;
    }
  }

  // A phase the build does not know can never be admitted.
  lemma UnknownPhaseNeverAdmits(phase: nat, h: seq<Call>)
    requires phase >= 2
    ensures !ServiceAdmitted(phase, h) && (h != [] ==> !ServiceTrace(phase, h))
  {
    if h != [] {
      assert !ServiceCheck(phase)(h[0].words);
      assert !StepOk(h, 0, ServiceCheck(phase), ServiceSteady, SERVICE_WATCHED);
    }
  }

  // ---- AmpProc1Admission ----

  type Status = s: seq<bv32> | |s| == 32 witness seq(32, i => 0)

  datatype Cold = Cold(ctrl: bv32, done: bv32, status: Status)

  // The second core is still held in reset and has written nothing.
  predicate HeldInReset(c: Cold) {
    c.ctrl & 0x8000_0000 != 0 && c.done & 0x8000_0000 == 0 && forall i :: 0 <= i < 32 ==> c.status[i] == 0
  }

  method CheckHeld(ctrl: bv32, done: bv32, status: Status) returns (held: bool)
    ensures held <==> HeldInReset(Cold(ctrl, done, status))
  {
    held := ctrl & 0x8000_0000 != 0 && done & 0x8000_0000 == 0;
    held := held && forall i :: 0 <= i < 32 ==> status[i] == 0;
  }

  ghost predicate AlwaysHeld(cs: seq<Cold>) {
    forall i :: 0 <= i < |cs| ==> HeldInReset(cs[i])
  }

  class AmpProc1Admission {
    const service: ServiceAdmission
    var held: bool
    ghost var colds: seq<Cold>

    ghost predicate Valid()
      reads this, service
    {
      service.Valid() && service.phase == 1 && held == AlwaysHeld(colds) && |colds| == |service.history|
    }

    constructor ()
      ensures Valid() && service.history == [] && colds == [] && fresh(service)
    {
      service := new ServiceAdmission(1);
      held := true;
      colds := [];
    }

    method Sample(number: nat, words: Record, cold: Cold) returns (ok: bool)
      requires Valid() && service.next < WRAP - 1
      modifies this, service
      ensures Valid() && colds == old(colds) + [cold]
      ensures service.history == old(service.history) + [Call(number, words)]
      ensures ok <==> ServiceTrace(1, service.history) && AlwaysHeld(colds)
    {
      hide HeldInReset, ServiceTrace;
      var now := CheckHeld(cold.ctrl, cold.done, cold.status);
      held := held && now;
      colds := colds + [cold];
      assert forall i :: 0 <= i < |old(colds)| ==> colds[i] == old(colds)[i];
      assert HeldInReset(colds[|colds| - 1]) == HeldInReset(cold);
      ok := service.Sample(number, words);
      ok := ok && held;
    }

    // Main result: the product of the phase-1 service monitor and "held at every sample".
    method Complete() returns (ok: bool)
      requires Valid()
      ensures ok <==> ServiceAdmitted(1, service.history) && AlwaysHeld(colds)
    {
      var admitted := service.Complete();
      ok := held && admitted;
    }
  }

  // ---- What admission says about the counters themselves ----

  // A counter that gains less than 2^32 between two looks at its low 32 bits is seen to move exactly if it gains
  // at least one and less than 2^31.
  lemma MovedIff(now: bv32, before: bv32, start: nat, gain: nat)
    requires U(before) == start % 0x1_0000_0000 && U(now) == (start + gain) % 0x1_0000_0000 && gain < 0x1_0000_0000
    ensures Moved(now, before) <==> 1 <= gain < 0x8000_0000
  {
    hide U;
    DeltaIsGain(now, before, start, gain);
  }

  // The true counters behind some words of the steady records; none gains 2^32 from one record to the next.
  ghost predicate Behind(h: seq<Call>, words: set<nat>, count: (nat, nat) -> nat) {
    && |h| == 31
    && (forall w :: w in words ==> w < 256)
    && (forall i: nat, w :: 3 <= i < 31 && w in words ==> U(h[i].words[w]) == count(i, w) % 0x1_0000_0000)
    && (forall i: nat, w :: 3 < i < 31 && w in words ==> count(i - 1, w) <= count(i, w) < count(i - 1, w) + 0x1_0000_0000)
  }

  lemma WatchedAdvances(h: seq<Call>, always: Record -> bool, steady: Record -> bool, watched: seq<nat>,
                        words: set<nat>, count: (nat, nat) -> nat, i: nat, k: nat)
    requires TraceOk(h, always, steady, watched) && Behind(h, words, count)
    requires 3 < i < 31 && k < |watched| && watched[k] in words
    ensures 1 <= count(i, watched[k]) - count(i - 1, watched[k]) < 0x8000_0000
  {
    hide U, Moved, Delta;
    var w := watched[k];
    assert StepOk(h, i, always, steady, watched);
    MovedIff(h[i].words[w], h[i - 1].words[w], count(i - 1, w), count(i, w) - count(i - 1, w));
  }

  // Main result: in a history that R1 admission accepts each of the nine watched counters gained at least one and
  // less than 2^31 from every steady record to the next.
  lemma R1CountersAdvance(h: seq<Call>, count: (nat, nat) -> nat, i: nat, w: nat)
    requires R1Admitted(h) && Behind(h, {8, 9, 14, 15, 17, 49, 50, 64, 80}, count)
    requires 3 < i < 31 && w in {8, 9, 14, 15, 17, 49, 50, 64, 80}
    ensures 1 <= count(i, w) - count(i - 1, w) < 0x8000_0000
  {
    hide R1Always, R1Steady, TraceOk, Behind;
    var k: nat := if w == 8 then 0 else if w == 9 then 1 else if w == 14 then 2 else if w == 15 then 3 else if w == 17 then 4
                  else if w == 49 then 5 else if w == 50 then 6 else if w == 64 then 7 else 8;
    assert R1_WATCHED[k] == w;
    WatchedAdvances(h, R1Always, R1Steady, R1_WATCHED, {8, 9, 14, 15, 17, 49, 50, 64, 80}, count, i, k);
  }

  // And in one that the service monitor accepts the three it watches did.
  lemma ServiceCountersAdvance(phase: nat, h: seq<Call>, count: (nat, nat) -> nat, i: nat, w: nat)
    requires ServiceAdmitted(phase, h) && Behind(h, {8, 9, 14}, count)
    requires 3 < i < 31 && w in {8, 9, 14}
    ensures 1 <= count(i, w) - count(i - 1, w) < 0x8000_0000
  {
    hide ServiceAlways, ServiceSteady, TraceOk, Behind;
    var k: nat := if w == 8 then 0 else if w == 9 then 1 else 2;
    assert SERVICE_WATCHED[k] == w;
    WatchedAdvances(h, ServiceCheck(phase), ServiceSteady, SERVICE_WATCHED, {8, 9, 14}, count, i, k);
  }

  // If the true tick and microsecond counts behind words 8 and 11 do not run through a whole 32-bit range
  // between records 3 and 30, an admitted history bounds their true rate: within five per cent of a thousand
  // microseconds per tick.
  lemma AdmittedRateIsTrue(h: seq<Call>, always: Record -> bool, steady: Record -> bool, watched: seq<nat>,
                           ticks: nat, tickCount: nat, micros: nat, microCount: nat)
    requires Admitted(h, always, steady, watched)
    requires U(h[3].words[8]) == tickCount % 0x1_0000_0000 && U(h[30].words[8]) == (tickCount + ticks) % 0x1_0000_0000
    requires U(h[3].words[11]) == microCount % 0x1_0000_0000 && U(h[30].words[11]) == (microCount + micros) % 0x1_0000_0000
    requires ticks < 0x1_0000_0000 && micros < 0x1_0000_0000
    ensures ticks > 0 && 950 * ticks <= micros <= 1050 * ticks
  {
    hide U, TraceOk;
    var f, l := h[FIRST_STEADY].words, h[SAMPLES - 1].words;
    DeltaIsGain(l[8], f[8], tickCount, ticks);
    DeltaIsGain(l[11], f[11], microCount, micros);
    assert RateOk(f, l);
  }

  lemma DeltaIsGain(now: bv32, before: bv32, start: nat, gain: nat)
    requires U(before) == start % WRAP && U(now) == (start + gain) % WRAP && gain < WRAP
    ensures Delta(now, before) == gain
  {
    hide U;
    WrappedDifference(start, gain);
  }

  lemma WrappedDifference(start: nat, gain: nat)
    requires gain < WRAP
    ensures ((start + gain) % WRAP - start % WRAP) % WRAP == gain
  {
  }
}
