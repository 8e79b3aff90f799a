/**
 * Accounting of the probes made while RP1 opens a hole in its inbound window,
 * and the verdict drawn from it (rp1_inbound_monitor.rs:2666-2868).
 *
 * The counters wrap at 32 bits; what they mean is stated for runs of fewer
 * than 2^32 records. The phase and value counters are parts of the one
 * structure that is updated, so they are values here.
 */
module ProbeCounts {
  import opened Prelude

  const ALL_FF: bv32 := 0xffff_ffff
  const EXPECTED_CHIP_ID: bv32 := 0x2000_1927
  const CONTROL_LINK_MASK: bv32 := 0x0019_0000
  const PRE_GO_PROBES: nat := 64
  const POST_RESTORE_PROBES: nat := 64

  const PHASE_IDLE: bv32 := 0
  const PHASE_PRECONDITION_OK: bv32 := 1
  const PHASE_DISABLED: bv32 := 3
  const PHASE_RESTORED: bv32 := 4

  // One read through the window: its value, or the abort it caused.
  datatype Probe = Probe(value: bv32, aborted: bool)

  datatype Anchors = Anchors(uart0: bv32, uart4: bv32)

  datatype Record = Record(
    phaseBefore: bv32, phaseAfter: bv32, postCompletion: bool,
    uart0: Probe, chip: Probe, uart4: Probe, monitor2: Probe, bar2Valid: bool)

  // ---- The counters -------------------------------------------------------

  datatype ValueCounts = ValueCounts(
    expected: u32, allFf: u32, other: u32, abort: u32,
    rawSeen: u32, rawFirst: bv32, rawLast: bv32, rawOr: bv32, rawAnd: bv32, rawXor: bv32)

  const NO_VALUES := ValueCounts(0, 0, 0, 0, 0, 0, 0, 0, 0, 0)

  datatype PhaseCounts = PhaseCounts(
    samples: u32,
    uart0: ValueCounts, chip: ValueCounts, uart4: ValueCounts, monitor2: ValueCounts, bar2: ValueCounts)

  const NO_SAMPLES := PhaseCounts(0, NO_VALUES, NO_VALUES, NO_VALUES, NO_VALUES, NO_VALUES)

  datatype Counts = Counts(
    before: PhaseCounts, during: PhaseCounts, after: PhaseCounts, boundary: u32, unprobed: u32, xor: bv32)

  const NO_COUNTS := Counts(NO_SAMPLES, NO_SAMPLES, NO_SAMPLES, 0, 0, 0)

  function Inc(n: u32): u32 {
    (n + 1) % TWO_32
  }

  function And(a: bv32, b: bv32): bv32 { a & b }

  function Or(a: bv32, b: bv32): bv32 { a | b }

  function Xor(a: bv32, b: bv32): bv32 { a ^ b }

  function RecordRaw(c: ValueCounts, value: bv32): ValueCounts {
    c.(rawFirst := if c.rawSeen == 0 then value else c.rawFirst,
       rawAnd := if c.rawSeen == 0 then value else And(c.rawAnd, value),
       rawSeen := Inc(c.rawSeen),
       rawLast := value,
       rawOr := Or(c.rawOr, value),
       rawXor := Xor(c.rawXor, value))
  }

  function RecordProbe(c: ValueCounts, probe: Probe, expected: bv32): ValueCounts {
    if probe.aborted then c.(abort := Inc(c.abort)) else
    var d := RecordRaw(c, probe.value);
    if probe.value == ALL_FF then d.(allFf := Inc(d.allFf))
    else if probe.value == expected then d.(expected := Inc(d.expected))
    else d.(other := Inc(d.other))
  }

  predicate ControlValueValid(value: bv32) {
    value != ALL_FF && value & CONTROL_LINK_MASK == CONTROL_LINK_MASK
  }

  function RecordMonitor2(c: ValueCounts, probe: Probe): ValueCounts {
    if probe.aborted then c.(abort := Inc(c.abort)) else
    var d := RecordRaw(c, probe.value);
    if probe.value == ALL_FF then d.(allFf := Inc(d.allFf))
    else if ControlValueValid(probe.value) then d.(expected := Inc(d.expected))
    else d.(other := Inc(d.other))
  }

  function RecordBool(c: ValueCounts, ok: bool): ValueCounts {
    var d := RecordRaw(c, if ok then 1 else 0);
    if ok then d.(expected := Inc(d.expected)) else d.(other := Inc(d.other))
  }

  function RecordPhase(p: PhaseCounts, r: Record, anchors: Anchors): PhaseCounts {
    PhaseCounts(
      Inc(p.samples),
      RecordProbe(p.uart0, r.uart0, anchors.uart0),
      RecordProbe(p.chip, r.chip, EXPECTED_CHIP_ID),
      RecordProbe(p.uart4, r.uart4, anchors.uart4),
      RecordMonitor2(p.monitor2, r.monitor2),
      RecordBool(p.bar2, r.bar2Valid))
  }

  predicate AllExpected(c: ValueCounts, samples: u32) {
    samples != 0 && c.expected == samples && c.allFf == 0 && c.other == 0 && c.abort == 0
  }

  predicate AllAllFf(c: ValueCounts, samples: u32) {
    samples != 0 && c.expected == 0 && c.allFf == samples && c.other == 0 && c.abort == 0
  }

  predicate GateExpected(p: PhaseCounts) {
    && AllExpected(p.uart0, p.samples)
    && AllExpected(p.chip, p.samples)
    && AllExpected(p.uart4, p.samples)
    && AllExpected(p.monitor2, p.samples)
    && AllExpected(p.bar2, p.samples)
  }

  predicate GateDuring(p: PhaseCounts, targetUart4: bool) {
    && (if targetUart4 then AllExpected(p.uart0, p.samples) && AllAllFf(p.uart4, p.samples)
        else AllAllFf(p.uart0, p.samples) && AllExpected(p.uart4, p.samples))
    && AllExpected(p.chip, p.samples)
    && AllExpected(p.monitor2, p.samples)
    && AllExpected(p.bar2, p.samples)
  }

  // ---- One record ---------------------------------------------------------

  function Mixed(x: bv32, r: Record): bv32 {
    var phases := Xor(Xor(x, r.phaseBefore), r.phaseAfter);
    var values := Xor(Xor(Xor(Xor(phases, r.uart0.value), r.chip.value), r.uart4.value), r.monitor2.value);
    Xor(values, if r.bar2Valid then 1 else 0)
  }

  // Where a record is counted.
  datatype Cohort = Before | During | After | Boundary | Unprobed

  function CohortOf(r: Record): Cohort {
    if r.phaseBefore != r.phaseAfter then Boundary
    else if r.postCompletion then (if r.phaseBefore == PHASE_RESTORED then After else Unprobed)
    else if r.phaseBefore == PHASE_IDLE || r.phaseBefore == PHASE_PRECONDITION_OK then Before
    else if r.phaseBefore == PHASE_DISABLED then During
    else Unprobed
  }

  // Only a record whose phase did not change counts for a phase: idle or precondition met before, window disabled
  // during, window restored and completed after.
  lemma CohortsAre(r: Record)
    ensures CohortOf(r) == Boundary <==> r.phaseBefore != r.phaseAfter
    ensures CohortOf(r) == Before <==> r.phaseBefore == r.phaseAfter && r.phaseBefore in {0, 1} && !r.postCompletion
    ensures CohortOf(r) == During <==> r.phaseBefore == r.phaseAfter && r.phaseBefore == 3 && !r.postCompletion
    ensures CohortOf(r) == After <==> r.phaseBefore == r.phaseAfter && r.phaseBefore == 4 && r.postCompletion
  { }

  function Step(c: Counts, r: Record, anchors: Anchors): Counts {
    var d := c.(xor := Mixed(c.xor, r));
    match CohortOf(r)
    case Boundary => d.(boundary := Inc(d.boundary))
    case Unprobed => d.(unprobed := Inc(d.unprobed))
    case Before => d.(before := RecordPhase(d.before, r, anchors))
    case During => d.(during := RecordPhase(d.during, r, anchors))
    case After => d.(after := RecordPhase(d.after, r, anchors))
  }

  // The counters after a whole run.
  function Tally(history: seq<Record>, anchors: Anchors): Counts {
    if history == [] then NO_COUNTS
    else Step(Tally(history[..|history| - 1], anchors), history[|history| - 1], anchors)
  }

  lemma OneMoreTally(history: seq<Record>, r: Record, anchors: Anchors)
    ensures Tally(history + [r], anchors) == Step(Tally(history, anchors), r, anchors)
  {
    hide Step;
    assert (history + [r])[..|history|] == history;
  }

  predicate Gate(c: Counts, targetUart4: bool) {
    && c.before.samples >= PRE_GO_PROBES
    && GateExpected(c.before)
    && GateDuring(c.during, targetUart4)
    && c.after.samples == POST_RESTORE_PROBES
    && GateExpected(c.after)
  }

  // The phases, the four values and the validity of the second window, mixed into one word.
  method Mix(x: bv32, r: Record) returns (mixed: bv32)
    ensures mixed == Mixed(x, r)
  {
    hide Xor;
    mixed := Xor(Xor(x, r.phaseBefore), r.phaseAfter);
    mixed := Xor(Xor(mixed, r.uart0.value), r.chip.value);
    mixed := Xor(Xor(mixed, r.uart4.value), r.monitor2.value);
    mixed := Xor(mixed, if r.bar2Valid then 1 else 0);
  }

  class InteriorProbeCounts {
    var before: PhaseCounts
    var during: PhaseCounts
    var after: PhaseCounts
    var boundary: u32
    var unprobed: u32
    var xor: bv32
    const anchors: Anchors
    ghost var history: seq<Record>

    ghost predicate Valid()
      reads this
    {
      Counts(before, during, after, boundary, unprobed, xor) == Tally(history, anchors)
    }

    constructor (anchors: Anchors)
      ensures Valid() && history == [] && this.anchors == anchors
    {
      this.anchors := anchors;
      before, during, after := NO_SAMPLES, NO_SAMPLES, NO_SAMPLES;
      boundary, unprobed, xor := 0, 0, 0;
      history := [];
    }

    method RecordOne(r: Record)
      requires Valid()
      modifies this
      ensures Valid() && history == old(history) + [r]
    {
      hide RecordPhase, Mixed, Tally;
      OneMoreTally(history, r, anchors);
      history := history + [r];
      xor := Mix(xor, r);
      if r.phaseBefore != r.phaseAfter {
        boundary := Inc(boundary);
        return;
      }
      if !r.postCompletion && (r.phaseBefore == PHASE_IDLE || r.phaseBefore == PHASE_PRECONDITION_OK) {
        before := RecordPhase(before, r, anchors);
      } else if !r.postCompletion && r.phaseBefore == PHASE_DISABLED {
        during := RecordPhase(during, r, anchors);
      } else if r.postCompletion && r.phaseBefore == PHASE_RESTORED {
        after := RecordPhase(after, r, anchors);
      } else {
        unprobed := Inc(unprobed);
      }
    }

    // The verdict is a statement about everything recorded so far.
    method Verdict(targetUart4: bool) returns (ok: bool)
      requires Valid() && |history| < TWO_32
      ensures ok <==> Proven(history, anchors, targetUart4)
    {
      GateIsProven(history, anchors, targetUart4);
      ok := Gate(Counts(before, during, after, boundary, unprobed, xor), targetUart4);
    }
  }

  // ---- Lanes and what a record says on each -------------------------------

  datatype Lane = Uart0 | Chip | Uart4 | Monitor2 | Bar2

  datatype Class = Good | AllOnes | Wrong | Aborted

  function LaneOf(p: PhaseCounts, lane: Lane): ValueCounts {
    match lane
    case Uart0 => p.uart0
    case Chip => p.chip
    case Uart4 => p.uart4
    case Monitor2 => p.monitor2
    case Bar2 => p.bar2
  }

  function RawOf(r: Record, lane: Lane): Probe {
    match lane
    case Uart0 => r.uart0
    case Chip => r.chip
    case Uart4 => r.uart4
    case Monitor2 => r.monitor2
    case Bar2 => Probe(if r.bar2Valid then 1 else 0, false)
  }

  predicate Wanted(v: bv32, lane: Lane, anchors: Anchors) {
    match lane
    case Uart0 => v == anchors.uart0
    case Chip => v == EXPECTED_CHIP_ID
    case Uart4 => v == anchors.uart4
    case Monitor2 => v & CONTROL_LINK_MASK == CONTROL_LINK_MASK
    case Bar2 => v == 1
  }

  function ClassOf(r: Record, lane: Lane, anchors: Anchors): Class {
    var p := RawOf(r, lane);
    if p.aborted then Aborted
    else if p.value == ALL_FF then AllOnes
    else if Wanted(p.value, lane, anchors) then Good
    else Wrong
  }

  function CountFor(c: ValueCounts, k: Class): u32 {
    match k
    case Good => c.expected
    case AllOnes => c.allFf
    case Wrong => c.other
    case Aborted => c.abort
  }

  // How many records of a cohort fall in a class on a lane.
  function HowMany(rs: seq<Record>, lane: Lane, k: Class, anchors: Anchors): nat {
    if rs == [] then 0
    else HowMany(rs[..|rs| - 1], lane, k, anchors) + (if ClassOf(rs[|rs| - 1], lane, anchors) == k then 1 else 0)
  }

  function PhaseTally(rs: seq<Record>, anchors: Anchors): PhaseCounts {
    if rs == [] then NO_SAMPLES
    else RecordPhase(PhaseTally(rs[..|rs| - 1], anchors), rs[|rs| - 1], anchors)
  }

  // The records of one cohort, in order.
  function Select(history: seq<Record>, cohort: Cohort): (rs: seq<Record>)
    ensures |rs| <= |history|
  {
    if history == [] then [] else
    var last := history[|history| - 1];
    Select(history[..|history| - 1], cohort) + (if CohortOf(last) == cohort then [last] else [])
  }

  lemma LaneStep(p: PhaseCounts, r: Record, lane: Lane, k: Class, anchors: Anchors)
    ensures var c, d := LaneOf(p, lane), LaneOf(RecordPhase(p, r, anchors), lane);
            CountFor(d, k) == if ClassOf(r, lane, anchors) == k then Inc(CountFor(c, k)) else CountFor(c, k)
  { }

  // Each phase's counters are the sizes of the classes of its records.
  lemma {:induction false} CountersCount(rs: seq<Record>, lane: Lane, k: Class, anchors: Anchors)
    requires |rs| < TWO_32
    ensures PhaseTally(rs, anchors).samples == |rs|
    ensures CountFor(LaneOf(PhaseTally(rs, anchors), lane), k) == HowMany(rs, lane, k, anchors) <= |rs|
  {
    hide RecordPhase, ClassOf, LaneOf, CountFor;
    if rs != [] {
      var front, last := rs[..|rs| - 1], rs[|rs| - 1];
      CountersCount(front, lane, k, anchors);
      LaneStep(PhaseTally(front, anchors), last, lane, k, anchors);
      SamplesStep(PhaseTally(front, anchors), last, anchors);
    } else {
      NothingCounted(lane, k);
    }
  }

  lemma SamplesStep(p: PhaseCounts, r: Record, anchors: Anchors)
    ensures RecordPhase(p, r, anchors).samples == Inc(p.samples)
  { }

  lemma NothingCounted(lane: Lane, k: Class)
    ensures CountFor(LaneOf(NO_SAMPLES, lane), k) == 0
  { }

  lemma {:induction false} ClassesCoverCohort(rs: seq<Record>, lane: Lane, anchors: Anchors)
    ensures HowMany(rs, lane, Good, anchors) + HowMany(rs, lane, AllOnes, anchors)
          + HowMany(rs, lane, Wrong, anchors) + HowMany(rs, lane, Aborted, anchors) == |rs|
  {
    hide ClassOf;
    if rs != [] {
      ClassesCoverCohort(rs[..|rs| - 1], lane, anchors);
    }
  }

  predicate AllInClass(rs: seq<Record>, lane: Lane, k: Class, anchors: Anchors) {
    forall r :: r in rs ==> ClassOf(r, lane, anchors) == k
  }

  lemma {:induction false} EveryRecordInClass(rs: seq<Record>, lane: Lane, k: Class, anchors: Anchors)
    ensures HowMany(rs, lane, k, anchors) <= |rs|
    ensures HowMany(rs, lane, k, anchors) == |rs| <==> AllInClass(rs, lane, k, anchors)
  {
    hide ClassOf;
    if rs != [] {
      var front, last := rs[..|rs| - 1], rs[|rs| - 1];
      EveryRecordInClass(front, lane, k, anchors);
      assert rs == front + [last];
    }
  }

  // ---- The whole run ------------------------------------------------------

  function SizeOf(history: seq<Record>, cohort: Cohort): nat {
    |Select(history, cohort)|
  }

  // The counters of a run are those of its cohorts.
  lemma {:induction false} TallySplits(history: seq<Record>, anchors: Anchors)
    requires |history| < TWO_32
    ensures var c := Tally(history, anchors);
            && c.before == PhaseTally(Select(history, Before), anchors)
            && c.during == PhaseTally(Select(history, During), anchors)
            && c.after == PhaseTally(Select(history, After), anchors)
            && c.boundary == SizeOf(history, Boundary)
            && c.unprobed == SizeOf(history, Unprobed)
  {
    hide RecordPhase, CohortOf, Mixed, Select, PhaseTally;
    if history == [] {
      NothingTallied(anchors);
    } else {
      var front, last := history[..|history| - 1], history[|history| - 1];
      TallySplits(front, anchors);
      SelectStep(history, Before, anchors);
      SelectStep(history, During, anchors);
      SelectStep(history, After, anchors);
      SelectStep(history, Boundary, anchors);
      SelectStep(history, Unprobed, anchors);
    }
  }

  lemma NothingTallied(anchors: Anchors)
    ensures PhaseTally([], anchors) == NO_SAMPLES
    ensures forall k :: Select([], k) == []
  { }

  lemma SelectStep(history: seq<Record>, cohort: Cohort, anchors: Anchors)
    requires history != []
    ensures var front, last := history[..|history| - 1], history[|history| - 1];
            var rs, older := Select(history, cohort), Select(front, cohort);
            if CohortOf(last) == cohort
            then |rs| == |older| + 1 && PhaseTally(rs, anchors) == RecordPhase(PhaseTally(older, anchors), last, anchors)
            else rs == older
  { }

  // No record is lost or counted twice.
  lemma {:induction false} EveryRecordIsCounted(history: seq<Record>, anchors: Anchors)
    requires |history| < TWO_32
    ensures var c := Tally(history, anchors);
            c.before.samples + c.during.samples + c.after.samples + c.boundary + c.unprobed == |history|
  {
    hide Tally, Select, PhaseTally;
    TallySplits(history, anchors);
    CountersCount(Select(history, Before), Chip, Good, anchors);
    CountersCount(Select(history, During), Chip, Good, anchors);
    CountersCount(Select(history, After), Chip, Good, anchors);
    CohortsPartition(history);
  }

  lemma {:induction false} CohortsPartition(history: seq<Record>)
    ensures SizeOf(history, Before) + SizeOf(history, During) + SizeOf(history, After)
          + SizeOf(history, Boundary) + SizeOf(history, Unprobed) == |history|
  {
    hide CohortOf;
    if history != [] {
      CohortsPartition(history[..|history| - 1]);
    }
  }

  // On every lane of every phase the four classes add up to the samples.
  lemma LanesBalance(rs: seq<Record>, lane: Lane, anchors: Anchors)
    requires |rs| < TWO_32
    ensures var p := PhaseTally(rs, anchors); var c := LaneOf(p, lane);
            c.expected + c.allFf + c.other + c.abort == p.samples
  {
    CountersCount(rs, lane, Good, anchors);
    CountersCount(rs, lane, AllOnes, anchors);
    CountersCount(rs, lane, Wrong, anchors);
    CountersCount(rs, lane, Aborted, anchors);
    ClassesCoverCohort(rs, lane, anchors);
  }

  // ---- The verdict --------------------------------------------------------

  lemma LaneGate(rs: seq<Record>, lane: Lane, anchors: Anchors)
    requires |rs| < TWO_32
    ensures var p := PhaseTally(rs, anchors); var c := LaneOf(p, lane);
            && (AllExpected(c, p.samples) <==> rs != [] && AllInClass(rs, lane, Good, anchors))
            && (AllAllFf(c, p.samples) <==> rs != [] && AllInClass(rs, lane, AllOnes, anchors))
  {
    hide PhaseTally, LaneOf, HowMany, ClassOf;
    CountersCount(rs, lane, Good, anchors);
    CountersCount(rs, lane, AllOnes, anchors);
    CountersCount(rs, lane, Wrong, anchors);
    CountersCount(rs, lane, Aborted, anchors);
    ClassesCoverCohort(rs, lane, anchors);
    EveryRecordInClass(rs, lane, Good, anchors);
    EveryRecordInClass(rs, lane, AllOnes, anchors);
  }

  // A record whose five readings are all as they should be.
  predicate Intact(r: Record, anchors: Anchors) {
    && ReadsGood(r.uart0, anchors.uart0)
    && ReadsGood(r.chip, EXPECTED_CHIP_ID)
    && ReadsGood(r.uart4, anchors.uart4)
    && !r.monitor2.aborted && ControlValueValid(r.monitor2.value)
    && r.bar2Valid
  }

  predicate ReadsGood(p: Probe, expected: bv32) {
    !p.aborted && p.value == expected && p.value != ALL_FF
  }

  predicate ReadsAllOnes(p: Probe) {
    !p.aborted && p.value == ALL_FF
  }

  // A record that sees the hole on the target page and nowhere else.
  predicate HoleOnly(r: Record, anchors: Anchors, targetUart4: bool) {
    && (if targetUart4 then ReadsGood(r.uart0, anchors.uart0) && ReadsAllOnes(r.uart4)
        else ReadsAllOnes(r.uart0) && ReadsGood(r.uart4, anchors.uart4))
    && ReadsGood(r.chip, EXPECTED_CHIP_ID)
    && !r.monitor2.aborted && ControlValueValid(r.monitor2.value)
    && r.bar2Valid
  }

  // In values: both anchors as given, the chip's identity, and the three link bits of a control word.
  lemma IntactMeans(r: Record, anchors: Anchors)
    ensures Intact(r, anchors) <==>
            && !r.uart0.aborted && !r.chip.aborted && !r.uart4.aborted && !r.monitor2.aborted && r.bar2Valid
            && r.uart0.value == anchors.uart0 != 0xffff_ffff && r.uart4.value == anchors.uart4 != 0xffff_ffff
            && r.chip.value == 0x2000_1927
            && r.monitor2.value != 0xffff_ffff && r.monitor2.value & 0x0019_0000 == 0x0019_0000
  { }

  lemma HoleMeans(r: Record, anchors: Anchors, targetUart4: bool)
    ensures HoleOnly(r, anchors, targetUart4) <==>
            && !r.uart0.aborted && !r.chip.aborted && !r.uart4.aborted && !r.monitor2.aborted && r.bar2Valid
            && (if targetUart4 then r.uart4.value == 0xffff_ffff && r.uart0.value == anchors.uart0 != 0xffff_ffff
                else r.uart0.value == 0xffff_ffff && r.uart4.value == anchors.uart4 != 0xffff_ffff)
            && r.chip.value == 0x2000_1927
            && r.monitor2.value != 0xffff_ffff && r.monitor2.value & 0x0019_0000 == 0x0019_0000
  { }

  // What a positive verdict asserts of the run.
  ghost predicate Proven(history: seq<Record>, anchors: Anchors, targetUart4: bool) {
    && SizeOf(history, Before) >= 64
    && (forall r :: r in history && CohortOf(r) == Before ==> Intact(r, anchors))
    && SizeOf(history, During) > 0
    && (forall r :: r in history && CohortOf(r) == During ==> HoleOnly(r, anchors, targetUart4))
    && SizeOf(history, After) == 64
    && (forall r :: r in history && CohortOf(r) == After ==> Intact(r, anchors))
  }

  lemma {:induction false} SelectedRecords(history: seq<Record>, cohort: Cohort)
    ensures forall r :: r in Select(history, cohort) <==> r in history && CohortOf(r) == cohort
  {
    hide CohortOf;
    if history != [] {
      var front := history[..|history| - 1];
      SelectedRecords(front, cohort);
      assert history == front + [history[|history| - 1]];
    }
  }

  lemma IntactIsGood(r: Record, anchors: Anchors)
    ensures Intact(r, anchors) <==>
            && ClassOf(r, Uart0, anchors) == Good && ClassOf(r, Chip, anchors) == Good && ClassOf(r, Uart4, anchors) == Good
            && ClassOf(r, Monitor2, anchors) == Good && ClassOf(r, Bar2, anchors) == Good
  { }

  lemma HoleIsAllOnes(r: Record, anchors: Anchors, targetUart4: bool)
    ensures HoleOnly(r, anchors, targetUart4) <==>
            && ClassOf(r, Uart0, anchors) == (if targetUart4 then Good else AllOnes)
            && ClassOf(r, Uart4, anchors) == (if targetUart4 then AllOnes else Good)
            && ClassOf(r, Chip, anchors) == Good && ClassOf(r, Monitor2, anchors) == Good && ClassOf(r, Bar2, anchors) == Good
  { }

  lemma PhaseGate(rs: seq<Record>, anchors: Anchors, targetUart4: bool)
    requires |rs| < TWO_32
    ensures GateExpected(PhaseTally(rs, anchors)) <==> rs != [] && forall r :: r in rs ==> Intact(r, anchors)
    ensures GateDuring(PhaseTally(rs, anchors), targetUart4) <==>
            rs != [] && forall r :: r in rs ==> HoleOnly(r, anchors, targetUart4)
  {
    hide PhaseTally, ClassOf, Intact, HoleOnly, AllExpected, AllAllFf;
    LaneGate(rs, Uart0, anchors);
    LaneGate(rs, Chip, anchors);
    LaneGate(rs, Uart4, anchors);
    LaneGate(rs, Monitor2, anchors);
    LaneGate(rs, Bar2, anchors);
    forall r ensures Intact(r, anchors) <==>
            && ClassOf(r, Uart0, anchors) == Good && ClassOf(r, Chip, anchors) == Good && ClassOf(r, Uart4, anchors) == Good
            && ClassOf(r, Monitor2, anchors) == Good && ClassOf(r, Bar2, anchors) == Good
    {
      IntactIsGood(r, anchors);
    }
    forall r ensures HoleOnly(r, anchors, targetUart4) <==>
            && ClassOf(r, Uart0, anchors) == (if targetUart4 then Good else AllOnes)
            && ClassOf(r, Uart4, anchors) == (if targetUart4 then AllOnes else Good)
            && ClassOf(r, Chip, anchors) == Good && ClassOf(r, Monitor2, anchors) == Good && ClassOf(r, Bar2, anchors) == Good
    {
      HoleIsAllOnes(r, anchors, targetUart4);
    }
  }

  // The verdict is positive exactly when the run shows the hole: enough intact
  // records before, every stable record during it all ones on the target page
  // and right everywhere else, and a full intact set after.
  lemma GateIsProven(history: seq<Record>, anchors: Anchors, targetUart4: bool)
    requires |history| < TWO_32
    ensures Gate(Tally(history, anchors), targetUart4) <==> Proven(history, anchors, targetUart4)
  {
    hide Tally, Select, PhaseTally, CohortOf, Intact, HoleOnly, GateExpected, GateDuring;
    TallySplits(history, anchors);
    var b, d, a := Select(history, Before), Select(history, During), Select(history, After);
    SelectedRecords(history, Before);
    SelectedRecords(history, During);
    SelectedRecords(history, After);
    PhaseGate(b, anchors, targetUart4);
    PhaseGate(d, anchors, targetUart4);
    PhaseGate(a, anchors, targetUart4);
    CountersCount(b, Chip, Good, anchors);
    CountersCount(a, Chip, Good, anchors);
  }

  // ---- Raw values ---------------------------------------------------------

  // The values actually read on a lane, aborted probes left out.
  function Raws(rs: seq<Record>, lane: Lane): (vs: seq<bv32>)
    ensures |vs| <= |rs|
  {
    if rs == [] then [] else
    var p := RawOf(rs[|rs| - 1], lane);
    Raws(rs[..|rs| - 1], lane) + (if p.aborted then [] else [p.value])
  }

  predicate SameRaws(c: ValueCounts, d: ValueCounts) {
    && c.rawSeen == d.rawSeen && c.rawFirst == d.rawFirst && c.rawLast == d.rawLast
    && c.rawOr == d.rawOr && c.rawAnd == d.rawAnd && c.rawXor == d.rawXor
  }

  lemma ProbeRaws(c: ValueCounts, probe: Probe, expected: bv32)
    ensures SameRaws(RecordProbe(c, probe, expected), if probe.aborted then c else RecordRaw(c, probe.value))
    ensures SameRaws(RecordMonitor2(c, probe), if probe.aborted then c else RecordRaw(c, probe.value))
  { }

  lemma BoolRaws(c: ValueCounts, ok: bool)
    ensures SameRaws(RecordBool(c, ok), RecordRaw(c, if ok then 1 else 0))
  { }

  lemma LaneRawStep(p: PhaseCounts, r: Record, lane: Lane, anchors: Anchors)
    ensures var c, probe := LaneOf(p, lane), RawOf(r, lane);
            SameRaws(LaneOf(RecordPhase(p, r, anchors), lane), if probe.aborted then c else RecordRaw(c, probe.value))
  {
    hide RecordRaw, RecordProbe, RecordMonitor2, RecordBool, SameRaws;
    match lane
    case Uart0 => ProbeRaws(p.uart0, r.uart0, anchors.uart0);
    case Chip => ProbeRaws(p.chip, r.chip, EXPECTED_CHIP_ID);
    case Uart4 => ProbeRaws(p.uart4, r.uart4, anchors.uart4);
    case Monitor2 => ProbeRaws(p.monitor2, r.monitor2, 0);
    case Bar2 => BoolRaws(p.bar2, r.bar2Valid);
  }

  predicate Covers(high: bv32, low: bv32) {
    And(high, low) == low
  }

  lemma AndAssociates(a: bv32, b: bv32, c: bv32)
    ensures And(And(a, b), c) == And(a, And(b, c))
  { }

  lemma AndCommutes(a: bv32, b: bv32)
    ensures And(a, b) == And(b, a)
  { }

  lemma AndTwice(a: bv32)
    ensures And(a, a) == a
  { }

  lemma AndDistributes(c: bv32, a: bv32, b: bv32)
    ensures And(c, Or(a, b)) == Or(And(c, a), And(c, b))
  { }

  lemma OrAbsorbs(a: bv32, b: bv32)
    ensures And(Or(a, b), a) == a
  { }

  lemma OrCommutes(a: bv32, b: bv32)
    ensures Or(a, b) == Or(b, a)
  { }

  lemma CoversAnd(a: bv32, b: bv32, low: bv32)
    ensures Covers(And(a, b), low) <==> Covers(a, low) && Covers(b, low)
  {
    hide And;
    AndAssociates(a, b, low);
    if Covers(And(a, b), low) {
      AndAssociates(a, a, And(b, low));
      AndTwice(a);
      AndCommutes(a, b);
      AndAssociates(b, a, low);
      AndAssociates(b, b, And(a, low));
      AndTwice(b);
    }
  }

  lemma CoversOr(a: bv32, b: bv32, high: bv32)
    ensures Covers(high, Or(a, b)) <==> Covers(high, a) && Covers(high, b)
  {
    hide And, Or;
    AndDistributes(high, a, b);
    if Covers(high, Or(a, b)) {
      OrAbsorbs(a, b);
      OrCommutes(a, b);
      OrAbsorbs(b, a);
      AndAssociates(high, Or(a, b), a);
      AndAssociates(high, Or(a, b), b);
    }
  }

  predicate AllWithin(bits: bv32, vs: seq<bv32>) {
    forall v :: v in vs ==> Covers(bits, v)
  }

  predicate AllContain(vs: seq<bv32>, bits: bv32) {
    forall v :: v in vs ==> Covers(v, bits)
  }

  lemma OneMore(vs: seq<bv32>, v: bv32, bits: bv32)
    ensures AllWithin(bits, vs + [v]) <==> AllWithin(bits, vs) && Covers(bits, v)
    ensures AllContain(vs + [v], bits) <==> AllContain(vs, bits) && Covers(v, bits)
  { }

  function XorOf(vs: seq<bv32>): bv32 {
    if vs == [] then 0 else Xor(XorOf(vs[..|vs| - 1]), vs[|vs| - 1])
  }

  // What the raw fields of some counters say of the values read.
  predicate Bounded(c: ValueCounts, vs: seq<bv32>, bits: bv32) {
    && c.rawSeen == |vs|
    && (Covers(bits, c.rawOr) <==> AllWithin(bits, vs))
    && (vs != [] ==> (Covers(c.rawAnd, bits) <==> AllContain(vs, bits)))
    && c.rawFirst == (if vs == [] then 0 else vs[0])
    && c.rawLast == (if vs == [] then 0 else vs[|vs| - 1])
    && (vs == [] ==> c.rawAnd == 0)
    && c.rawXor == XorOf(vs)
  }

  lemma XorUndoesXor(a: bv32, b: bv32)
    ensures Xor(Xor(a, b), b) == a
  { }

  lemma OneMoreXor(vs: seq<bv32>, v: bv32)
    ensures XorOf(vs + [v]) == Xor(XorOf(vs), v) && XorOf([]) == 0
  {
    hide Xor;
    assert (vs + [v])[..|vs|] == vs;
  }

  lemma BoundedStep(c: ValueCounts, vs: seq<bv32>, v: bv32, bits: bv32)
    requires Bounded(c, vs, bits) && |vs| + 1 < TWO_32
    ensures Bounded(RecordRaw(c, v), vs + [v], bits)
  {
    hide Covers, And, Or, Xor, XorOf, AllWithin, AllContain;
    CoversAnd(c.rawAnd, v, bits);
    CoversOr(c.rawOr, v, bits);
    OneMore(vs, v, bits);
    OneMoreXor(vs, v);
    if vs == [] {
      assert vs + [v] == [v];
      assert AllContain(vs, bits) by { AllContainNothing(bits); }
    }
  }

  lemma AllContainNothing(bits: bv32)
    ensures AllContain([], bits)
  { }

  // `raw_and` holds exactly the bits common to every value read, `raw_or` exactly the bits seen in any,
  // `raw_xor` their sum modulo 2, and the two ends are the first and the last. All are zero before a read.
  lemma {:induction false} RawBounds(rs: seq<Record>, lane: Lane, anchors: Anchors, bits: bv32)
    requires |rs| < TWO_32
    ensures Bounded(LaneOf(PhaseTally(rs, anchors), lane), Raws(rs, lane), bits)
  {
    hide RecordPhase, RecordRaw, LaneOf, RawOf, Covers, AllWithin, AllContain;
    if rs == [] {
      NothingRead(lane, bits);
    } else {
      var front, last := rs[..|rs| - 1], rs[|rs| - 1];
      RawBounds(front, lane, anchors, bits);
      var p := PhaseTally(front, anchors);
      LaneRawStep(p, last, lane, anchors);
      if !RawOf(last, lane).aborted {
        BoundedStep(LaneOf(p, lane), Raws(front, lane), RawOf(last, lane).value, bits);
      } else {
        assert Raws(rs, lane) == Raws(front, lane);
      }
    }
  }

  lemma NothingRead(lane: Lane, bits: bv32)
    ensures LaneOf(NO_SAMPLES, lane) == NO_VALUES && Covers(bits, NO_VALUES.rawOr) && AllWithin(bits, [])
  { }
}
