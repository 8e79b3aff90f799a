/**
 * A network boot from device initialisation to the entry of Linux
 * (net_boot.rs:84-193, 233-375, 477-594, 640-671; main.rs:711-984).
 *
 * A run leaves a trace of the events that matter: what happens to the network
 * device (which sits behind RP1), resets of RP1, and the entry. Everything
 * outside the model - downloads, hardware, header checks - may succeed or fail
 * at every step.
 */
module NetBoot {
  import opened Prelude
  import opened Policy
  import opened LittleEndian
  import BootNote
  import ConfigText
  import ElfSections
  import DtbPatch
  import NotePolicy

  // The steps that must succeed before Linux can be entered, whatever they do inside.
  datatype Stage =
    | Pcie | GemSetup | Lease
    | Kernel | Inflated | KernelHeader | Ramdisk | RamdiskHeld | SealedTree | TreeMatchesBoard
    | Rp1Elf | ElfSelected | ConfigFile | FlushFile
    | ImageBuilt | StartContract | SharedMemory | GemStopped | TreePatched

  datatype Event =
    | Passed(stage: Stage)
    | InitGem | UseGem | ReleaseGem
    | ResetRp1
    | EnterLinux(tree: DtbPatch.Nodes)

  type Trace = seq<Event>

  // ---- A monitor of traces ------------------------------------------------

  // Whether the network device is in use, whether the kernel image has been
  // checked, how often RP1 was reset, and whether Linux runs.
  datatype State = State(live: bool, checked: bool, resets: nat, entered: bool)

  const UNBOOTED := State(false, false, 0, false)

  function Step(s: State, e: Event): Option<State> {
    if s.entered then None else
    match e
    case InitGem => if s.live then None else Some(s.(live := true))
    case UseGem => if s.live then Some(s) else None
    case ReleaseGem => if s.live then Some(s.(live := false)) else None
    case ResetRp1 => if s.live then None else Some(s.(resets := s.resets + 1))
    case Passed(stage) => Some(if stage == KernelHeader then s.(checked := true) else s)
    case EnterLinux(_) => if !s.live && s.checked then Some(s.(entered := true)) else None
  }

  function Monitor(t: Trace): Option<State> {
    if t == [] then Some(UNBOOTED) else
    match Monitor(t[..|t| - 1])
    case None => None
    case Some(s) => Step(s, t[|t| - 1])
  }

  // ---- What the monitor accepts, in terms of positions --------------------

  // Before position `i` the device was initialised and not released since.
  ghost predicate LiveAt(t: Trace, i: nat)
    requires i <= |t|
  {
    exists j :: 0 <= j < i && t[j] == InitGem && NoRelease(t, j + 1, i)
  }

  predicate NoRelease(t: Trace, from: nat, to: nat)
    requires to <= |t|
  {
    forall k :: from <= k < to ==> t[k] != ReleaseGem
  }

  ghost predicate CheckedBefore(t: Trace, i: nat)
    requires i <= |t|
  {
    exists j :: 0 <= j < i && t[j] == Passed(KernelHeader)
  }

  ghost predicate Allowed(t: Trace, i: nat)
    requires i < |t|
  {
    match t[i]
    case InitGem => !LiveAt(t, i)
    case UseGem => LiveAt(t, i)
    case ReleaseGem => LiveAt(t, i)
    case ResetRp1 => !LiveAt(t, i)
    case Passed(_) => true
    case EnterLinux(_) => !LiveAt(t, i) && CheckedBefore(t, i) && i == |t| - 1
  }

  // The device is never used unless initialised and not yet released, is never
  // in use across a reset or into Linux, and Linux comes last, after a check.
  ghost predicate Safe(t: Trace) {
    forall i :: 0 <= i < |t| ==> Allowed(t, i)
  }

  lemma LivePrefix(t: Trace, i: nat)
    requires t != [] && i < |t|
    ensures LiveAt(t[..|t| - 1], i) == LiveAt(t, i)
    ensures CheckedBefore(t[..|t| - 1], i) == CheckedBefore(t, i)
  { }

  lemma LiveStep(t: Trace)
    requires t != []
    ensures var last := t[|t| - 1]; var front := t[..|t| - 1];
            && LiveAt(t, |t|) == (last == InitGem || (last != ReleaseGem && LiveAt(front, |front|)))
            && CheckedBefore(t, |t|) == (last == Passed(KernelHeader) || CheckedBefore(front, |front|))
  { }

  predicate EntersBefore(t: Trace, n: nat)
    requires n <= |t|
  {
    exists j :: 0 <= j < n && t[j].EnterLinux?
  }

  // The monitor accepts exactly the safe traces, and its state says how they end.
  lemma {:induction false} MonitorIsSafe(t: Trace)
    ensures Monitor(t).Some? <==> Safe(t)
    ensures Monitor(t).Some? ==>
              var s := Monitor(t).value;
              s.live == LiveAt(t, |t|) && s.checked == CheckedBefore(t, |t|) && s.entered == EntersBefore(t, |t|)
    decreases |t|
  {
    if t == [] {
      return;
    }
    var front, n := t[..|t| - 1], |t| - 1;
    MonitorIsSafe(front);
    LiveStep(t);
    hide LiveAt, CheckedBefore, Monitor;
    MonitorStep(t);
    SafeSplits(t);
    if EntersBefore(t, |t|) {
      var j :| 0 <= j < |t| && t[j].EnterLinux?;
      if j < n { assert front[j] == t[j]; }
    }
    if EntersBefore(front, n) {
      var j :| 0 <= j < n && front[j].EnterLinux?;
      assert t[j].EnterLinux?;
    }
  }

  lemma MonitorStep(t: Trace)
    requires t != []
    ensures Monitor(t) == match Monitor(t[..|t| - 1]) case None => None case Some(s) => Step(s, t[|t| - 1])
  { }

  lemma SafeSplits(t: Trace)
    requires t != []
    ensures Safe(t) <==> Safe(t[..|t| - 1]) && Allowed(t, |t| - 1) && !EntersBefore(t[..|t| - 1], |t| - 1)
    ensures LiveAt(t, |t| - 1) == LiveAt(t[..|t| - 1], |t| - 1)
    ensures CheckedBefore(t, |t| - 1) == CheckedBefore(t[..|t| - 1], |t| - 1)
  {
    var front, n := t[..|t| - 1], |t| - 1;
    forall i | 0 <= i <= n ensures LiveAt(front, i) == LiveAt(t, i) && CheckedBefore(front, i) == CheckedBefore(t, i) {
      LivePrefix(t, i);
    }
    hide LiveAt, CheckedBefore;
    assert forall i :: 0 <= i < n ==> front[i] == t[i];
    if Safe(t) {
      forall i | 0 <= i < n ensures Allowed(front, i) && !front[i].EnterLinux? {
        assert Allowed(t, i);
      }
      assert Allowed(t, n);
    }
    if Safe(front) && Allowed(t, n) && !EntersBefore(front, n) {
      forall i | 0 <= i < |t| ensures Allowed(t, i) {
        if i < n { assert Allowed(front, i) && !front[i].EnterLinux?; }
      }
    }
  }

  // Any use of the device after a reset comes after a new initialisation.
  lemma ResetNeedsReinit(t: Trace, i: nat, j: nat) returns (k: nat)
    requires Safe(t) && i < j < |t| && t[i] == ResetRp1 && t[j] == UseGem
    ensures i < k < j && t[k] == InitGem
  {
    assert Allowed(t, i) && Allowed(t, j);
    k :| 0 <= k < j && t[k] == InitGem && NoRelease(t, k + 1, j);
    if k < i {
      StillLive(t, k, i, j);
    }
  }

  lemma StillLive(t: Trace, k: nat, i: nat, j: nat)
    requires k < i <= j <= |t| && t[k] == InitGem && NoRelease(t, k + 1, j)
    ensures LiveAt(t, i)
  { }

  // ---- The boot -----------------------------------------------------------

  // Which of the build's variants runs: Linux despite an RP1 that fails, the sealed SCMI variant, no reload
  // of RP1, an initramfs, the debug stub, going on after bootstrap failures.
  datatype Features = Features(
    observeFailure: bool, scmiLinux: bool, skipReload: bool, initramfs: bool, debugStub: bool, continueOnFailure: bool)

  // The feature dependencies that the package declares.
  predicate Buildable(f: Features) {
    && (f.scmiLinux ==> f.initramfs && f.debugStub)
    && (f.observeFailure ==> f.debugStub)
  }

  // Fetch the kernel first, then reload RP1, and start Linux without bringing the network up again.
  predicate Preloaded(f: Features) {
    (f.observeFailure || f.scmiLinux) && !f.skipReload
  }

  // The build's purpose is to serve a debugger once RP1 has been reloaded.
  predicate DebuggerBuild(f: Features) {
    f.debugStub && !f.observeFailure && !f.scmiLinux && !f.skipReload
  }

  // How a step outside the model ends.
  datatype Outcome = Good | Bad

  // What a download of an optional file comes to.
  datatype Transfer = Fetched | Missing | Broken

  // What the outside world holds: RP1's ELF and, if the server has one, the
  // configuration file, whether it has the file that is asked for only to flush
  // the transfer before, the device trees of the firmware and of the server, and
  // the outcome of every step. A server without a file it is asked for has not
  // failed.
  datatype World = World(
    elf: Bytes, config: Bytes, configFound: bool, flushFound: bool,
    firmwareNodes: DtbPatch.Nodes, downloadedNodes: DtbPatch.Nodes,
    abi: BootNote.NoteAbi, bit: DeviceNumbers, outcome: nat -> Outcome)

  ghost predicate NothingFails(w: World) {
    forall k :: w.outcome(k) == Good
  }

  // The tree that Linux is to get.
  function HandoffNodes(w: World, f: Features): DtbPatch.Nodes {
    if f.scmiLinux && !f.skipReload then w.downloadedNodes else w.firmwareNodes
  }

  // The policy that the downloaded files amount to. A malformed file refuses
  // the boot here even when the note would not need it.
  function PolicyIn(w: World, configFound: bool): Result<Rp1DtbPolicy, BootError>
    requires BootNote.AbiFits(w.abi)
  {
    var config := if configFound then Some(w.config) else None;
    if ConfigText.ParseFile(config, w.bit).Err? then Err(Rp1ConfigInvalid)
    else BootNote.PolicyForBoot(w.elf, config, w.abi, w.bit)
  }

  // Starting RP1 either hands control back, or refuses to go on, or ends in the debug server for good.
  datatype Start = Started | Refused | Serving

  // What loading RP1 from the network comes to.
  datatype Rp1End = Loaded(policy: Rp1DtbPolicy) | NotLoaded | ServesDebugger

  datatype BootEnd = EntersLinux(policy: Rp1DtbPolicy) | GivesUp | StaysInDebugger

  // ---- What a boot that succeeds has done ---------------------------------

  function BringUp(): Trace { [Passed(Pcie), Passed(GemSetup), InitGem, UseGem] }

  function Fetch(file: Stage): Trace { [UseGem, Passed(file)] }

  function KernelScript(f: Features): Trace {
    Fetch(Kernel) + [Passed(Inflated), Passed(KernelHeader)] + (if f.initramfs then Fetch(Ramdisk) else [])
  }

  function SealedScript(f: Features): Trace {
    if f.scmiLinux then [Passed(RamdiskHeld)] + Fetch(SealedTree) + [Passed(TreeMatchesBoard)] else []
  }

  function PolicyScript(): Trace {
    Fetch(Rp1Elf) + [Passed(ElfSelected)] + Fetch(ConfigFile) + Fetch(FlushFile) + [UseGem]
  }

  function ImageScript(f: Features): Trace {
    [Passed(ImageBuilt), Passed(StartContract)] + (if f.debugStub then [Passed(SharedMemory)] else [])
  }

  function StopScript(): Trace { [UseGem, Passed(GemStopped), ReleaseGem] }

  // Everything is fetched and the device released before RP1 is reset.
  function ReloadScript(f: Features): Trace {
    PolicyScript() + ImageScript(f) + StopScript() + [ResetRp1]
  }

  function HandoffScript(): Trace { [Passed(TreePatched)] + StopScript() }

  // The whole run up to the entry: the preloaded variants fetch everything first, the others reload RP1 first
  // and bring the network up again, or do not reload it at all.
  function Script(f: Features): Trace {
    if f.skipReload then BringUp() + Fetch(Lease) + KernelScript(f) + PolicyScript() + HandoffScript()
    else if f.observeFailure || f.scmiLinux then
      BringUp() + Fetch(Lease) + KernelScript(f) + SealedScript(f) + ReloadScript(f) + [Passed(TreePatched)]
    else BringUp() + Fetch(Lease) + ReloadScript(f) + BringUp() + KernelScript(f) + HandoffScript()
  }

  // ---- How starting RP1 ends ----------------------------------------------

  // Up to so many attempts at the link and then at the window onto shared memory, from outcome `at` on. A dead
  // link ends them; the sealed variant judges RP1's samples as soon as it can.
  function Finding(w: World, f: Features, at: nat, attempts: nat): Start
    decreases attempts
  {
    if attempts == 0 then (if f.scmiLinux then Refused else if f.observeFailure then Started else Serving)
    else if w.outcome(at) == Bad then Refused
    else if w.outcome(at + 1) == Bad then Finding(w, f, at + 2, attempts - 1)
    else if f.scmiLinux then (if w.outcome(at + 2) == Good then Started else Refused)
    else if f.observeFailure then Started else Serving
  }

  // The reset, the load, the scratch words and the start; without the debug stub the last three are one step.
  function Starting(w: World, f: Features, at: nat): Start {
    var failure := if f.continueOnFailure then Started else Refused;
    if w.outcome(at) == Bad then failure
    else if !f.debugStub then (if w.outcome(at + 1) == Bad then failure else Started)
    else if !f.continueOnFailure && (w.outcome(at + 1) == Bad || w.outcome(at + 2) == Bad || w.outcome(at + 3) == Bad) then Refused
    else Finding(w, f, at + 4, 4)
  }

  // From one trace to another, this happened.
  predicate Did(before: Trace, after: Trace, script: Trace) {
    after == before + script
  }

  lemma DidBoth(a: Trace, b: Trace, c: Trace, first: Trace, next: Trace)
    requires Did(a, b, first) && Did(b, c, next)
    ensures Did(a, c, first + next)
  { }

  lemma DidNothing(t: Trace, script: Trace)
    ensures Did(t, t, []) && script + [] == script
  { }

  // Linux was entered, with this tree.
  predicate Entered(before: Trace, after: Trace, tree: DtbPatch.Nodes) {
    Entry(after) == before && after != [] && after[|after| - 1] == EnterLinux(tree)
  }

  lemma NothingDone()
    ensures Monitor([]) == Some(UNBOOTED)
  { }

  lemma PreloadedScript(f: Features, t: Trace)
    requires Preloaded(f)
    requires Did([], t, BringUp() + Fetch(Lease) + KernelScript(f) + SealedScript(f) + ReloadScript(f) + [Passed(TreePatched)])
    ensures t == Script(f)
  {
    hide BringUp, Fetch, KernelScript, SealedScript, ReloadScript, PolicyScript, HandoffScript;
    OnlyScript(t, BringUp() + Fetch(Lease) + KernelScript(f) + SealedScript(f) + ReloadScript(f) + [Passed(TreePatched)]);
  }

  lemma ReloadedScript(f: Features, t: Trace)
    requires !Preloaded(f)
    requires Did([], t, BringUp() + Fetch(Lease) + (if f.skipReload then [] else ReloadScript(f) + BringUp())
                        + (KernelScript(f) + (if f.skipReload then PolicyScript() else []) + HandoffScript()))
    ensures t == Script(f)
  {
    hide BringUp, Fetch, KernelScript, SealedScript, ReloadScript, PolicyScript, HandoffScript, Did;
    var a, k, p, h := BringUp() + Fetch(Lease), KernelScript(f), PolicyScript(), HandoffScript();
    if f.skipReload {
      Flatten(a, [], k, p, h);
      OnlyScript(t, a + [] + (k + p + h));
    } else {
      var r := ReloadScript(f) + BringUp();
      Flatten(a, r, k, [], h);
      OnlyScript(t, a + r + (k + [] + h));
      Regroup(a, ReloadScript(f), BringUp());
    }
  }

  lemma OnlyScript(t: Trace, script: Trace)
    requires Did([], t, script)
    ensures t == script
  { }

  lemma Flatten(a: Trace, r: Trace, k: Trace, p: Trace, h: Trace)
    ensures a + r + (k + p + h) == a + r + k + p + h
    ensures r == [] ==> a + r == a
    ensures p == [] ==> a + r + k + p == a + r + k
  { }

  lemma Regroup(a: Trace, b: Trace, c: Trace)
    ensures a + (b + c) == a + b + c
  { }

  // What the trace was when Linux was entered.
  function Entry(t: Trace): Trace {
    if t == [] then [] else t[..|t| - 1]
  }

  lemma StartsAsBuilt(w: World, f: Features, at: nat)
    ensures Starting(w, f, at) == Serving ==> f.debugStub && !f.observeFailure && !f.scmiLinux
    ensures NothingFails(w) ==>
              Starting(w, f, at) == if f.debugStub && !f.observeFailure && !f.scmiLinux then Serving else Started
  {
    FindingServes(w, f, at + 4, 4);
  }

  lemma {:induction false} FindingServes(w: World, f: Features, at: nat, attempts: nat)
    ensures Finding(w, f, at, attempts) == Serving ==> !f.observeFailure && !f.scmiLinux
    decreases attempts
  {
    if attempts > 0 {
      FindingServes(w, f, at + 2, attempts - 1);
    }
  }

  class Boot {
    const w: World
    const f: Features
    var step: nat
    ghost var trace: Trace

    constructor (w: World, f: Features)
      ensures this.w == w && this.f == f && trace == []
    {
      this.w, this.f := w, f;
      step, trace := 0, [];
    }

    ghost predicate Valid()
      reads this
    {
      Monitor(trace).Some? && BootNote.AbiFits(w.abi) && Buildable(f)
    }

    ghost function Now(): State
      requires Valid()
      reads this
    {
      Monitor(trace).value
    }

    method Observe() returns (o: Outcome)
      modifies this`step
      ensures o == w.outcome(old(step)) && step == old(step) + 1
    {
      o := w.outcome(step);
      step := step + 1;
    }

    // A stage that must succeed leaves its mark when it does.
    method Try(stage: Stage) returns (ok: bool)
      requires Valid() && !Now().entered
      modifies this
      ensures Valid() && Now() == if ok && stage == KernelHeader then old(Now()).(checked := true) else old(Now())
      ensures step == old(step) + 1 && (ok <==> w.outcome(old(step)) == Good)
      ensures Did(old(trace), trace, if ok then [Passed(stage)] else [])
    {
      hide Monitor;
      DidNothing(trace, []);
      var o := Observe();
      ok := o == Good;
      if ok {
        Emit(Passed(stage));
      }
    }

    ghost method Emit(e: Event)
      requires Valid() && Step(Now(), e).Some?
      modifies this`trace
      ensures Valid() && Did(old(trace), trace, [e]) && (e.EnterLinux? ==> Entered(old(trace), trace, e.tree))
      ensures Now() == Step(old(Now()), e).value
    {
      trace := trace + [e];
      assert trace[..|trace| - 1] == old(trace);
    }

    // PCIe and device bring-up; the link state is read at the end.
    method InitTftpGem() returns (ok: bool)
      requires Valid() && !Now().live && !Now().entered
      modifies this
      ensures Valid() && Now() == old(Now()).(live := ok)
      ensures ok ==> Did(old(trace), trace, BringUp())
      ensures NothingFails(w) ==> ok
    {
      hide Monitor;
      ok := Try(Pcie);
      if !ok {
        return;
      }
      ok := Try(GemSetup);
      if !ok {
        return;
      }
      Emit(InitGem);
      Emit(UseGem);
    }

    method DhcpAcquire() returns (ok: bool)
      requires Valid() && Now().live && !Now().entered
      modifies this
      ensures Valid() && Now() == old(Now())
      ensures ok ==> Did(old(trace), trace, Fetch(Lease))
      ensures NothingFails(w) ==> ok
    {
      hide Monitor;
      Emit(UseGem);
      ok := Try(Lease);
    }

    // A failed transfer reads the device's diagnostics before it gives up.
    method DownloadRequired(file: Stage) returns (ok: bool)
      requires Valid() && Now().live && !Now().entered && file != KernelHeader
      modifies this
      ensures Valid() && Now() == old(Now())
      ensures Did(old(trace), trace, if ok then Fetch(file) else [UseGem, UseGem])
      ensures NothingFails(w) ==> ok
    {
      hide Monitor;
      Emit(UseGem);
      ok := Try(file);
      if !ok {
        Emit(UseGem);
      }
    }

    // Of an optional file the server may also say that it has none.
    method DownloadOptional(file: Stage, present: bool) returns (t: Transfer)
      requires Valid() && Now().live && !Now().entered && file != KernelHeader
      modifies this
      ensures Valid() && Now() == old(Now())
      ensures t == Broken || t == if present then Fetched else Missing
      ensures Did(old(trace), trace, if t == Broken then [UseGem, UseGem] else Fetch(file))
      ensures NothingFails(w) ==> t != Broken
    {
      var ok := DownloadRequired(file);
      return if !ok then Broken else if present then Fetched else Missing;
    }

    // The kernel, inflated if need be, with its header checked; and the initramfs of the builds that have one.
    method FetchKernel() returns (ok: bool)
      requires Valid() && Now().live && !Now().entered
      modifies this
      ensures Valid() && Now() == old(Now()).(checked := Now().checked)
      ensures ok ==> Now().checked && Did(old(trace), trace, KernelScript(f))
      ensures NothingFails(w) ==> ok
    {
      hide Monitor, Did, Fetch;
      ghost var was := trace;
      ghost var fetch, checks := Fetch(Kernel), [Passed(Inflated)] + [Passed(KernelHeader)];
      ok := DownloadRequired(Kernel);
      if !ok {
        return;
      }
      ghost var fetched := trace;
      ok := Try(Inflated);
      if !ok {
        return;
      }
      ghost var inflated := trace;
      ok := Try(KernelHeader);
      if !ok {
        return;
      }
      DidBoth(fetched, inflated, trace, [Passed(Inflated)], [Passed(KernelHeader)]);
      DidBoth(was, fetched, trace, fetch, checks);
      assert checks == [Passed(Inflated), Passed(KernelHeader)];
      DidNothing(trace, fetch + checks);
      if f.initramfs {
        ghost var checked := trace;
        ok := DownloadRequired(Ramdisk);
        if ok {
          DidBoth(was, checked, trace, fetch + checks, Fetch(Ramdisk));
        }
      }
    }

    // The initramfs must hold something; the sealed tree is fetched and checked against the firmware's.
    method FetchSealedTree() returns (ok: bool)
      requires Valid() && Now().live && !Now().entered
      modifies this
      ensures Valid() && Now() == old(Now())
      ensures ok ==> Did(old(trace), trace, SealedScript(f))
      ensures NothingFails(w) ==> ok
    {
      hide Monitor, Did, Fetch;
      if !f.scmiLinux {
        DidNothing(trace, []);
        return true;
      }
      ghost var was := trace;
      ok := Try(RamdiskHeld);
      if !ok {
        return;
      }
      ghost var held := trace;
      ok := DownloadRequired(SealedTree);
      if !ok {
        return;
      }
      DidBoth(was, held, trace, [Passed(RamdiskHeld)], Fetch(SealedTree));
      ghost var fetched := trace;
      ok := Try(TreeMatchesBoard);
      if ok {
        DidBoth(was, fetched, trace, [Passed(RamdiskHeld)] + Fetch(SealedTree), [Passed(TreeMatchesBoard)]);
      }
    }

    // The file must be well formed, even where the note decides.
    method EnforcePolicy(configFound: bool) returns (policy: Option<Rp1DtbPolicy>)
      requires BootNote.AbiFits(w.abi)
      ensures policy == (match PolicyIn(w, configFound) case Ok(p) => Some(p) case Err(_) => None)
    {
      hide ConfigText.ParseFile, BootNote.PolicyForBoot;
      var config := if configFound then Some(w.config) else None;
      var parsed := ConfigText.ParseOptionalConfig(config, w.bit);
      if parsed.Err? {
        return None;
      }
      var enforced := BootNote.EnforceNotePolicy(w.elf, config, w.abi, w.bit);
      if enforced.Err? {
        return None;
      }
      return Some(enforced.value);
    }

    method FetchElf() returns (ok: bool)
      requires Valid() && Now().live && !Now().entered
      modifies this
      ensures Valid() && Now() == old(Now())
      ensures ok ==> Did(old(trace), trace, Fetch(Rp1Elf) + [Passed(ElfSelected)])
      ensures NothingFails(w) ==> ok
    {
      hide Monitor, Did, Fetch;
      ghost var was := trace;
      ok := DownloadRequired(Rp1Elf);
      if !ok {
        return;
      }
      ghost var fetched := trace;
      ok := Try(ElfSelected);
      if ok {
        DidBoth(was, fetched, trace, Fetch(Rp1Elf), [Passed(ElfSelected)]);
      }
    }

    // RP1's ELF and its policy; leftovers of the transfer are flushed after it.
    method LoadRp1Policy() returns (policy: Option<Rp1DtbPolicy>)
      requires Valid() && Now().live && !Now().entered
      modifies this
      ensures Valid() && Now() == old(Now())
      ensures policy.Some? ==> PolicyIn(w, w.configFound) == Ok(policy.value) && Did(old(trace), trace, PolicyScript())
      ensures NothingFails(w) ==> policy == (match PolicyIn(w, w.configFound) case Ok(p) => Some(p) case Err(_) => None)
    {
      hide Monitor, Did, Fetch, PolicyIn;
      ghost var was, a := trace, Fetch(Rp1Elf) + [Passed(ElfSelected)];
      var ok := FetchElf();
      if !ok {
        return None;
      }
      ghost var selected := trace;
      var file := DownloadOptional(ConfigFile, w.configFound);
      if file == Broken {
        return None;
      }
      DidBoth(was, selected, trace, a, Fetch(ConfigFile));
      ghost var configured := trace;
      policy := EnforcePolicy(file == Fetched);
      if policy.None? {
        return;
      }
      var flushed := DownloadOptional(FlushFile, w.flushFound);
      if flushed == Broken {
        return None;
      }
      DidBoth(was, configured, trace, a + Fetch(ConfigFile), Fetch(FlushFile));
      ghost var quiet := trace;
      Emit(UseGem);
      DidBoth(was, quiet, trace, a + Fetch(ConfigFile) + Fetch(FlushFile), [UseGem]);
    }

    // After a failure of the bootstrap the build goes on or not.
    method BootstrapFailure() returns (start: Start)
      ensures start == if f.continueOnFailure then Started else Refused
    {
      start := if f.continueOnFailure then Started else Refused;
    }

    // Reset RP1, load and start its image. With the debug stub, find its shared memory again and then do
    // what the build is for.
    method StartRp1Image() returns (start: Start)
      requires Valid() && !Now().live && !Now().entered
      modifies this
      ensures Valid() && Now() == old(Now()).(resets := old(Now()).resets + 1)
      ensures Did(old(trace), trace, [ResetRp1])
      ensures start == Starting(w, f, old(step))
    {
      hide Monitor, Finding, Did;
      Emit(ResetRp1);
      var o := Observe();
      if o == Bad {
        start := BootstrapFailure();
        return;
      }
      if !f.debugStub {
        o := Observe();
        if o == Bad {
          start := BootstrapFailure();
          return;
        }
        return Started;
      }
      // Loading, scratch and start, each on its own.
      for part := 0 to 3
        invariant Valid() && Now() == old(Now()).(resets := old(Now()).resets + 1)
        invariant step == old(step) + 1 + part && Did(old(trace), trace, [ResetRp1])
        invariant f.continueOnFailure || part < 1 || w.outcome(old(step) + 1) == Good
        invariant f.continueOnFailure || part < 2 || w.outcome(old(step) + 2) == Good
        invariant f.continueOnFailure || part < 3 || w.outcome(old(step) + 3) == Good
      {
        o := Observe();
        if o == Bad {
          start := BootstrapFailure();
          if start == Refused {
            return;
          }
        }
      }
      start := FindSharedMemory();
    }

    method FindSharedMemory() returns (start: Start)
      modifies this`step
      ensures start == Finding(w, f, old(step), 4)
    {
      for attempt := 0 to 4
        invariant Finding(w, f, step, 4 - attempt) == Finding(w, f, old(step), 4)
      {
        // The link, then the window onto shared memory.
        var o := Observe();
        if o == Bad {
          return Refused;
        }
        o := Observe();
        if o == Good {
          if f.scmiLinux {
            o := Observe();
            return if o == Good then Started else Refused;
          }
          return if f.observeFailure then Started else Serving;
        }
      }
      if f.scmiLinux {
        return Refused;
      }
      return if f.observeFailure then Started else Serving;
    }

    // The image built and its start contract applied; the debug stub looks for shared memory while it can.
    method BuildImage() returns (ok: bool)
      requires Valid() && !Now().entered
      modifies this
      ensures Valid() && Now() == old(Now())
      ensures ok ==> Did(old(trace), trace, ImageScript(f))
      ensures NothingFails(w) ==> ok
    {
      hide Monitor, Did;
      ghost var was := trace;
      ok := Try(ImageBuilt);
      if !ok {
        return;
      }
      ghost var built := trace;
      ok := Try(StartContract);
      if !ok {
        return;
      }
      DidBoth(was, built, trace, [Passed(ImageBuilt)], [Passed(StartContract)]);
      ghost var both := [Passed(ImageBuilt)] + [Passed(StartContract)];
      assert both == [Passed(ImageBuilt), Passed(StartContract)];
      DidNothing(trace, both);
      if f.debugStub {
        ghost var applied := trace;
        ok := Try(SharedMemory);
        if ok {
          DidBoth(was, applied, trace, both, [Passed(SharedMemory)]);
        }
      }
    }

    // The device is stopped and let go.
    method StopGem() returns (ok: bool)
      requires Valid() && Now().live && !Now().entered
      modifies this
      ensures Valid() && Now() == old(Now()).(live := !ok)
      ensures ok ==> Did(old(trace), trace, StopScript())
      ensures NothingFails(w) ==> ok
    {
      hide Monitor;
      Emit(UseGem);
      ok := Try(GemStopped);
      if ok {
        Emit(ReleaseGem);
      }
    }

    method BootRp1FromTftp() returns (end: Rp1End)
      requires Valid() && Now().live && !Now().entered && !f.skipReload
      modifies this
      ensures Valid() && Now() == old(Now()).(live := Now().live, resets := Now().resets)
      ensures !end.NotLoaded? ==> !Now().live && Now().resets == old(Now()).resets + 1 && Did(old(trace), trace, ReloadScript(f))
      ensures end.Loaded? ==> PolicyIn(w, w.configFound) == Ok(end.policy)
      ensures end.ServesDebugger? ==> DebuggerBuild(f)
      ensures NothingFails(w) ==>
                end == (match PolicyIn(w, w.configFound)
                        case Ok(p) => if DebuggerBuild(f) then ServesDebugger else Loaded(p)
                        case Err(_) => NotLoaded)
    {
      hide Monitor, Did, PolicyIn, Starting, PolicyScript;
      ghost var was := trace;
      var policy := LoadRp1Policy();
      if policy.None? {
        return NotLoaded;
      }
      ghost var known := trace;
      var ok := BuildImage();
      if !ok {
        return NotLoaded;
      }
      DidBoth(was, known, trace, PolicyScript(), ImageScript(f));
      ghost var built := trace;
      ok := StopGem();
      if !ok {
        return NotLoaded;
      }
      DidBoth(was, built, trace, PolicyScript() + ImageScript(f), StopScript());
      StartsAsBuilt(w, f, step);
      ghost var stopped := trace;
      var start := StartRp1Image();
      DidBoth(was, stopped, trace, PolicyScript() + ImageScript(f) + StopScript(), [ResetRp1]);
      match start {
        case Refused => return NotLoaded;
        case Serving => return ServesDebugger;
        case Started => return Loaded(policy.value);
      }
    }

    // The patched tree, or nothing when it cannot be produced.
    method PatchDtb(policy: Rp1DtbPolicy) returns (tree: Option<DtbPatch.Nodes>)
      requires Valid() && !Now().entered
      modifies this
      ensures Valid() && Now() == old(Now())
      ensures tree.Some? ==> DtbPatch.ApplyPolicy(HandoffNodes(w, f), policy.masks, w.bit) == (tree.value, Ok(()))
      ensures tree.Some? ==> Did(old(trace), trace, [Passed(TreePatched)])
      ensures NothingFails(w) ==>
                (tree.Some? <==> DtbPatch.ApplyPolicy(HandoffNodes(w, f), policy.masks, w.bit).1.Ok?)
    {
      hide Monitor, Did, DtbPatch.ApplyPolicy;
      var owned := new DtbPatch.DeviceTree(HandoffNodes(w, f));
      var applied := owned.ApplyRp1Policy(policy, w.bit);
      if applied.Err? {
        return None;
      }
      var ok := Try(TreePatched);
      if !ok {
        return None;
      }
      assert applied.value == ();
      return Some(owned.nodes);
    }

    method HandoffPreloaded(policy: Rp1DtbPolicy) returns (ok: bool)
      requires Valid() && !Now().live && Now().checked && !Now().entered
      modifies this
      ensures Valid() && Now() == old(Now()).(entered := ok)
      ensures ok ==> EnteredWith(trace, HandoffNodes(w, f), w.bit, policy)
      ensures ok ==> Did(old(trace), Entry(trace), [Passed(TreePatched)])
      ensures NothingFails(w) ==> (ok <==> DtbPatch.ApplyPolicy(HandoffNodes(w, f), policy.masks, w.bit).1.Ok?)
    {
      hide Monitor, Did, DtbPatch.ApplyPolicy;
      var tree := PatchDtb(policy);
      if tree.None? {
        return false;
      }
      Emit(EnterLinux(tree.value));
      return true;
    }

    method BootKernelWithLease(loaded: Option<Rp1DtbPolicy>) returns (policy: Option<Rp1DtbPolicy>)
      requires Valid() && Now().live && !Now().entered
      requires loaded.Some? <==> !f.skipReload
      requires loaded.Some? ==> PolicyIn(w, w.configFound) == Ok(loaded.value)
      modifies this
      ensures Valid() && Now().resets == old(Now()).resets
      ensures policy.Some? <==> Now().entered
      ensures policy.Some? ==> EnteredWith(trace, HandoffNodes(w, f), w.bit, policy.value)
      ensures policy.Some? ==>
                Did(old(trace), Entry(trace), KernelScript(f) + (if f.skipReload then PolicyScript() else []) + HandoffScript())
      ensures policy.Some? ==> PolicyIn(w, w.configFound) == Ok(policy.value)
      ensures NothingFails(w) && loaded.Some? ==>
                (policy.Some? <==> DtbPatch.ApplyPolicy(HandoffNodes(w, f), loaded.value.masks, w.bit).1.Ok?)
      ensures NothingFails(w) && loaded.None? ==> (policy.Some? <==> Bootable(w, f))
    {
      hide Monitor, Did, Entry, StopScript, DtbPatch.ApplyPolicy, PolicyIn, HandoffNodes, KernelScript, PolicyScript;
      ghost var was := trace;
      var ok := FetchKernel();
      if !ok {
        return None;
      }
      policy := loaded;
      ghost var fetched := trace;
      DidNothing(trace, KernelScript(f));
      if f.skipReload {
        policy := LoadRp1Policy();
        if policy.None? {
          return;
        }
        DidBoth(was, fetched, trace, KernelScript(f), PolicyScript());
      }
      ghost var known, script := trace, KernelScript(f) + if f.skipReload then PolicyScript() else [];
      var tree := PatchDtb(policy.value);
      if tree.None? {
        return None;
      }
      ghost var patched := trace;
      ok := StopGem();
      if !ok {
        return None;
      }
      DidBoth(known, patched, trace, [Passed(TreePatched)], StopScript());
      DidBoth(was, known, trace, script, HandoffScript());
      Emit(EnterLinux(tree.value));
    }

    // The preloaded variants. The sealed one also fetches its own tree.
    method BootPreloaded() returns (end: BootEnd)
      requires Valid() && trace == [] && Now() == UNBOOTED && Preloaded(f)
      modifies this
      ensures Valid() && end != StaysInDebugger
      ensures end.EntersLinux? <==> Now().entered
      ensures end.EntersLinux? ==> Now().resets == 1 && EnteredWith(trace, HandoffNodes(w, f), w.bit, end.policy)
      ensures end.EntersLinux? ==>
                Did([], Entry(trace), BringUp() + Fetch(Lease) + KernelScript(f) + SealedScript(f) + ReloadScript(f) + [Passed(TreePatched)])
      ensures end.EntersLinux? ==> PolicyIn(w, w.configFound) == Ok(end.policy)
      ensures NothingFails(w) ==> (end.EntersLinux? <==> Bootable(w, f))
    {
      hide Monitor, Did, Entry, DtbPatch.ApplyPolicy, PolicyIn, HandoffNodes;
      hide BringUp, Fetch, KernelScript, SealedScript, ReloadScript;
      var ok := InitTftpGem();
      if !ok {
        return GivesUp;
      }
      ghost var up := trace;
      ok := DhcpAcquire();
      if !ok {
        return GivesUp;
      }
      DidBoth([], up, trace, BringUp(), Fetch(Lease));
      ghost var leased, a := trace, BringUp() + Fetch(Lease);
      ok := FetchKernel();
      if !ok {
        return GivesUp;
      }
      DidBoth([], leased, trace, a, KernelScript(f));
      ghost var fetched, b := trace, a + KernelScript(f);
      ok := FetchSealedTree();
      if !ok {
        return GivesUp;
      }
      DidBoth([], fetched, trace, b, SealedScript(f));
      ghost var sealed, c := trace, b + SealedScript(f);
      var rp1 := BootRp1FromTftp();
      if !rp1.Loaded? {
        return GivesUp;
      }
      DidBoth([], sealed, trace, c, ReloadScript(f));
      ghost var reloaded := trace;
      ok := HandoffPreloaded(rp1.policy);
      if !ok {
        return GivesUp;
      }
      DidBoth([], reloaded, Entry(trace), c + ReloadScript(f), [Passed(TreePatched)]);
      return EntersLinux(rp1.policy);
    }

    // Without preloading: RP1 is reloaded first, if at all, and the network brought up again after that.
    method BootReloaded() returns (end: BootEnd)
      requires Valid() && trace == [] && Now() == UNBOOTED && !Preloaded(f)
      modifies this
      ensures Valid()
      ensures end.EntersLinux? <==> Now().entered
      ensures end.EntersLinux? ==> EnteredWith(trace, HandoffNodes(w, f), w.bit, end.policy)
      ensures end.EntersLinux? ==> Now().resets == if f.skipReload then 0 else 1
      ensures end.EntersLinux? ==>
                Did([], Entry(trace), BringUp() + Fetch(Lease) + (if f.skipReload then [] else ReloadScript(f) + BringUp())
                                        + (KernelScript(f) + (if f.skipReload then PolicyScript() else []) + HandoffScript()))
      ensures end.EntersLinux? ==> PolicyIn(w, w.configFound) == Ok(end.policy)
      ensures end.StaysInDebugger? ==> DebuggerBuild(f) && !Now().live && Now().resets == 1
      ensures NothingFails(w) ==> (end.EntersLinux? <==> Bootable(w, f) && !DebuggerBuild(f))
      ensures NothingFails(w) ==> (end.StaysInDebugger? <==> PolicyIn(w, w.configFound).Ok? && DebuggerBuild(f))
    {
      hide Monitor, Did, Entry, DtbPatch.ApplyPolicy, PolicyIn, HandoffNodes;
      hide BringUp, Fetch, KernelScript, ReloadScript, PolicyScript, HandoffScript;
      var ok := InitTftpGem();
      if !ok {
        return GivesUp;
      }
      ghost var up := trace;
      ok := DhcpAcquire();
      if !ok {
        return GivesUp;
      }
      DidBoth([], up, trace, BringUp(), Fetch(Lease));
      ghost var leased, a := trace, BringUp() + Fetch(Lease);
      DidNothing(trace, a);
      var loaded: Option<Rp1DtbPolicy> := None;
      if !f.skipReload {
        var rp1 := BootRp1FromTftp();
        if rp1.ServesDebugger? {
          return StaysInDebugger;
        }
        if rp1.NotLoaded? {
          return GivesUp;
        }
        loaded := Some(rp1.policy);
        ghost var reloaded := trace;
        ok := InitTftpGem();
        if !ok {
          return GivesUp;
        }
        DidBoth(leased, reloaded, trace, ReloadScript(f), BringUp());
        DidBoth([], leased, trace, a, ReloadScript(f) + BringUp());
      }
      ghost var ready := trace;
      var policy := BootKernelWithLease(loaded);
      if policy.None? {
        return GivesUp;
      }
      DidBoth([], ready, Entry(trace), a + (if f.skipReload then [] else ReloadScript(f) + BringUp()),
              KernelScript(f) + (if f.skipReload then PolicyScript() else []) + HandoffScript());
      return EntersLinux(policy.value);
    }

    // All the ways to boot from the network. However the steps end, the trace
    // stays safe; Linux runs exactly when the boot says so, and then every stage
    // of the script succeeded in its order and Linux got its policy's tree. When nothing outside fails, and whether or not the server has
    // the optional files, that happens exactly when its files amount to a policy
    // that the tree can take, unless the build is a debugger's: that one serves
    // the debugger instead and never enters Linux.
    method BootFromTftp() returns (end: BootEnd)
      requires trace == [] && BootNote.AbiFits(w.abi) && Buildable(f)
      modifies this
      ensures Valid() && Safe(trace)
      ensures end.EntersLinux? <==> EntersBefore(trace, |trace|)
      ensures end.EntersLinux? && f.scmiLinux && !f.skipReload ==> EnteredWith(trace, w.downloadedNodes, w.bit, end.policy)
      ensures end.EntersLinux? && (!f.scmiLinux || f.skipReload) ==> EnteredWith(trace, w.firmwareNodes, w.bit, end.policy)
      ensures end.EntersLinux? ==> Now().resets == if f.skipReload then 0 else 1
      ensures end.EntersLinux? ==> Entry(trace) == Script(f)
      ensures end.EntersLinux? ==> PolicyIn(w, w.configFound) == Ok(end.policy)
      ensures end.StaysInDebugger? ==> DebuggerBuild(f) && !Now().live && Now().resets == 1
      ensures NothingFails(w) ==> (end.EntersLinux? <==> Bootable(w, f) && !DebuggerBuild(f))
      ensures NothingFails(w) ==> (end.StaysInDebugger? <==> PolicyIn(w, w.configFound).Ok? && DebuggerBuild(f))
    {
      hide DtbPatch.ApplyPolicy, PolicyIn, Monitor, Safe, EntersBefore, LiveAt, CheckedBefore, Did, Entry, Script;
      NothingDone();
      if Preloaded(f) {
        end := BootPreloaded();
        if end.EntersLinux? {
          PreloadedScript(f, Entry(trace));
        }
      } else {
        end := BootReloaded();
        if end.EntersLinux? {
          ReloadedScript(f, Entry(trace));
        }
      }
      MonitorIsSafe(trace);
    }
  }

  // Linux was the last thing to start, with this policy's version of a tree.
  ghost predicate EnteredWith(t: Trace, nodes: DtbPatch.Nodes, bit: DeviceNumbers, policy: Rp1DtbPolicy) {
    && t != [] && t[|t| - 1].EnterLinux?
    && DtbPatch.ApplyPolicy(nodes, policy.masks, bit) == (t[|t| - 1].tree, Ok(()))
  }

  ghost predicate Bootable(w: World, f: Features)
    requires BootNote.AbiFits(w.abi)
  {
    PolicyIn(w, w.configFound).Ok? && DtbPatch.ApplyPolicy(HandoffNodes(w, f), PolicyIn(w, w.configFound).value.masks, w.bit).1.Ok?
  }

  // From the files on the server to what Linux sees: every device but the
  // timer has a node, Linux finds exactly its own devices enabled there, and
  // the two PIO blocks are never among them.
  lemma LinuxSeesItsOwnDevices(t: Trace, w: World, nodes: DtbPatch.Nodes, policy: Rp1DtbPolicy, d: Device)
    requires BootNote.AbiFits(w.abi) && Distinct(w.bit) && d != Timer
    requires EnteredWith(t, nodes, w.bit, policy) && PolicyIn(w, w.configFound) == Ok(policy)
    ensures var tree := t[|t| - 1].tree; var at := DtbPatch.NodeOf(nodes, d);
            && at.Some? && at.value in nodes && at.value in tree
            && tree[at.value] == nodes[at.value]["status" :=
                 if OwnerOf(policy.masks, w.bit(d)) == OwnedByLinux then "okay\0" else "disabled\0"]
    ensures d in {Pio0, Pio1} ==> OwnerOf(policy.masks, w.bit(d)) != OwnedByLinux
  {
    hide DtbPatch.ApplyPolicy, DtbPatch.NodeOf, ConfigText.ParseFile, BootNote.PolicyForBoot, DtbPatch.Patched;
    BootNote.BootPolicyIsValid(w.elf, if w.configFound then Some(w.config) else None, w.abi, w.bit);
    DtbPatch.PolicyReachesTheTree(nodes, policy.masks, w.bit);
    assert OwnersIn(policy.masks, w.bit)(d) == OwnerOf(policy.masks, w.bit(d));
  }

  // With a boot note on board it is the note's words that decide, bit by bit, what Linux finds at the first
  // existing place of each device.
  lemma NoteDecidesForLinux(t: Trace, w: World, nodes: DtbPatch.Nodes, policy: Rp1DtbPolicy,
                            info: BootNote.Rp1BootInfo, d: Device, i: nat)
    requires BootNote.AbiFits(w.abi) && Distinct(w.bit) && d != Timer && NotePolicy.Carries(w.elf, w.abi, info)
    requires EnteredWith(t, nodes, w.bit, policy) && PolicyIn(w, w.configFound) == Ok(policy)
    requires i < 3 && DtbPatch.Places(d)[i] in nodes && forall j :: 0 <= j < i ==> DtbPatch.Places(d)[j] !in nodes
    ensures NotePolicy.Partition(info, w.bit)
    ensures var tree, at := t[|t| - 1].tree, DtbPatch.Places(d)[i];
            && at in tree
            && tree[at] == nodes[at]["status" :=
                 if info.ownerLinux / Pow2(w.bit(d)) % 2 == 1 then "okay\0" else "disabled\0"]
  {
    hide DtbPatch.ApplyPolicy, DtbPatch.Places, ConfigText.ParseFile, BootNote.PolicyForBoot, NotePolicy.Carries, NotePolicy.Partition;
    var config := if w.configFound then Some(w.config) else None;
    NotePolicy.NotePolicyIff(w.elf, config, w.abi, w.bit, info);
    NotePolicy.NoteReachesTheTree(w.elf, config, w.abi, w.bit, info, nodes, d, i);
  }

  // With a note on board the configuration file should not matter, but here a
  // malformed one refuses the boot; a well-formed one changes nothing.
  lemma MalformedFileRefusesDespiteNote(w: World)
    requires BootNote.AbiFits(w.abi) && ElfSections.NoteSection(w.elf).Some?
    ensures PolicyIn(w, true).Ok? <==> PolicyIn(w, false).Ok? && ConfigText.ParseFile(Some(w.config), w.bit).Ok?
    ensures PolicyIn(w, true).Ok? ==> PolicyIn(w, true) == PolicyIn(w, false)
  {
    hide BootNote.PolicyForBoot, ElfSections.NoteSection;
    BootNote.FileNeverOverridesANote(w.elf, Some(w.config), None, w.abi, w.bit);
  }
}
