/**
 Kernel selection told from the actions of a run: which implementation is installed, and what
 calls come to that nothing else interferes with.
 */
module KernelHistory {
  import opened Basics
  import opened KernelSelection

  // ----- Which implementation is installed

  /** The state before action `n` of the run. */
  function StateAt(s: State, trace: Trace, n: nat): State
    requires Runs(s, trace) && n <= |trace|
    decreases n
  {
    if n == 0 then s else StateAt(Step(s, trace[0].0, trace[0].1), trace[1..], n - 1)
  }

  lemma {:induction false} StateAdvances(s: State, trace: Trace, n: nat)
    requires Runs(s, trace) && n < |trace|
    ensures Enabled(StateAt(s, trace, n), trace[n].0, trace[n].1)
    ensures StateAt(s, trace, n + 1) == Step(StateAt(s, trace, n), trace[n].0, trace[n].1)
    decreases n
  {
    if n > 0 {
      StateAdvances(Step(s, trace[0].0, trace[0].1), trace[1..], n - 1);
    }
  }

  lemma {:induction false} LastStateIsFinal(s: State, trace: Trace)
    requires Runs(s, trace)
    ensures StateAt(s, trace, |trace|) == Final(s, trace)
    decreases |trace|
  {
    if trace != [] {
      LastStateIsFinal(Step(s, trace[0].0, trace[0].1), trace[1..]);
    }
  }

  /** The name in the last SetKernel call that thread `t` entered among the first `n` actions. */
  function RequestedBy(trace: Trace, n: nat, t: nat): string
    requires n <= |trace|
  {
    if n == 0 then ""
    else if trace[n - 1].0 == t && trace[n - 1].1.EnterSetKernel? then trace[n - 1].1.kernel
    else RequestedBy(trace, n - 1, t)
  }

  /** The last accepted selection among the first `n` actions: the name asked for and the best one detected. */
  function LastAccepted(trace: Trace, n: nat): Option<(string, string)>
    requires n <= |trace|
  {
    if n == 0 then None
    else if trace[n - 1].1.AcceptKernel? then Some((RequestedBy(trace, n - 1, trace[n - 1].0), trace[n - 1].1.best))
    else LastAccepted(trace, n - 1)
  }

  /** The name that a selection of `asked` installs, `best` being the one detected. */
  function Installed(initial: string, accepted: Option<(string, string)>): string {
    match accepted
    case None => initial
    case Some((asked, best)) => if asked == "" then best else asked
  }

  predicate AsksFor(pc: Pc, kernel: string) {
    pc.Waiting? || pc.Selecting? ==> pc.kernel == kernel
  }

  lemma RequestStep(s: State, t: nat, a: Action, u: nat, asked: string)
    requires Enabled(s, t, a) && AsksFor(PcOf(s, u), asked)
    ensures AsksFor(PcOf(Step(s, t, a), u), if u == t && a.EnterSetKernel? then a.kernel else asked)
  {
  }

  lemma {:induction false} RequestIsKept(s: State, trace: Trace, n: nat, t: nat)
    requires Initial(s) && Runs(s, trace) && n <= |trace|
    ensures AsksFor(PcOf(StateAt(s, trace, n), t), RequestedBy(trace, n, t))
    decreases n
  {
    if n > 0 {
      StateAdvances(s, trace, n - 1);
      RequestIsKept(s, trace, n - 1, t);
      RequestStep(StateAt(s, trace, n - 1), trace[n - 1].0, trace[n - 1].1, t, RequestedBy(trace, n - 1, t));
    }
  }

  /** The selection is what `accepted` asked for, or the one the process began with. */
  predicate SelectedBy(s: State, initial: string, accepted: Option<(string, string)>) {
    && s.active == Installed(initial, accepted)
    && (s.explicitSelection <==> accepted.Some? && accepted.value.0 != "")
  }

  lemma SelectionStep(s: State, t: nat, a: Action, initial: string, accepted: Option<(string, string)>, asked: string)
    requires Enabled(s, t, a) && SelectedBy(s, initial, accepted) && AsksFor(PcOf(s, t), asked)
    ensures SelectedBy(Step(s, t, a), initial, if a.AcceptKernel? then Some((asked, a.best)) else accepted)
  {
  }

  lemma {:induction false} SelectionAt(s: State, trace: Trace, n: nat)
    requires Initial(s) && Runs(s, trace) && n <= |trace|
    ensures SelectedBy(StateAt(s, trace, n), s.active, LastAccepted(trace, n))
    decreases n
  {
    if n > 0 {
      var (t, a) := trace[n - 1];
      StateAdvances(s, trace, n - 1);
      SelectionAt(s, trace, n - 1);
      RequestIsKept(s, trace, n - 1, t);
      SelectionStep(StateAt(s, trace, n - 1), t, a, s.active, LastAccepted(trace, n - 1), RequestedBy(trace, n - 1, t));
    }
  }

  /**
   The active implementation of any run is the one that the SetKernel accepted last asked for, or
   the best one detected if it asked for none, or the initial one if none was accepted.  With the
   mutex free and the name read back, it is also the recorded one.
   */
  lemma LastRequestIsInstalled(s: State, trace: Trace)
    requires Initial(s) && Runs(s, trace)
    ensures var f, accepted := Final(s, trace), LastAccepted(trace, |trace|);
            && f.active == Installed(s.active, accepted)
            && (f.explicitSelection <==> accepted.Some? && accepted.value.0 != "")
            && (f.mu == None && f.cached.Some? && !f.unread ==> f.cached == Some(Installed(s.active, accepted)))
  {
    LastStateIsFinal(s, trace);
    SelectionAt(s, trace, |trace|);
    CachedNameIsActive(s, trace);
  }

  lemma GateStep(s: State, t: nat, rc: Status)
    requires PcOf(s, t) == Reserved(Loaded)
    requires !ComesBeforeGate(rc)
    ensures Enabled(s, t, GatePasses(rc)) <==> s.explicitSelection || s.active != "fallback"
    ensures Enabled(s, t, GateRejects(CpuUnsupported)) <==> !s.explicitSelection && s.active == "fallback"
  {
  }

  /** The native gate turns a utility down exactly for the fallback that nobody asked for by name. */
  lemma GateFollowsSelection(s: State, trace: Trace, t: nat, rc: Status)
    requires Initial(s) && Runs(s, trace) && PcOf(Final(s, trace), t) == Reserved(Loaded)
    requires !ComesBeforeGate(rc)
    ensures var accepted := LastAccepted(trace, |trace|);
            var unasked := accepted.None? || accepted.value.0 == "";
            && (Enabled(Final(s, trace), t, GatePasses(rc)) <==>
                !(unasked && Installed(s.active, accepted) == "fallback"))
            && (Enabled(Final(s, trace), t, GateRejects(CpuUnsupported)) <==>
                unasked && Installed(s.active, accepted) == "fallback")
  {
    LastRequestIsInstalled(s, trace);
    GateStep(Final(s, trace), t, rc);
  }

  // ----- One call at a time

  /** Obtaining the library, which a thread of any kind does in the same two steps at most. */
  lemma LoadLibrary(s: State, t: nat, pc: Pc) returns (loaded: State, trace: Trace)
    requires LibOf(pc) == Some(NotLoaded) && PcOf(s, t) == pc
    ensures PcOf(loaded, t) == WithLib(pc, Loaded) && Runs(s, trace) && Final(s, trace) == loaded
    ensures loaded.cached == if s.cached.Some? then s.cached else Some(s.active)
    ensures loaded == s.(pcs := loaded.pcs, cached := loaded.cached, mu := loaded.mu)
    ensures InSection(pc) ==> loaded.mu == Some(t)
    ensures !InSection(pc) ==> loaded.mu == s.mu
  {
    var s1 := Step(s, t, ReadName);
    trace := [];
    if s.cached.Some? {
      loaded := s1;
    } else {
      assert PcOf(s1, t) == WithLib(pc, NameRead(s.active));
      loaded := Step(s1, t, InstallLibrary);
      trace := RunCons(s1, t, InstallLibrary, trace);
    }
    trace := RunCons(s, t, ReadName, trace);
  }

  /** A SetKernel that nothing stands in the way of installs and records what it was asked for. */
  lemma SetKernelAlone(s: State, t: nat, kernel: string, best: string) returns (trace: Trace)
    requires Inv(s) && PcOf(s, t) == Outside && s.mu == None && s.reservations == 0 && !s.locked && !s.nativeLocked
    ensures Runs(s, trace)
    ensures var f := Final(s, trace);
            && f.mu == None && PcOf(f, t) == Outside && !f.locked && !f.nativeLocked
            && f.active == (if kernel == "" then best else kernel) && f.cached == Some(f.active)
            && (f.explicitSelection <==> kernel != "")
  {
    var s1 := Step(s, t, EnterSetKernel(kernel));
    assert PcOf(s1, t) == Selecting(kernel, NotLoaded);
    var s2, load := LoadLibrary(s1, t, PcOf(s1, t));
    var s3 := Step(s2, t, AcceptKernel(best));
    assert PcOf(s3, t) == Selected;
    trace := RunCons(s3, t, ReadBack, []);
    trace := RunCons(s2, t, AcceptKernel(best), trace);
    trace := RunsJoin(s1, load, trace);
    trace := RunCons(s, t, EnterSetKernel(kernel), trace);
  }

  /** A SetKernel that gets as far as the library, and there or at the native side fails: nothing is selected. */
  lemma SetKernelFails(s: State, t: nat, kernel: string, loads: bool) returns (trace: Trace)
    requires Inv(s) && PcOf(s, t) == Outside && s.mu == None && s.reservations == 0 && !s.locked
    requires s.cached == None || loads
    ensures Runs(s, trace)
    ensures var f := Final(s, trace);
            && f.mu == None && PcOf(f, t) == Outside && f.active == s.active && f.locked == s.locked
            && f.explicitSelection == s.explicitSelection && f.nativeLocked == s.nativeLocked
            && f.cached == if s.cached == None && loads then Some(s.active) else s.cached
  {
    var s1 := Step(s, t, EnterSetKernel(kernel));
    assert PcOf(s1, t) == Selecting(kernel, NotLoaded);
    if loads {
      var s2, load := LoadLibrary(s1, t, PcOf(s1, t));
      trace := RunCons(s2, t, RejectKernel, []);
      trace := RunsJoin(s1, load, trace);
    } else {
      trace := RunCons(s1, t, LibraryFails, []);
    }
    trace := RunCons(s, t, EnterSetKernel(kernel), trace);
  }

  /** Were the name not readable after the selection, the implementation changes and the record stays behind. */
  lemma SelectedButUnread(s: State, t: nat) returns (trace: Trace)
    requires PcOf(s, t) == Selected && s.mu == Some(t)
    ensures Runs(s, trace)
    ensures var f := Final(s, trace);
            f.active == s.active && f.cached == s.cached && f.unread && f.mu == None && PcOf(f, t) == Outside
  {
    trace := RunCons(s, t, ReadBackFails, []);
  }

  /** A utility that is given up before its native call leaves the selection as it found it, but wakes SetKernel. */
  lemma UtilityGivenUp(s: State, t: nat) returns (trace: Trace)
    requires Inv(s) && PcOf(s, t) == Outside && s.mu == None
    ensures Runs(s, trace)
    ensures var f := Final(s, trace);
            && GuardedOf(f) == GuardedOf(s) && f.active == s.active && f.nativeLocked == s.nativeLocked
            && f.mu == None && PcOf(f, t) == Outside && f.broadcasts == s.broadcasts + 1
  {
    var s1 := Step(s, t, BeginUtility);
    assert PcOf(s1, t) == Reserved(NotLoaded);
    trace := RunCons(s1, t, CancelUtility, []);
    trace := RunCons(s, t, BeginUtility, trace);
  }

  lemma {:induction false} RunsJoin(s: State, first: Trace, rest: Trace) returns (trace: Trace)
    requires Runs(s, first) && Runs(Final(s, first), rest)
    ensures Runs(s, trace) && Final(s, trace) == Final(Final(s, first), rest)
    decreases |first|
  {
    if first == [] {
      trace := rest;
    } else {
      var (t, a) := first[0];
      trace := RunsJoin(Step(s, t, a), first[1..], rest);
      trace := RunCons(s, t, a, trace);
    }
  }

  /** What entering, or waking up in, SetKernel comes to: refused, waiting, or going on, with the same name. */
  lemma SetKernelEntry(s: State, t: nat, a: Action)
    requires Enabled(s, t, a) && (a.EnterSetKernel? || a.WakeSetKernel?)
    ensures var kernel := if a.EnterSetKernel? then a.kernel else PcOf(s, t).kernel;
            var pc := PcOf(Step(s, t, a), t);
            if s.locked && (a.EnterSetKernel? || s.reservations == 0) then pc == Outside
            else if s.reservations > 0 then pc == Waiting(kernel, s.broadcasts)
            else pc == Selecting(kernel, NotLoaded) && Step(s, t, a).mu == Some(t)
  {
  }

  /** What native code returns when it turns a utility down before, or at, its gate. */
  predicate ComesBeforeGate(rc: Status) {
    rc == CpuUnsupported || rc == BufferTooSmall || rc == InvalidArgument
  }

  /** From the reservation on: the gate, which may lock the native side, and the report, which may lock Go's. */
  lemma GateAndReport(s: State, t: nat, rc: Status) returns (trace: Trace)
    requires PcOf(s, t) == Reserved(Loaded) && s.mu == None && s.reservations > 0
    requires CpuRejected(s) ==> ComesBeforeGate(rc)
    requires rc == CpuUnsupported ==> CpuRejected(s)
    ensures Runs(s, trace)
    ensures var f := Final(s, trace);
            var gated := !ComesBeforeGate(rc);
            && (f.locked <==> s.locked || gated) && (f.nativeLocked <==> s.nativeLocked || gated)
            && f.reservations == s.reservations - 1 && f.mu == None && PcOf(f, t) == Outside
  {
    var gate := if LocksSelection(rc) then GatePasses(rc) else GateRejects(rc);
    assert PcOf(Step(s, t, gate), t) == Returned(rc);
    trace := RunCons(Step(s, t, gate), t, FinishUtility, []);
    trace := RunCons(s, t, gate, trace);
  }

  /** A whole utility: both sides end up locked exactly for the statuses that come after the native gate. */
  lemma UtilityAlone(s: State, t: nat, rc: Status) returns (trace: Trace)
    requires Inv(s) && PcOf(s, t) == Outside && s.mu == None
    requires CpuRejected(s) ==> ComesBeforeGate(rc)
    requires rc == CpuUnsupported ==> CpuRejected(s)
    ensures Runs(s, trace)
    ensures var f := Final(s, trace);
            var gated := !ComesBeforeGate(rc);
            && (f.locked <==> s.locked || gated) && (f.nativeLocked <==> s.nativeLocked || gated)
            && f.reservations == s.reservations && f.mu == None && PcOf(f, t) == Outside
  {
    var s1 := Step(s, t, BeginUtility);
    assert PcOf(s1, t) == Reserved(NotLoaded);
    var s2, load := LoadLibrary(s1, t, PcOf(s1, t));
    assert s2.reservations == s1.reservations && s2.mu == None;
    trace := GateAndReport(s2, t, rc);
    trace := RunsJoin(s1, load, trace);
    trace := RunCons(s, t, BeginUtility, trace);
  }

  /** The native half of a construction, which locks the native side whatever comes of it. */
  lemma ConstructAlone(s: State, t: nat, rc: Status) returns (trace: Trace)
    requires PcOf(s, t) == Constructing(Loaded) && s.mu == Some(t) && (rc == CpuUnsupported <==> CpuRejected(s))
    ensures Runs(s, trace)
    ensures var f := Final(s, trace);
            && f.nativeLocked && (f.locked <==> s.locked || rc == StatusOk)
            && f.mu == None && PcOf(f, t) == Outside && f.cached == s.cached
  {
    trace := RunCons(s, t, ConstructParser(rc), []);
  }

  /** A whole construction: a success locks both sides. */
  lemma ConstructorAlone(s: State, t: nat, rc: Status) returns (trace: Trace)
    requires Inv(s) && PcOf(s, t) == Outside && s.mu == None && (rc == CpuUnsupported <==> CpuRejected(s))
    ensures Runs(s, trace)
    ensures var f := Final(s, trace);
            && f.nativeLocked && (f.locked <==> s.locked || rc == StatusOk)
            && f.mu == None && PcOf(f, t) == Outside && f.cached.Some?
  {
    var s1 := Step(s, t, EnterConstructor);
    assert PcOf(s1, t) == Constructing(NotLoaded) && s1.locked == s.locked;
    assert CpuRejected(s1) == CpuRejected(s);
    var s2, load := LoadLibrary(s1, t, PcOf(s1, t));
    assert s2.locked == s1.locked && CpuRejected(s2) == CpuRejected(s1);
    trace := ConstructAlone(s2, t, rc);
    trace := RunsJoin(s1, load, trace);
    trace := RunCons(s, t, EnterConstructor, trace);
  }
}
