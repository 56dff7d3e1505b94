/**
 Process-wide choice of the native implementation, over all interleavings of SetKernel,
 the standalone utilities, parser construction and pool creation.

 Every step below is one atomic action of one thread: a critical section of `kernelMu`, a
 native call (atomic under the native selection mutex), or a part of loading the library.
 SetKernel and parser construction keep `kernelMu` across several steps.
 */
module KernelSelection {
  import opened Basics

  const FALLBACK: string := "fallback"

  // ----- State

  /** How far a thread is in obtaining the shared library. */
  datatype Lib = NotLoaded | NameRead(name: string) | Loaded

  datatype Pc =
    | Outside
    | Waiting(kernel: string, since: nat)
    | Selecting(kernel: string, lib: Lib)
    | Selected
    | Constructing(lib: Lib)
    | Reserved(lib: Lib)
    | Returned(rc: Status)

  /**
   `cached` is the library's recorded implementation name once a library is loaded, and
   `broadcasts` counts the wake-ups of the condition variable.  `unread` records that the last
   accepted selection could not be read back.
   */
  datatype State = State(
    mu: Option<nat>,
    pcs: map<nat, Pc>,
    locked: bool,
    reservations: nat,
    broadcasts: nat,
    cached: Option<string>,
    active: string,
    explicitSelection: bool,
    nativeLocked: bool,
    unread: bool)

  function PcOf(s: State, t: nat): Pc {
    if t in s.pcs then s.pcs[t] else Outside
  }

  /** The thread is inside SetKernel's or the constructor's critical section. */
  predicate InSection(pc: Pc) {
    pc.Selecting? || pc.Selected? || pc.Constructing?
  }

  predicate HoldsReservation(pc: Pc) {
    pc.Reserved? || pc.Returned?
  }

  function Reserving(s: State): set<nat> {
    set t | t in s.pcs && HoldsReservation(s.pcs[t])
  }

  function LibOf(pc: Pc): Option<Lib> {
    match pc
    case Selecting(_, lib) => Some(lib)
    case Constructing(lib) => Some(lib)
    case Reserved(lib) => Some(lib)
    case _ => None
  }

  function WithLib(pc: Pc, lib: Lib): Pc
    requires LibOf(pc).Some?
  {
    match pc
    case Selecting(kernel, _) => Selecting(kernel, lib)
    case Constructing(_) => Constructing(lib)
    case Reserved(_) => Reserved(lib)
  }

  /** A returned native status shows that the native gate was passed, and so locks selection. */
  predicate LocksSelection(rc: Status) {
    rc != CpuUnsupported && rc != BufferTooSmall && rc != InvalidArgument
  }

  /** The native gate turns the automatically chosen fallback implementation down. */
  predicate CpuRejected(s: State) {
    !s.explicitSelection && s.active == FALLBACK
  }

  // ----- The part of the state that is changed in one critical section of `kernelMu`

  datatype Guarded = Guarded(locked: bool, reservations: nat)

  function GuardedOf(s: State): Guarded {
    Guarded(s.locked, s.reservations)
  }

  /** Gives one reservation back; at zero the source panics instead. */
  function Released(reservations: nat): nat {
    if reservations == 0 then 0 else reservations - 1
  }

  function AfterBegin(g: Guarded): Guarded {
    g.(reservations := g.reservations + 1)
  }

  function AfterCancel(g: Guarded): Guarded {
    g.(reservations := Released(g.reservations))
  }

  function AfterFinish(g: Guarded, rc: Status): Guarded {
    Guarded(g.locked || LocksSelection(rc), Released(g.reservations))
  }

  function AfterLock(g: Guarded): Guarded {
    g.(locked := true)
  }

  function WithGuarded(s: State, g: Guarded): State {
    s.(locked := g.locked, reservations := g.reservations)
  }

  // ----- Steps

  datatype Action =
    | EnterSetKernel(kernel: string)
    | WakeSetKernel
    | ReadName
    | InstallLibrary
    | LibraryFails
    | AcceptKernel(best: string)
    | RejectKernel
    | ReadBack
    | ReadBackFails
    | BeginUtility
    | GateRejects(rc: Status)
    | GatePasses(rc: Status)
    | FinishUtility
    | CancelUtility
    | EnterConstructor
    | ConstructParser(rc: Status)
    | LockForPool

  predicate Enabled(s: State, t: nat, a: Action) {
    var pc := PcOf(s, t);
    match a
    case EnterSetKernel(_) => pc.Outside? && s.mu.None?
    case WakeSetKernel => pc.Waiting? && pc.since < s.broadcasts && s.mu.None?
    case ReadName => LibOf(pc) == Some(NotLoaded)
    case InstallLibrary => LibOf(pc).Some? && LibOf(pc).value.NameRead?
    case LibraryFails => LibOf(pc).Some? && !LibOf(pc).value.Loaded? && !pc.Reserved?
    case AcceptKernel(_) => pc.Selecting? && pc.lib.Loaded? && !s.nativeLocked
    case RejectKernel => pc.Selecting? && pc.lib.Loaded?
    case ReadBack => pc.Selected?
    case ReadBackFails => pc.Selected?
    case BeginUtility => pc.Outside? && s.mu.None?
    case GateRejects(rc) =>
      pc.Reserved? && pc.lib.Loaded? && !LocksSelection(rc) && (rc == CpuUnsupported ==> CpuRejected(s))
    case GatePasses(rc) => pc.Reserved? && pc.lib.Loaded? && LocksSelection(rc) && !CpuRejected(s)
    case FinishUtility => pc.Returned? && s.mu.None?
    case CancelUtility => pc.Reserved? && s.mu.None?
    case EnterConstructor => pc.Outside? && s.mu.None?
    case ConstructParser(rc) => pc.Constructing? && pc.lib.Loaded? && (CpuRejected(s) <==> rc == CpuUnsupported)
    case LockForPool => pc.Outside? && s.mu.None?
  }

  /** SetKernel with `kernelMu` in hand: wait for the reservations, give up, or go on. */
  function TrySelect(s: State, kernel: string): Pc {
    if s.reservations != 0 then Waiting(kernel, s.broadcasts)
    else if s.locked then Outside else Selecting(kernel, NotLoaded)
  }

  function NextPc(s: State, t: nat, a: Action): Pc
    requires Enabled(s, t, a)
  {
    var pc := PcOf(s, t);
    match a
    case EnterSetKernel(kernel) => if s.locked then Outside else TrySelect(s, kernel)
    case WakeSetKernel => TrySelect(s, pc.kernel)
    case ReadName => WithLib(pc, if s.cached.Some? then Loaded else NameRead(s.active))
    case InstallLibrary => WithLib(pc, Loaded)
    case LibraryFails => Outside
    case AcceptKernel(_) => Selected
    case RejectKernel => Outside
    case ReadBack => Outside
    case ReadBackFails => Outside
    case BeginUtility => Reserved(NotLoaded)
    case GateRejects(rc) => Returned(rc)
    case GatePasses(rc) => Returned(rc)
    case FinishUtility => Outside
    case CancelUtility => Outside
    case EnterConstructor => Constructing(NotLoaded)
    case ConstructParser(_) => Outside
    case LockForPool => Outside
  }

  /** What an action does to the shared variables. */
  function Effect(s: State, pc: Pc, a: Action): State
    requires a.AcceptKernel? ==> pc.Selecting?
    requires a.InstallLibrary? ==> LibOf(pc).Some? && LibOf(pc).value.NameRead?
    requires a.FinishUtility? ==> pc.Returned?
  {
    match a
    case InstallLibrary => s.(cached := if s.cached.Some? then s.cached else Some(LibOf(pc).value.name))
    case AcceptKernel(best) =>
      s.(active := if pc.kernel == "" then best else pc.kernel, explicitSelection := pc.kernel != "")
    case ReadBack => s.(cached := Some(s.active), unread := false)
    case ReadBackFails => s.(unread := true)
    case BeginUtility => WithGuarded(s, AfterBegin(GuardedOf(s)))
    case GatePasses(_) => s.(nativeLocked := true)
    case FinishUtility => WithGuarded(s, AfterFinish(GuardedOf(s), pc.rc)).(broadcasts := s.broadcasts + 1)
    case CancelUtility => WithGuarded(s, AfterCancel(GuardedOf(s))).(broadcasts := s.broadcasts + 1)
    case ConstructParser(rc) =>
      if rc == StatusOk then WithGuarded(s, AfterLock(GuardedOf(s))).(nativeLocked := true)
      else s.(nativeLocked := true)
    case LockForPool => WithGuarded(s, AfterLock(GuardedOf(s)))
    case _ => s
  }

  /** `kernelMu` is taken and kept exactly across a section, and otherwise left as found. */
  function NextMu(s: State, t: nat, pc': Pc): Option<nat> {
    if InSection(pc') then Some(t) else if InSection(PcOf(s, t)) then None else s.mu
  }

  function Step(s: State, t: nat, a: Action): State
    requires Enabled(s, t, a)
  {
    var pc' := NextPc(s, t, a);
    Effect(s, PcOf(s, t), a).(pcs := s.pcs[t := pc'], mu := NextMu(s, t, pc'))
  }

  // ----- The invariant

  predicate ThreadOk(s: State, t: nat) {
    var pc := PcOf(s, t);
    && (InSection(pc) <==> s.mu == Some(t))
    && (pc.Selecting? || pc.Selected? ==> s.reservations == 0 && !s.locked)
    && (LibOf(pc).Some? && LibOf(pc).value.NameRead? ==> LibOf(pc).value.name == s.active)
    && (pc.Waiting? ==> pc.since <= s.broadcasts && (pc.since == s.broadcasts ==> s.reservations > 0))
    && (LibOf(pc) == Some(Loaded) || pc.Selected? || pc.Returned? ==> s.cached.Some?)
  }

  ghost predicate ThreadsOk(s: State) {
    forall t: nat :: ThreadOk(s, t)
  }

  /** Some thread is between the native selection and reading the name back. */
  predicate Switching(s: State) {
    s.mu.Some? && PcOf(s, s.mu.value).Selected?
  }

  predicate NameOk(s: State) {
    s.cached.Some? && !s.unread && !Switching(s) ==> s.cached.value == s.active
  }

  ghost predicate Inv(s: State) {
    ThreadsOk(s) && s.reservations == |Reserving(s)| && NameOk(s)
  }

  predicate Initial(s: State) {
    && s.mu == None && s.pcs == map[] && !s.locked && s.reservations == 0 && s.cached == None
    && !s.explicitSelection && !s.nativeLocked && !s.unread
  }

  lemma InitialInv(s: State)
    requires Initial(s)
    ensures Inv(s)
  {
    assert Reserving(s) == {};
  }

  // ----- One step keeps it

  function At(s: State, t: nat, pc: Pc): State {
    s.(pcs := s.pcs[t := pc])
  }

  lemma ReservingAt(s: State, t: nat, pc: Pc)
    ensures Reserving(At(s, t, pc)) == if HoldsReservation(pc) then Reserving(s) + {t} else Reserving(s) - {t}
  {
  }

  lemma ReservationIsCounted(s: State, t: nat)
    requires s.reservations == |Reserving(s)| && HoldsReservation(PcOf(s, t))
    ensures t in Reserving(s) && s.reservations > 0
  {
    assert t in Reserving(s);
  }

  function Weight(pc: Pc): nat {
    if HoldsReservation(pc) then 1 else 0
  }

  lemma MovedCount(s: State, t: nat, pc: Pc)
    ensures |Reserving(At(s, t, pc))| + Weight(PcOf(s, t)) == |Reserving(s)| + Weight(pc)
  {
    ReservingAt(s, t, pc);
    var all := Reserving(s);
    assert t in all <==> HoldsReservation(PcOf(s, t));
    if t in all {
      assert all + {t} == all && |all - {t}| == |all| - 1;
    } else {
      assert all - {t} == all && |all + {t}| == |all| + 1;
    }
  }

  lemma EffectCounts(s: State, t: nat, a: Action)
    requires Enabled(s, t, a) && (HoldsReservation(PcOf(s, t)) ==> s.reservations > 0)
    ensures Effect(s, PcOf(s, t), a).reservations + Weight(PcOf(s, t)) == s.reservations + Weight(NextPc(s, t, a))
  {
    assert HoldsReservation(NextPc(s, t, a)) <==>
           a.BeginUtility? || (HoldsReservation(PcOf(s, t)) && !a.FinishUtility? && !a.CancelUtility?);
  }

  lemma StepCounts(s: State, t: nat, a: Action)
    requires Inv(s) && Enabled(s, t, a)
    ensures Step(s, t, a).reservations == |Reserving(Step(s, t, a))|
  {
    if HoldsReservation(PcOf(s, t)) {
      ReservationIsCounted(s, t);
    }
    EffectCounts(s, t, a);
    MovedCount(s, t, NextPc(s, t, a));
    assert Reserving(Step(s, t, a)) == Reserving(At(s, t, NextPc(s, t, a)));
  }

  /** While SetKernel is past its checks, no other thread holds a reservation or loads the library. */
  lemma SelectorIsAlone(s: State, t: nat, u: nat)
    requires Inv(s) && (PcOf(s, t).Selecting? || PcOf(s, t).Selected?) && u != t
    ensures !InSection(PcOf(s, u)) && !HoldsReservation(PcOf(s, u)) && LibOf(PcOf(s, u)).None?
  {
    assert ThreadOk(s, t) && ThreadOk(s, u);
    if HoldsReservation(PcOf(s, u)) {
      ReservationIsCounted(s, u);
    }
  }

  lemma StepOwnThread(s: State, t: nat, a: Action)
    requires Inv(s) && Enabled(s, t, a)
    ensures ThreadOk(Step(s, t, a), t)
  {
    assert ThreadOk(s, t);
  }

  /** While one thread is past SetKernel's checks, no other thread can take a step. */
  lemma SelectorBlocksOthers(s: State, u: nat, t: nat, a: Action)
    requires Inv(s) && u != t && (PcOf(s, u).Selecting? || PcOf(s, u).Selected?)
    ensures !Enabled(s, t, a)
  {
    assert ThreadOk(s, t) && ThreadOk(s, u);
    SelectorIsAlone(s, u, t);
  }

  /** What thread `u`, outside SetKernel's section, needs of a step that another thread takes. */
  predicate Harmless(s: State, s': State, u: nat) {
    && PcOf(s', u) == PcOf(s, u) && (s'.mu == Some(u) <==> s.mu == Some(u))
    && (s'.active == s.active || LibOf(PcOf(s, u)).None?)
    && (s.cached.Some? ==> s'.cached.Some?)
    && s.broadcasts <= s'.broadcasts && (s.broadcasts == s'.broadcasts ==> s.reservations <= s'.reservations)
  }

  lemma StepIsHarmless(s: State, t: nat, a: Action, u: nat)
    requires Inv(s) && Enabled(s, t, a) && u != t
    ensures Harmless(s, Step(s, t, a), u)
  {
    assert ThreadOk(s, t);
    if a.AcceptKernel? {
      SelectorIsAlone(s, t, u);
    }
  }

  lemma BystanderKept(s: State, s': State, u: nat)
    requires ThreadOk(s, u) && Harmless(s, s', u) && !PcOf(s, u).Selecting? && !PcOf(s, u).Selected?
    ensures ThreadOk(s', u)
  {
  }

  lemma StepThreads(s: State, t: nat, a: Action)
    requires Inv(s) && Enabled(s, t, a)
    ensures ThreadsOk(Step(s, t, a))
  {
    StepOwnThread(s, t, a);
    forall u: nat | u != t
      ensures ThreadOk(Step(s, t, a), u)
    {
      if PcOf(s, u).Selecting? || PcOf(s, u).Selected? {
        SelectorBlocksOthers(s, u, t, a);
        assert false;
      }
      StepIsHarmless(s, t, a, u);
      BystanderKept(s, Step(s, t, a), u);
    }
  }

  lemma StepName(s: State, t: nat, a: Action)
    requires Inv(s) && Enabled(s, t, a)
    ensures NameOk(Step(s, t, a))
  {
    assert ThreadOk(s, t);
    if s.mu.Some? {
      assert ThreadOk(s, s.mu.value);
    }
  }

  lemma StepKeepsInv(s: State, t: nat, a: Action)
    requires Inv(s) && Enabled(s, t, a)
    ensures Inv(Step(s, t, a))
  {
    StepCounts(s, t, a);
    StepThreads(s, t, a);
    StepName(s, t, a);
  }

  // ----- Runs

  type Trace = seq<(nat, Action)>

  predicate Runs(s: State, trace: Trace)
    decreases |trace|
  {
    trace == [] || (Enabled(s, trace[0].0, trace[0].1) && Runs(Step(s, trace[0].0, trace[0].1), trace[1..]))
  }

  function Final(s: State, trace: Trace): State
    requires Runs(s, trace)
    decreases |trace|
  {
    if trace == [] then s else Final(Step(s, trace[0].0, trace[0].1), trace[1..])
  }

  lemma {:induction false} RunKeepsInv(s: State, trace: Trace)
    requires Inv(s) && Runs(s, trace)
    ensures Inv(Final(s, trace))
    decreases |trace|
  {
    if trace != [] {
      StepKeepsInv(s, trace[0].0, trace[0].1);
      RunKeepsInv(Step(s, trace[0].0, trace[0].1), trace[1..]);
    }
  }

  // ----- What every reachable state promises

  /** Native SetImplementation, whether it accepts or refuses, runs only while no reservation is held. */
  lemma SelectionNeedsNoReservation(s: State, trace: Trace, t: nat, a: Action)
    requires Initial(s) && Runs(s, trace) && Enabled(Final(s, trace), t, a) && (a.AcceptKernel? || a.RejectKernel?)
    ensures var f := Final(s, trace);
            && f.reservations == 0 && f.mu == Some(t) && !f.locked && (a.AcceptKernel? ==> !f.nativeLocked)
            && forall u :: !HoldsReservation(PcOf(f, u))
  {
    InitialInv(s);
    RunKeepsInv(s, trace);
    var f := Final(s, trace);
    assert ThreadOk(f, t);
    forall u: nat
      ensures !HoldsReservation(PcOf(f, u))
    {
      if HoldsReservation(PcOf(f, u)) {
        ReservationIsCounted(f, u);
      }
    }
  }

  /** The counter counts the unreleased reservations, so the underflow panics are out of reach. */
  lemma ReservationsNeverUnderflow(s: State, trace: Trace, t: nat, a: Action)
    requires Initial(s) && Runs(s, trace) && Enabled(Final(s, trace), t, a)
    ensures Final(s, trace).reservations == |Reserving(Final(s, trace))|
    ensures a.FinishUtility? || a.CancelUtility? ==> Final(s, trace).reservations > 0
  {
    InitialInv(s);
    RunKeepsInv(s, trace);
    if a.FinishUtility? || a.CancelUtility? {
      ReservationIsCounted(Final(s, trace), t);
    }
  }

  /** No wake-up is lost: once no reservation is held, a waiting SetKernel can go on as soon as the mutex is free. */
  lemma WaiterIsWoken(s: State, trace: Trace, t: nat)
    requires Initial(s) && Runs(s, trace)
    ensures var f := Final(s, trace);
            PcOf(f, t).Waiting? && f.reservations == 0 && f.mu == None ==> Enabled(f, t, WakeSetKernel)
  {
    InitialInv(s);
    RunKeepsInv(s, trace);
    assert ThreadOk(Final(s, trace), t);
  }

  /** With `kernelMu` free, the recorded name is the native one. */
  lemma CachedNameIsActive(s: State, trace: Trace)
    requires Initial(s) && Runs(s, trace)
    ensures var f := Final(s, trace); f.mu == None && f.cached.Some? && !f.unread ==> f.cached.value == f.active
  {
    InitialInv(s);
    RunKeepsInv(s, trace);
  }

  /** `f` keeps the native selection of `s`, and every lock of `s`. */
  predicate SameSelection(s: State, f: State) {
    && f.active == s.active && f.explicitSelection == s.explicitSelection
    && (s.locked ==> f.locked) && (s.nativeLocked ==> f.nativeLocked)
  }

  lemma LockedStep(s: State, t: nat, a: Action)
    requires Inv(s) && Enabled(s, t, a) && (s.locked || s.nativeLocked)
    ensures SameSelection(s, Step(s, t, a))
  {
    assert ThreadOk(s, t);
  }

  /** Once either side is locked, the native selection never changes again. */
  lemma {:induction false} LockIsForever(s: State, trace: Trace)
    requires Inv(s) && Runs(s, trace) && (s.locked || s.nativeLocked)
    ensures SameSelection(s, Final(s, trace))
    decreases |trace|
  {
    if trace != [] {
      var s' := Step(s, trace[0].0, trace[0].1);
      StepKeepsInv(s, trace[0].0, trace[0].1);
      LockedStep(s, trace[0].0, trace[0].1);
      LockIsForever(s', trace[1..]);
    }
  }

  // ----- When the two lock flags differ

  /** What can lock: a pool and a finished utility lock Go, a gate and a constructor native code. */
  datatype Event = PoolCreated | GatePassed | ConstructorSucceeded | ConstructorFailed

  predicate Is(a: Action, e: Event) {
    match e
    case PoolCreated => a.LockForPool?
    case GatePassed => a.GatePasses?
    case ConstructorSucceeded => a.ConstructParser? && a.rc == StatusOk
    case ConstructorFailed => a.ConstructParser? && a.rc != StatusOk
  }

  predicate Happened(trace: Trace, e: Event) {
    trace != [] && (Is(trace[0].1, e) || Happened(trace[1..], e))
  }

  /** Some utility has passed the native gate and has yet to report it to Go. */
  ghost predicate Reporting(s: State) {
    exists t: nat :: PcOf(s, t).Returned? && LocksSelection(PcOf(s, t).rc)
  }

  lemma {:induction false} NativeLockHistory(s: State, trace: Trace)
    requires Runs(s, trace)
    ensures Final(s, trace).nativeLocked <==>
            s.nativeLocked || Happened(trace, GatePassed) || Happened(trace, ConstructorSucceeded)
            || Happened(trace, ConstructorFailed)
    decreases |trace|
  {
    if trace != [] {
      NativeLockHistory(Step(s, trace[0].0, trace[0].1), trace[1..]);
    }
  }

  lemma GoLockStep(s: State, t: nat, a: Action)
    requires Enabled(s, t, a)
    ensures var s' := Step(s, t, a);
            s'.locked || Reporting(s') <==>
            s.locked || Reporting(s) || Is(a, PoolCreated) || Is(a, GatePassed) || Is(a, ConstructorSucceeded)
  {
    var s' := Step(s, t, a);
    if a.GatePasses? {
      assert PcOf(s', t) == Returned(a.rc);
    } else if Reporting(s) {
      var u: nat :| PcOf(s, u).Returned? && LocksSelection(PcOf(s, u).rc);
      assert u == t || PcOf(s', u) == PcOf(s, u);
    }
    if Reporting(s') && !a.GatePasses? {
      var u: nat :| PcOf(s', u).Returned? && LocksSelection(PcOf(s', u).rc);
      assert PcOf(s, u) == PcOf(s', u);
    }
  }

  lemma {:induction false} GoLockHistory(s: State, trace: Trace)
    requires Runs(s, trace)
    ensures var f := Final(s, trace);
            f.locked || Reporting(f) <==>
            s.locked || Reporting(s) || Happened(trace, PoolCreated) || Happened(trace, GatePassed)
            || Happened(trace, ConstructorSucceeded)
    decreases |trace|
  {
    if trace != [] {
      GoLockStep(s, trace[0].0, trace[0].1);
      GoLockHistory(Step(s, trace[0].0, trace[0].1), trace[1..]);
    }
  }

  lemma NobodyReports(s: State)
    requires Inv(s) && s.reservations == 0
    ensures !Reporting(s)
  {
    if Reporting(s) {
      var t: nat :| PcOf(s, t).Returned? && LocksSelection(PcOf(s, t).rc);
      ReservationIsCounted(s, t);
    }
  }

  /**
   When no utility is under way, the Go and native flags are equal if and only if a utility has
   passed the gate, a constructor has succeeded, or pools were created and constructors failed
   both or neither.  Only a failed constructor locks native code alone, only a pool Go alone.
   */
  lemma QuietLocksAgree(s: State, trace: Trace)
    requires Initial(s) && Runs(s, trace) && Final(s, trace).reservations == 0
    ensures var f := Final(s, trace);
            var settled := Happened(trace, GatePassed) || Happened(trace, ConstructorSucceeded);
            && (f.locked == f.nativeLocked <==>
                settled || (Happened(trace, PoolCreated) <==> Happened(trace, ConstructorFailed)))
            && (f.nativeLocked && !f.locked <==>
                !settled && Happened(trace, ConstructorFailed) && !Happened(trace, PoolCreated))
            && (f.locked && !f.nativeLocked <==>
                !settled && Happened(trace, PoolCreated) && !Happened(trace, ConstructorFailed))
  {
    InitialInv(s);
    RunKeepsInv(s, trace);
    NobodyReports(s);
    NobodyReports(Final(s, trace));
    NativeLockHistory(s, trace);
    GoLockHistory(s, trace);
  }

  /** Utilities under way or not, Go alone is locked exactly when a pool was created and native code never reached. */
  lemma GoAloneIsLocked(s: State, trace: Trace)
    requires Initial(s) && Runs(s, trace)
    ensures var f := Final(s, trace);
            f.locked && !f.nativeLocked <==>
            Happened(trace, PoolCreated) && !Happened(trace, GatePassed)
            && !Happened(trace, ConstructorSucceeded) && !Happened(trace, ConstructorFailed)
  {
    NobodyReports(s) by { InitialInv(s); }
    NativeLockHistory(s, trace);
    GoLockHistory(s, trace);
    ReportersLockedNative(s, trace);
  }

  /** Whoever reports a passed gate has locked native code. */
  lemma {:induction false} ReportersLockedNative(s: State, trace: Trace)
    requires Runs(s, trace) && (Reporting(s) ==> s.nativeLocked)
    ensures Reporting(Final(s, trace)) ==> Final(s, trace).nativeLocked
    decreases |trace|
  {
    if trace != [] {
      var s' := Step(s, trace[0].0, trace[0].1);
      if Reporting(s') && !trace[0].1.GatePasses? {
        var u: nat :| PcOf(s', u).Returned? && LocksSelection(PcOf(s', u).rc);
        assert PcOf(s, u) == PcOf(s', u);
      }
      ReportersLockedNative(s', trace[1..]);
    }
  }

  /** Creating a pool first of all locks the Go side only. */
  lemma PoolLocksGoOnly(s: State) returns (trace: Trace)
    requires Initial(s)
    ensures Runs(s, trace) && Final(s, trace).locked && !Final(s, trace).nativeLocked
  {
    trace := RunCons(s, 0, LockForPool, []);
  }

  /** From a constructor about to be turned down by the CPU check, the run to a native-only lock. */
  lemma ConstructorTurnedDown(s: State, t: nat) returns (trace: Trace)
    requires PcOf(s, t) == Constructing(Loaded) && CpuRejected(s) && !s.locked
    ensures Runs(s, trace) && Final(s, trace).nativeLocked && !Final(s, trace).locked
  {
    trace := RunCons(s, t, ConstructParser(CpuUnsupported), []);
  }

  lemma ConstructorLoads(s: State, t: nat) returns (trace: Trace)
    requires PcOf(s, t) == Constructing(NotLoaded) && s.cached == None && CpuRejected(s) && !s.locked
    ensures Runs(s, trace) && Final(s, trace).nativeLocked && !Final(s, trace).locked
  {
    var s1 := Step(s, t, ReadName);
    assert PcOf(s1, t) == Constructing(NameRead(s.active)) && CpuRejected(s1) && !s1.locked;
    var s2 := Step(s1, t, InstallLibrary);
    trace := ConstructorTurnedDown(s2, t);
    trace := RunCons(s1, t, InstallLibrary, trace);
    trace := RunCons(s, t, ReadName, trace);
  }

  /** A constructor that the CPU check turns down locks the native side only. */
  lemma FailedConstructorLocksNativeOnly(s: State) returns (trace: Trace)
    requires Initial(s) && s.active == FALLBACK
    ensures Runs(s, trace) && Final(s, trace).nativeLocked && !Final(s, trace).locked
  {
    trace := ConstructorLoads(Step(s, 0, EnterConstructor), 0);
    trace := RunCons(s, 0, EnterConstructor, trace);
  }

  lemma RunCons(s: State, t: nat, a: Action, rest: Trace) returns (trace: Trace)
    requires Enabled(s, t, a) && Runs(Step(s, t, a), rest)
    ensures Runs(s, trace) && Final(s, trace) == Final(Step(s, t, a), rest)
  {
    trace := [(t, a)] + rest;
    assert trace[1..] == rest;
  }

  /** The four critical sections are what the steps of the same name do to the guarded variables. */
  lemma StepsAreCriticalSections(s: State, t: nat, a: Action)
    requires Enabled(s, t, a)
    ensures a.BeginUtility? ==> GuardedOf(Step(s, t, a)) == AfterBegin(GuardedOf(s))
    ensures a.CancelUtility? ==> GuardedOf(Step(s, t, a)) == AfterCancel(GuardedOf(s))
    ensures a.FinishUtility? ==> GuardedOf(Step(s, t, a)) == AfterFinish(GuardedOf(s), PcOf(s, t).rc)
    ensures a.LockForPool? ==> GuardedOf(Step(s, t, a)) == AfterLock(GuardedOf(s))
    ensures !a.BeginUtility? && !a.CancelUtility? && !a.FinishUtility? && !a.LockForPool? && !a.ConstructParser? ==>
              GuardedOf(Step(s, t, a)) == GuardedOf(s)
  {
  }

  /** One utility's hold on the selection. */
  class Reservation {
    var released: bool

    constructor ()
      ensures !released
    {
      released := false;
    }
  }

  class Selection {
    var kernelSelectionLocked: bool
    var utilityKernelReservations: nat
    ghost var outstanding: set<Reservation>

    constructor ()
      ensures Valid() && outstanding == {} && !kernelSelectionLocked
    {
      kernelSelectionLocked, utilityKernelReservations, outstanding := false, 0, {};
    }

    ghost function Now(): Guarded
      reads this
    {
      Guarded(kernelSelectionLocked, utilityKernelReservations)
    }

    /** The counter is the number of unreleased reservations. */
    ghost predicate Valid()
      reads this, outstanding
    {
      utilityKernelReservations == |outstanding| && forall r :: r in outstanding ==> !r.released
    }

    method LockKernelSelection()
      requires Valid()
      modifies this`kernelSelectionLocked
      ensures Valid() && Now() == AfterLock(old(Now()))
    {
      kernelSelectionLocked := true;
    }

    method MarkKernelSelectionAfterUtility(rc: Status)
      modifies this`kernelSelectionLocked
      ensures kernelSelectionLocked == (old(kernelSelectionLocked) || LocksSelection(rc))
    {
      if rc != CpuUnsupported && rc != BufferTooSmall && rc != InvalidArgument {
        kernelSelectionLocked := true;
      }
    }

    method BeginUtilityKernel() returns (reservation: Reservation)
      requires Valid()
      modifies this`utilityKernelReservations, this`outstanding
      ensures Valid() && fresh(reservation) && outstanding == old(outstanding) + {reservation}
      ensures Now() == AfterBegin(old(Now()))
    {
      reservation := new Reservation();
      utilityKernelReservations := utilityKernelReservations + 1;
      outstanding := outstanding + {reservation};
    }

    /** Releases an unreleased reservation, and does nothing to a released one. */
    method Cancel(reservation: Reservation)
      requires Valid() && (reservation.released || reservation in outstanding)
      modifies this`utilityKernelReservations, this`outstanding, reservation
      ensures Valid() && reservation.released && outstanding == old(outstanding) - {reservation}
      ensures Now() == if old(reservation.released) then old(Now()) else AfterCancel(old(Now()))
    {
      if !reservation.released {
        if utilityKernelReservations == 0 {
          assert false;
        }
        reservation.released := true;
        utilityKernelReservations := utilityKernelReservations - 1;
        outstanding := outstanding - {reservation};
      }
    }

    /** Publishes the native status and releases; does nothing to a released reservation. */
    method Finish(reservation: Reservation, rc: Status)
      requires Valid() && (reservation.released || reservation in outstanding)
      modifies this, reservation
      ensures Valid() && reservation.released && outstanding == old(outstanding) - {reservation}
      ensures Now() == if old(reservation.released) then old(Now()) else AfterFinish(old(Now()), rc)
    {
      if !reservation.released {
        if utilityKernelReservations == 0 {
          assert false;
        }
        MarkKernelSelectionAfterUtility(rc);
        reservation.released := true;
        utilityKernelReservations := utilityKernelReservations - 1;
        outstanding := outstanding - {reservation};
      }
    }

    /** A whole utility call on its own: whatever happens, its reservation is given back exactly once. */
    method RunUtility(libraryLoads: bool, rc: Status) returns (r: Status)
      requires Valid()
      modifies this
      ensures Valid() && outstanding == old(outstanding)
      ensures utilityKernelReservations == old(utilityKernelReservations)
      ensures kernelSelectionLocked == (old(kernelSelectionLocked) || (libraryLoads && LocksSelection(rc)))
      ensures r == if libraryLoads then rc else Internal
    {
      var reservation := BeginUtilityKernel();
      if !libraryLoads {
        Cancel(reservation);
        return Internal;
      }
      Finish(reservation, rc);
      Cancel(reservation);
      return rc;
    }
  }
}
