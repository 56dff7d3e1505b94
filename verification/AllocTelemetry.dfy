/**
 Allocation telemetry of the native library, over all interleavings of allocations, frees and
 counter resets.

 An allocating thread reads the epoch before it takes the telemetry mutex.  A reset that falls
 into that gap leaves bytes in the totals that no later free takes out; otherwise the totals
 are exact.  Counters are unbounded here; only the epoch has its 64-bit wrap.
 */
module AllocTelemetry {
  import opened Basics

  datatype Record = Record(size: nat, epoch: nat)

  /** The part of the state that the telemetry mutex guards. */
  datatype Counters = Counters(
    live: map<nat, Record>,
    epoch: nat,
    liveBytes: int,
    totalAllocBytes: nat,
    allocCount: nat,
    freeCount: nat,
    untrackedFreeCount: nat)

  const FRESH: Counters := Counters(map[], 1, 0, 0, 0, 0, 0)

  function NormalizeSize(size: nat): nat {
    if size == 0 then 1 else size
  }

  /** The epoch after a reset; it skips 0 when it wraps. */
  function NextEpoch(epoch: nat): nat {
    if epoch == U64_MAX then 1 else epoch + 1
  }

  function Insert(c: Counters, ptr: nat, size: nat, epoch: nat): Counters {
    c.(live := if ptr in c.live then c.live else c.live[ptr := Record(size, epoch)],
       liveBytes := c.liveBytes + size,
       totalAllocBytes := c.totalAllocBytes + size,
       allocCount := c.allocCount + 1)
  }

  function Remove(c: Counters, ptr: nat): Counters {
    if ptr !in c.live then c.(untrackedFreeCount := c.untrackedFreeCount + 1)
    else if c.live[ptr].epoch != c.epoch then c.(live := c.live - {ptr})
    else c.(live := c.live - {ptr}, liveBytes := c.liveBytes - c.live[ptr].size, freeCount := c.freeCount + 1)
  }

  function Reset(c: Counters): Counters {
    Counters(c.live, NextEpoch(c.epoch), 0, 0, 0, 0, 0)
  }

  // ----- What the counters should say

  datatype Measure = InBytes | InRecords

  /** What a record adds to the totals of `epoch`. */
  function Share(r: Record, epoch: nat, m: Measure): nat {
    if r.epoch != epoch then 0 else if m.InBytes? then r.size else 1
  }

  ghost function Pick(live: map<nat, Record>): (ptr: nat)
    requires live != map[]
    ensures ptr in live
  {
    var ptr :| ptr in live;
    ptr
  }

  /** Sum over the live records of `epoch`. */
  ghost function Total(live: map<nat, Record>, epoch: nat, m: Measure): nat
    decreases |live|
  {
    if live == map[] then 0
    else
      var ptr := Pick(live);
      assert (live - {ptr}).Keys == live.Keys - {ptr};
      Share(live[ptr], epoch, m) + Total(live - {ptr}, epoch, m)
  }

  /** Any record may be taken out first. */
  lemma {:induction false} TotalTakesOut(live: map<nat, Record>, ptr: nat, epoch: nat, m: Measure)
    requires ptr in live
    ensures Total(live, epoch, m) == Share(live[ptr], epoch, m) + Total(live - {ptr}, epoch, m)
    decreases |live|
  {
    var first := Pick(live);
    if first != ptr {
      assert (live - {first}).Keys == live.Keys - {first};
      assert (live - {ptr}).Keys == live.Keys - {ptr};
      TotalTakesOut(live - {first}, ptr, epoch, m);
      TotalTakesOut(live - {ptr}, first, epoch, m);
      assert live - {first} - {ptr} == live - {ptr} - {first};
    }
  }

  lemma TotalPutsIn(live: map<nat, Record>, ptr: nat, r: Record, epoch: nat, m: Measure)
    requires ptr !in live
    ensures Total(live[ptr := r], epoch, m) == Share(r, epoch, m) + Total(live, epoch, m)
  {
    TotalTakesOut(live[ptr := r], ptr, epoch, m);
    assert live[ptr := r] - {ptr} == live;
  }

  lemma {:induction false} TotalOfNewEpoch(live: map<nat, Record>, epoch: nat, m: Measure)
    requires forall ptr :: ptr in live ==> live[ptr].epoch != epoch
    ensures Total(live, epoch, m) == 0
    decreases |live|
  {
    if live != map[] {
      var ptr := Pick(live);
      assert (live - {ptr}).Keys == live.Keys - {ptr};
      TotalOfNewEpoch(live - {ptr}, epoch, m);
    }
  }

  // ----- Threads

  datatype Pc =
    | Outside
    | Recording(ptr: nat, size: nat, epoch: nat)
    | Freeing(ptr: nat)

  /**
   `handedOut` is what the system allocator has handed out.  `lateBytes` and `lateRecords` sum
   up the insertions since the last reset that carried an older epoch.
   */
  datatype State = State(
    c: Counters,
    handedOut: set<nat>,
    pcs: map<nat, Pc>,
    lateBytes: nat,
    lateRecords: nat,
    resets: nat)

  function PcOf(s: State, t: nat): Pc {
    if t in s.pcs then s.pcs[t] else Outside
  }

  datatype Action =
    | Allocate(ptr: nat, size: nat)
    | InsertRecord
    | RemoveRecord(ptr: nat)
    | RawFree
    | ResetCounters

  /** The thread has `ptr` in hand: not yet recorded, or no longer. */
  predicate Owns(pc: Pc, ptr: nat) {
    (pc.Recording? && pc.ptr == ptr) || (pc.Freeing? && pc.ptr == ptr)
  }

  /** The system allocator returns memory that is not handed out; callers free what they own. */
  predicate Enabled(s: State, t: nat, a: Action) {
    match a
    case Allocate(ptr, _) => PcOf(s, t).Outside? && ptr !in s.handedOut
    case InsertRecord => PcOf(s, t).Recording?
    case RemoveRecord(ptr) => PcOf(s, t).Outside? && (ptr in s.handedOut ==> ptr in s.c.live)
    case RawFree => PcOf(s, t).Freeing?
    case ResetCounters => PcOf(s, t).Outside?
  }

  predicate Late(s: State, t: nat, a: Action) {
    a.InsertRecord? && PcOf(s, t).Recording? && PcOf(s, t).epoch != s.c.epoch
  }

  function Step(s: State, t: nat, a: Action): State
    requires Enabled(s, t, a)
  {
    var pc := PcOf(s, t);
    match a
    case Allocate(ptr, size) =>
      s.(pcs := s.pcs[t := Recording(ptr, NormalizeSize(size), s.c.epoch)], handedOut := s.handedOut + {ptr})
    case InsertRecord =>
      s.(pcs := s.pcs[t := Outside], c := Insert(s.c, pc.ptr, pc.size, pc.epoch),
         lateBytes := s.lateBytes + if Late(s, t, a) then pc.size else 0,
         lateRecords := s.lateRecords + if Late(s, t, a) then 1 else 0)
    case RemoveRecord(ptr) =>
      s.(pcs := s.pcs[t := if ptr in s.c.live then Freeing(ptr) else Outside], c := Remove(s.c, ptr))
    case RawFree => s.(pcs := s.pcs[t := Outside], handedOut := s.handedOut - {pc.ptr})
    case ResetCounters => s.(c := Reset(s.c), lateBytes := 0, lateRecords := 0, resets := s.resets + 1)
  }

  // ----- The invariant

  predicate ThreadOk(s: State, t: nat) {
    var pc := PcOf(s, t);
    && (!pc.Outside? ==> pc.ptr in s.handedOut && pc.ptr !in s.c.live)
    && (pc.Recording? ==> pc.epoch <= s.c.epoch && pc.size > 0)
  }

  ghost predicate OwnersOk(s: State) {
    && (forall t: nat :: ThreadOk(s, t))
    && (forall t: nat, u: nat, ptr: nat :: Owns(PcOf(s, t), ptr) && Owns(PcOf(s, u), ptr) ==> t == u)
    && (forall ptr :: ptr in s.c.live ==> ptr in s.handedOut && s.c.live[ptr].epoch <= s.c.epoch)
  }

  /** The totals are the sums over the current epoch's live records, plus the late insertions. */
  ghost predicate CountersOk(s: State) {
    && s.c.epoch == 1 + s.resets
    && s.c.liveBytes == Total(s.c.live, s.c.epoch, InBytes) + s.lateBytes
    && s.c.allocCount - s.c.freeCount == Total(s.c.live, s.c.epoch, InRecords) + s.lateRecords
    && s.c.totalAllocBytes >= s.c.liveBytes
    && (s.lateBytes == 0 <==> s.lateRecords == 0)
  }

  ghost predicate Inv(s: State) {
    OwnersOk(s) && CountersOk(s)
  }

  predicate Initial(s: State) {
    s.c == FRESH && s.handedOut == {} && s.pcs == map[] && s.lateBytes == 0 && s.lateRecords == 0 && s.resets == 0
  }

  lemma StepOwners(s: State, t: nat, a: Action)
    requires Inv(s) && Enabled(s, t, a) && Step(s, t, a).resets < U64_MAX
    ensures OwnersOk(Step(s, t, a))
  {
    var s' := Step(s, t, a);
    assert ThreadOk(s, t);
    forall u: nat
      ensures ThreadOk(s', u)
    {
      assert ThreadOk(s, u);
      if u != t && !PcOf(s, u).Outside? {
        assert Owns(PcOf(s, u), PcOf(s, u).ptr);
      }
    }
    forall u: nat, v: nat, ptr: nat | Owns(PcOf(s', u), ptr) && Owns(PcOf(s', v), ptr)
      ensures u == v
    {
      assert ThreadOk(s, u) && ThreadOk(s, v);
    }
  }

  lemma StepCounters(s: State, t: nat, a: Action)
    requires Inv(s) && Enabled(s, t, a) && Step(s, t, a).resets < U64_MAX
    ensures CountersOk(Step(s, t, a))
  {
    assert ThreadOk(s, t);
    var pc := PcOf(s, t);
    match a {
      case Allocate(_, _) =>
      case InsertRecord =>
        TotalPutsIn(s.c.live, pc.ptr, Record(pc.size, pc.epoch), s.c.epoch, InBytes);
        TotalPutsIn(s.c.live, pc.ptr, Record(pc.size, pc.epoch), s.c.epoch, InRecords);
      case RemoveRecord(ptr) =>
        if ptr in s.c.live {
          TotalTakesOut(s.c.live, ptr, s.c.epoch, InBytes);
          TotalTakesOut(s.c.live, ptr, s.c.epoch, InRecords);
        }
      case RawFree =>
      case ResetCounters =>
        TotalOfNewEpoch(s.c.live, s.c.epoch + 1, InBytes);
        TotalOfNewEpoch(s.c.live, s.c.epoch + 1, InRecords);
    }
  }

  // ----- Runs

  type Trace = seq<(nat, Action)>

  predicate Runs(s: State, trace: Trace)
    decreases |trace|
  {
    trace == [] || (Enabled(s, trace[0].0, trace[0].1) && Runs(Step(s, trace[0].0, trace[0].1), trace[1..]))
  }

  function Final(s: State, trace: Trace): State
    requires Runs(s, trace)
    decreases |trace|
  {
    if trace == [] then s else Final(Step(s, trace[0].0, trace[0].1), trace[1..])
  }

  lemma {:induction false} ResetsGrow(s: State, trace: Trace)
    requires Runs(s, trace)
    ensures s.resets <= Final(s, trace).resets
    decreases |trace|
  {
    if trace != [] {
      ResetsGrow(Step(s, trace[0].0, trace[0].1), trace[1..]);
    }
  }

  lemma {:induction false} RunKeepsInv(s: State, trace: Trace)
    requires Inv(s) && Runs(s, trace) && Final(s, trace).resets < U64_MAX
    ensures Inv(Final(s, trace))
    decreases |trace|
  {
    if trace != [] {
      var (t, a) := trace[0];
      var s' := Step(s, t, a);
      ResetsGrow(s', trace[1..]);
      StepOwners(s, t, a);
      StepCounters(s, t, a);
      RunKeepsInv(s', trace[1..]);
    }
  }

  /** `live_bytes` and the two counts are exact if and only if nothing was inserted late since the reset. */
  lemma TotalsAreExactUnlessLate(s: State, trace: Trace)
    requires Initial(s) && Runs(s, trace) && Final(s, trace).resets < U64_MAX
    ensures var f := Final(s, trace);
            && (f.c.liveBytes == Total(f.c.live, f.c.epoch, InBytes) <==> f.lateRecords == 0)
            && (f.c.allocCount - f.c.freeCount == Total(f.c.live, f.c.epoch, InRecords) <==> f.lateRecords == 0)
            && 0 <= f.c.liveBytes <= f.c.totalAllocBytes && f.c.freeCount <= f.c.allocCount
  {
    RunKeepsInv(s, trace);
  }

  /** No reset happens while some thread is between reading the epoch and the mutex. */
  ghost predicate Prompt(s: State, trace: Trace)
    requires Runs(s, trace)
    decreases |trace|
  {
    trace != [] ==>
      && (trace[0].1.ResetCounters? ==> forall t: nat :: !PcOf(s, t).Recording?)
      && Prompt(Step(s, trace[0].0, trace[0].1), trace[1..])
  }

  ghost predicate EpochsCurrent(s: State) {
    s.lateRecords == 0 && forall t: nat :: PcOf(s, t).Recording? ==> PcOf(s, t).epoch == s.c.epoch
  }

  lemma {:induction false} PromptRunIsNeverLate(s: State, trace: Trace)
    requires EpochsCurrent(s) && Runs(s, trace) && Prompt(s, trace)
    ensures Final(s, trace).lateRecords == 0
    decreases |trace|
  {
    if trace != [] {
      var (t, a) := trace[0];
      var s' := Step(s, t, a);
      forall u: nat | PcOf(s', u).Recording?
        ensures PcOf(s', u).epoch == s'.c.epoch
      {
        assert u != t ==> PcOf(s', u) == PcOf(s, u);
      }
      PromptRunIsNeverLate(s', trace[1..]);
    }
  }

  // ----- Late insertions, told from the trace

  /** The state before action `n` of the run. */
  function StateAt(s: State, trace: Trace, n: nat): State
    requires Runs(s, trace) && n <= |trace|
    decreases n
  {
    if n == 0 then s else StateAt(Step(s, trace[0].0, trace[0].1), trace[1..], n - 1)
  }

  lemma {:induction false} StateAdvances(s: State, trace: Trace, n: nat)
    requires Runs(s, trace) && n < |trace|
    ensures Enabled(StateAt(s, trace, n), trace[n].0, trace[n].1)
    ensures StateAt(s, trace, n + 1) == Step(StateAt(s, trace, n), trace[n].0, trace[n].1)
    decreases n
  {
    if n > 0 {
      StateAdvances(Step(s, trace[0].0, trace[0].1), trace[1..], n - 1);
    }
  }

  lemma {:induction false} LastStateIsFinal(s: State, trace: Trace)
    requires Runs(s, trace)
    ensures StateAt(s, trace, |trace|) == Final(s, trace)
    decreases |trace|
  {
    if trace != [] {
      LastStateIsFinal(Step(s, trace[0].0, trace[0].1), trace[1..]);
    }
  }

  predicate NoResetIn(trace: Trace, first: nat, until: nat) {
    forall i :: first <= i < until && i < |trace| ==> !trace[i].1.ResetCounters?
  }

  predicate IdleIn(trace: Trace, t: nat, first: nat, until: nat) {
    forall i :: first <= i < until && i < |trace| ==> trace[i].0 != t
  }

  /** Action `j` allocates for thread `t`, which does nothing else before `n`. */
  predicate AllocatedAt(trace: Trace, t: nat, j: nat, n: nat) {
    j < n <= |trace| && trace[j].0 == t && trace[j].1.Allocate? && IdleIn(trace, t, j + 1, n)
  }

  /** Action `k` inserts what its thread allocated at `j`, and a reset fell between the two. */
  predicate LateInsertion(trace: Trace, j: nat, k: nat) {
    && k < |trace| && trace[k].1.InsertRecord? && AllocatedAt(trace, trace[k].0, j, k)
    && !NoResetIn(trace, j + 1, k)
  }

  ghost predicate InsertsLate(trace: Trace, k: nat) {
    exists j: nat :: LateInsertion(trace, j, k)
  }

  /** Epochs never fall, and rise exactly at resets. */
  lemma {:induction false} EpochsRiseAtResets(s: State, trace: Trace, first: nat, until: nat)
    requires Initial(s) && Runs(s, trace) && first <= until <= |trace| && StateAt(s, trace, until).resets < U64_MAX
    ensures StateAt(s, trace, first).c.epoch <= StateAt(s, trace, until).c.epoch
    ensures StateAt(s, trace, first).c.epoch == StateAt(s, trace, until).c.epoch <==> NoResetIn(trace, first, until)
    decreases until
  {
    if first < until {
      StateAdvances(s, trace, until - 1);
      EpochsRiseAtResets(s, trace, first, until - 1);
      EpochCountsResets(s, trace, until - 1);
    }
  }

  lemma {:induction false} EpochCountsResets(s: State, trace: Trace, n: nat)
    requires Initial(s) && Runs(s, trace) && n <= |trace| && StateAt(s, trace, n).resets < U64_MAX
    ensures StateAt(s, trace, n).c.epoch == 1 + StateAt(s, trace, n).resets
    decreases n
  {
    if n > 0 {
      StateAdvances(s, trace, n - 1);
      EpochCountsResets(s, trace, n - 1);
    }
  }

  /** A thread that did nothing since is where it was. */
  lemma {:induction false} IdleThreadStays(s: State, trace: Trace, t: nat, first: nat, until: nat)
    requires Runs(s, trace) && first <= until <= |trace| && IdleIn(trace, t, first, until)
    ensures PcOf(StateAt(s, trace, until), t) == PcOf(StateAt(s, trace, first), t)
    decreases until
  {
    if first < until {
      StateAdvances(s, trace, until - 1);
      IdleThreadStays(s, trace, t, first, until - 1);
    }
  }

  /** A recording thread carries the epoch in which it allocated. */
  lemma {:induction false} RecordingSinceAllocation(s: State, trace: Trace, t: nat, n: nat) returns (j: nat)
    requires Initial(s) && Runs(s, trace) && n <= |trace| && PcOf(StateAt(s, trace, n), t).Recording?
    ensures AllocatedAt(trace, t, j, n) && PcOf(StateAt(s, trace, n), t).epoch == StateAt(s, trace, j).c.epoch
    decreases n
  {
    StateAdvances(s, trace, n - 1);
    if trace[n - 1].0 == t {
      j := n - 1;
    } else {
      j := RecordingSinceAllocation(s, trace, t, n - 1);
    }
  }

  lemma AllocationStarts(s: State, trace: Trace, t: nat, j: nat, n: nat)
    requires Runs(s, trace) && AllocatedAt(trace, t, j, n)
    ensures var pc := PcOf(StateAt(s, trace, n), t); pc.Recording? && pc.epoch == StateAt(s, trace, j).c.epoch
  {
    StateAdvances(s, trace, j);
    IdleThreadStays(s, trace, t, j + 1, n);
  }

  /** An insertion is late exactly when a reset fell between its allocation and itself. */
  lemma LateIffResetBetween(s: State, trace: Trace, k: nat)
    requires Initial(s) && Runs(s, trace) && k < |trace| && StateAt(s, trace, k).resets < U64_MAX
    ensures Late(StateAt(s, trace, k), trace[k].0, trace[k].1) <==> InsertsLate(trace, k)
  {
    var (t, a) := trace[k];
    StateAdvances(s, trace, k);
    if a.InsertRecord? {
      var j := RecordingSinceAllocation(s, trace, t, k);
      StateAdvances(s, trace, j);
      EpochsRiseAtResets(s, trace, j, k);
      assert NoResetIn(trace, j, k) <==> NoResetIn(trace, j + 1, k);
      if Late(StateAt(s, trace, k), t, a) {
        assert LateInsertion(trace, j, k);
      }
      if j': nat :| LateInsertion(trace, j', k) {
        AllocationStarts(s, trace, t, j', k);
        EpochsRiseAtResets(s, trace, j', k);
        assert NoResetIn(trace, j', k) <==> NoResetIn(trace, j' + 1, k);
      }
    }
  }

  /** Some late insertion of the first `n` actions is followed by no reset among them. */
  ghost predicate LateSinceReset(trace: Trace, n: nat) {
    exists k: nat :: k < n && InsertsLate(trace, k) && NoResetIn(trace, k + 1, n)
  }

  lemma {:induction false} LateRecordsAt(s: State, trace: Trace, n: nat)
    requires Initial(s) && Runs(s, trace) && n <= |trace| && StateAt(s, trace, n).resets < U64_MAX
    ensures StateAt(s, trace, n).lateRecords > 0 <==> LateSinceReset(trace, n)
    decreases n
  {
    if n > 0 {
      var m := n - 1;
      StateAdvances(s, trace, m);
      LateRecordsAt(s, trace, m);
      LateIffResetBetween(s, trace, m);
      LateSinceResetStep(trace, m);
    }
  }

  lemma LateSinceResetStep(trace: Trace, m: nat)
    requires m < |trace|
    ensures LateSinceReset(trace, m + 1) <==>
            InsertsLate(trace, m) || (LateSinceReset(trace, m) && !trace[m].1.ResetCounters?)
  {
    if InsertsLate(trace, m) {
      assert NoResetIn(trace, m + 1, m + 1);
    }
    if LateSinceReset(trace, m) && !trace[m].1.ResetCounters? {
      var k: nat :| k < m && InsertsLate(trace, k) && NoResetIn(trace, k + 1, m);
      assert NoResetIn(trace, k + 1, m + 1);
    }
    if LateSinceReset(trace, m + 1) {
      var k: nat :| k < m + 1 && InsertsLate(trace, k) && NoResetIn(trace, k + 1, m + 1);
      if k < m {
        assert NoResetIn(trace, k + 1, m);
        assert !trace[m].1.ResetCounters?;
      }
    }
  }

  /**
   The totals of a run are exact if and only if no insertion after its last reset belongs to an
   allocation that came before a reset.
   */
  lemma TotalsAreExactIffTraceIsNotLate(s: State, trace: Trace)
    requires Initial(s) && Runs(s, trace) && Final(s, trace).resets < U64_MAX
    ensures var f := Final(s, trace);
            f.c.liveBytes == Total(f.c.live, f.c.epoch, InBytes) <==> !LateSinceReset(trace, |trace|)
  {
    TotalsAreExactUnlessLate(s, trace);
    LastStateIsFinal(s, trace);
    LateRecordsAt(s, trace, |trace|);
  }

  /** A reset between the epoch read and the insertion: one live byte that no live record explains. */
  lemma LateInsertionLeavesBytes(s: State) returns (trace: Trace)
    requires Initial(s)
    ensures Runs(s, trace)
    ensures var f := Final(s, trace); f.c.liveBytes == 1 && Total(f.c.live, f.c.epoch, InBytes) == 0
  {
    var s1 := Step(s, 0, Allocate(0, 1));
    assert PcOf(s1, 0) == Recording(0, 1, 1) && PcOf(s1, 1) == Outside;
    var s2 := Step(s1, 1, ResetCounters);
    assert PcOf(s2, 0) == Recording(0, 1, 1) && s2.c == Counters(map[], 2, 0, 0, 0, 0, 0);
    var s3 := Step(s2, 0, InsertRecord);
    assert s3.c.live == map[0 := Record(1, 1)] && s3.c.epoch == 2;
    TotalOfNewEpoch(s3.c.live, 2, InBytes);
    trace := [];
    trace := RunCons(s2, 0, InsertRecord, trace);
    trace := RunCons(s1, 1, ResetCounters, trace);
    trace := RunCons(s, 0, Allocate(0, 1), trace);
  }

  lemma RunCons(s: State, t: nat, a: Action, rest: Trace) returns (trace: Trace)
    requires Enabled(s, t, a) && Runs(Step(s, t, a), rest)
    ensures Runs(s, trace) && Final(s, trace) == Final(Step(s, t, a), rest)
  {
    trace := [(t, a)] + rest;
    assert trace[1..] == rest;
  }

  /** A free takes out exactly what its allocation put in, when no reset lies between. */
  lemma RemoveUndoesInsert(c: Counters, ptr: nat, size: nat)
    requires ptr !in c.live
    ensures var c' := Remove(Insert(c, ptr, size, c.epoch), ptr);
            && c'.live == c.live && c'.liveBytes == c.liveBytes
            && c'.allocCount - c'.freeCount == c.allocCount - c.freeCount
            && c'.totalAllocBytes == c.totalAllocBytes + size
  {
    assert c.live[ptr := Record(size, c.epoch)] - {ptr} == c.live;
  }

  // ----- The guarded state itself

  class TelemetryState {
    var liveAllocations: map<nat, Record>
    var currentEpoch: nat
    var liveBytes: int
    var totalAllocBytes: nat
    var allocCount: nat
    var freeCount: nat
    var untrackedFreeCount: nat

    constructor ()
      ensures Snapshot() == FRESH
    {
      liveAllocations, currentEpoch, liveBytes := map[], 1, 0;
      totalAllocBytes, allocCount, freeCount, untrackedFreeCount := 0, 0, 0, 0;
    }

    function Snapshot(): Counters
      reads this
    {
      Counters(liveAllocations, currentEpoch, liveBytes, totalAllocBytes, allocCount, freeCount, untrackedFreeCount)
    }

    /** The critical section of an allocation whose epoch was read before. */
    method RecordAllocation(ptr: nat, size: nat, epoch: nat)
      modifies this
      ensures Snapshot() == Insert(old(Snapshot()), ptr, NormalizeSize(size), epoch)
    {
      var trackedSize := NormalizeSize(size);
      if ptr !in liveAllocations {
        liveAllocations := liveAllocations[ptr := Record(trackedSize, epoch)];
      }
      liveBytes := liveBytes + trackedSize;
      totalAllocBytes := totalAllocBytes + trackedSize;
      allocCount := allocCount + 1;
    }

    method RemoveAllocation(ptr: nat)
      modifies this
      ensures Snapshot() == Remove(old(Snapshot()), ptr)
    {
      if ptr in liveAllocations {
        var record := liveAllocations[ptr];
        if record.epoch == currentEpoch {
          liveBytes := liveBytes - record.size;
          freeCount := freeCount + 1;
        }
        liveAllocations := liveAllocations - {ptr};
      } else {
        untrackedFreeCount := untrackedFreeCount + 1;
      }
    }

    method ResetCounters()
      requires currentEpoch <= U64_MAX
      modifies this
      ensures Snapshot() == Reset(old(Snapshot())) && 0 < currentEpoch <= U64_MAX
    {
      currentEpoch := (currentEpoch + 1) % (U64_MAX + 1);
      if currentEpoch == 0 {
        currentEpoch := 1;
      }
      liveBytes, totalAllocBytes, allocCount, freeCount, untrackedFreeCount := 0, 0, 0, 0, 0;
    }
  }
}
