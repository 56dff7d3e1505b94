/**
 What the allocation telemetry says, told from the actions of a run alone: every live record
 carries the size its caller asked for, and every counter is a count, or a sum of requested
 sizes, over the actions since the last reset.
 */
module AllocHistory {
  import opened Basics
  import opened AllocTelemetry

  /** The number of resets among the first `n` actions. */
  function Resets(trace: Trace, n: nat): nat
    requires n <= |trace|
  {
    if n == 0 then 0 else Resets(trace, n - 1) + if trace[n - 1].1.ResetCounters? then 1 else 0
  }

  /** What the last allocation of thread `t` asked for, empty requests counting one byte, and in which epoch. */
  function LastRequest(trace: Trace, n: nat, t: nat): Option<(nat, Record)>
    requires n <= |trace|
  {
    if n == 0 then None
    else if trace[n - 1].0 == t && trace[n - 1].1.Allocate? then
      var (ptr, size) := (trace[n - 1].1.ptr, trace[n - 1].1.size);
      Some((ptr, Record(if size == 0 then 1 else size, 1 + Resets(trace, n - 1))))
    else LastRequest(trace, n - 1, t)
  }

  /** What action `n` inserts. */
  function Inserting(trace: Trace, n: nat): Option<(nat, Record)>
    requires n < |trace|
  {
    if trace[n].1.InsertRecord? then LastRequest(trace, n, trace[n].0) else None
  }

  /** The requests inserted and not removed among the first `n` actions. */
  function Outstanding(trace: Trace, n: nat): map<nat, Record>
    requires n <= |trace|
  {
    if n == 0 then map[]
    else
      match Inserting(trace, n - 1)
      case Some((ptr, r)) => Outstanding(trace, n - 1)[ptr := r]
      case None =>
        if trace[n - 1].1.RemoveRecord? then Outstanding(trace, n - 1) - {trace[n - 1].1.ptr}
        else Outstanding(trace, n - 1)
  }

  /** The record that action `n` takes back: one that was requested in the same epoch. */
  function TakingBack(trace: Trace, n: nat): Option<Record>
    requires n < |trace|
  {
    var live := Outstanding(trace, n);
    if trace[n].1.RemoveRecord? && trace[n].1.ptr in live && live[trace[n].1.ptr].epoch == 1 + Resets(trace, n)
    then Some(live[trace[n].1.ptr]) else None
  }

  /** The number of insertions since the last reset. */
  function Insertions(trace: Trace, n: nat): nat
    requires n <= |trace|
  {
    if n == 0 || trace[n - 1].1.ResetCounters? then 0
    else Insertions(trace, n - 1) + if Inserting(trace, n - 1).Some? then 1 else 0
  }

  function BytesInserted(trace: Trace, n: nat): nat
    requires n <= |trace|
  {
    if n == 0 || trace[n - 1].1.ResetCounters? then 0
    else
      var i := Inserting(trace, n - 1);
      BytesInserted(trace, n - 1) + if i.Some? then i.value.1.size else 0
  }

  /** The number of removals since the last reset that took back a request made since then. */
  function Removals(trace: Trace, n: nat): nat
    requires n <= |trace|
  {
    if n == 0 || trace[n - 1].1.ResetCounters? then 0
    else Removals(trace, n - 1) + if TakingBack(trace, n - 1).Some? then 1 else 0
  }

  function BytesRemoved(trace: Trace, n: nat): nat
    requires n <= |trace|
  {
    if n == 0 || trace[n - 1].1.ResetCounters? then 0
    else
      var r := TakingBack(trace, n - 1);
      BytesRemoved(trace, n - 1) + if r.Some? then r.value.size else 0
  }

  /** The number of removals since the last reset of pointers that were not outstanding. */
  function Untracked(trace: Trace, n: nat): nat
    requires n <= |trace|
  {
    if n == 0 || trace[n - 1].1.ResetCounters? then 0
    else
      var a := trace[n - 1].1;
      Untracked(trace, n - 1) + if a.RemoveRecord? && a.ptr !in Outstanding(trace, n - 1) then 1 else 0
  }

  // ----- The counters of a run

  lemma {:induction false} ResetsAt(s: State, trace: Trace, n: nat)
    requires Initial(s) && Runs(s, trace) && n <= |trace|
    ensures StateAt(s, trace, n).resets == Resets(trace, n)
    decreases n
  {
    if n > 0 {
      StateAdvances(s, trace, n - 1);
      ResetsAt(s, trace, n - 1);
    }
  }

  lemma {:induction false} InvAt(s: State, trace: Trace, n: nat)
    requires Initial(s) && Runs(s, trace) && n <= |trace| && Resets(trace, n) < U64_MAX
    ensures Inv(StateAt(s, trace, n)) && StateAt(s, trace, n).c.epoch == 1 + Resets(trace, n)
    decreases n
  {
    ResetsAt(s, trace, n);
    if n > 0 {
      StateAdvances(s, trace, n - 1);
      InvAt(s, trace, n - 1);
      StepOwners(StateAt(s, trace, n - 1), trace[n - 1].0, trace[n - 1].1);
      StepCounters(StateAt(s, trace, n - 1), trace[n - 1].0, trace[n - 1].1);
    }
  }

  /** A recording thread carries its last request. */
  predicate Carries(pc: Pc, request: Option<(nat, Record)>) {
    pc.Recording? ==> request == Some((pc.ptr, Record(pc.size, pc.epoch)))
  }

  lemma {:induction false} RequestIsCarried(s: State, trace: Trace, n: nat, t: nat)
    requires Initial(s) && Runs(s, trace) && n <= |trace| && Resets(trace, n) < U64_MAX
    ensures Carries(PcOf(StateAt(s, trace, n), t), LastRequest(trace, n, t))
    decreases n
  {
    if n > 0 {
      StateAdvances(s, trace, n - 1);
      RequestIsCarried(s, trace, n - 1, t);
      InvAt(s, trace, n - 1);
    }
  }

  /** The counters that the first `n` actions call for. */
  function Expected(trace: Trace, n: nat): Counters
    requires n <= |trace|
  {
    Counters(Outstanding(trace, n), 1 + Resets(trace, n),
      BytesInserted(trace, n) - BytesRemoved(trace, n), BytesInserted(trace, n),
      Insertions(trace, n), Removals(trace, n), Untracked(trace, n))
  }

  lemma CountersStep(s: State, trace: Trace, n: nat)
    requires n < |trace| && Inv(s) && Enabled(s, trace[n].0, trace[n].1) && s.c == Expected(trace, n)
    requires Carries(PcOf(s, trace[n].0), LastRequest(trace, n, trace[n].0))
    requires trace[n].1.ResetCounters? ==> s.c.epoch < U64_MAX
    ensures Step(s, trace[n].0, trace[n].1).c == Expected(trace, n + 1)
  {
    var (t, a) := trace[n];
    assert ThreadOk(s, t);
    if a.RemoveRecord? && a.ptr !in s.c.live {
      assert s.c.live - {a.ptr} == s.c.live;
    }
  }

  lemma {:induction false} CountersAt(s: State, trace: Trace, n: nat)
    requires Initial(s) && Runs(s, trace) && n <= |trace| && Resets(trace, n) < U64_MAX
    ensures StateAt(s, trace, n).c == Expected(trace, n)
    decreases n
  {
    if n > 0 {
      var m := n - 1;
      StateAdvances(s, trace, m);
      CountersAt(s, trace, m);
      InvAt(s, trace, m);
      InvAt(s, trace, n);
      RequestIsCarried(s, trace, m, trace[m].0);
      CountersStep(StateAt(s, trace, m), trace, m);
    }
  }

  /** The snapshot after any run is what its actions call for. */
  lemma CountersTellTheRun(s: State, trace: Trace)
    requires Initial(s) && Runs(s, trace) && Resets(trace, |trace|) < U64_MAX
    ensures var c, n := Final(s, trace).c, |trace|;
            && c.live == Outstanding(trace, n) && c.epoch == 1 + Resets(trace, n)
            && c.liveBytes == BytesInserted(trace, n) - BytesRemoved(trace, n)
            && c.totalAllocBytes == BytesInserted(trace, n)
            && c.allocCount == Insertions(trace, n) && c.freeCount == Removals(trace, n)
            && c.untrackedFreeCount == Untracked(trace, n)
  {
    LastStateIsFinal(s, trace);
    CountersAt(s, trace, |trace|);
  }

  /** Live bytes are the requested sizes still outstanding since the reset, exactly when no insertion is late. */
  lemma LiveBytesAreRequested(s: State, trace: Trace)
    requires Initial(s) && Runs(s, trace) && Resets(trace, |trace|) < U64_MAX
    ensures Final(s, trace).c.liveBytes == Total(Outstanding(trace, |trace|), 1 + Resets(trace, |trace|), InBytes)
            <==> !LateSinceReset(trace, |trace|)
  {
    LastStateIsFinal(s, trace);
    ResetsAt(s, trace, |trace|);
    CountersTellTheRun(s, trace);
    TotalsAreExactIffTraceIsNotLate(s, trace);
  }

  // ----- The actions behind a live record

  predicate NoRemovalIn(trace: Trace, ptr: nat, first: nat, until: nat) {
    forall i :: first <= i < until && i < |trace| ==> trace[i].1 != RemoveRecord(ptr)
  }

  lemma {:induction false} RequestIsAnAction(s: State, trace: Trace, n: nat, t: nat) returns (j: nat)
    requires Initial(s) && Runs(s, trace) && n <= |trace| && Resets(trace, n) < U64_MAX
    requires PcOf(StateAt(s, trace, n), t).Recording?
    ensures AllocatedAt(trace, t, j, n)
    ensures var size := trace[j].1.size;
            LastRequest(trace, n, t) ==
              Some((trace[j].1.ptr, Record(if size == 0 then 1 else size, 1 + Resets(trace, j))))
    decreases n
  {
    StateAdvances(s, trace, n - 1);
    if trace[n - 1].0 == t {
      j := n - 1;
    } else {
      j := RequestIsAnAction(s, trace, n - 1, t);
    }
  }

  /** Behind every live record are the request it stands for, its insertion, and no removal since. */
  lemma {:induction false} LiveRecordIsRequested(s: State, trace: Trace, n: nat, ptr: nat) returns (j: nat, k: nat)
    requires Initial(s) && Runs(s, trace) && n <= |trace| && Resets(trace, n) < U64_MAX
    requires ptr in StateAt(s, trace, n).c.live
    ensures j < k < n && AllocatedAt(trace, trace[k].0, j, k) && trace[k].1.InsertRecord?
    ensures NoRemovalIn(trace, ptr, k + 1, n)
    ensures var size := trace[j].1.size;
            && trace[j].1 == Allocate(ptr, size)
            && StateAt(s, trace, n).c.live[ptr] == Record(if size == 0 then 1 else size, 1 + Resets(trace, j))
    decreases n
  {
    var m := n - 1;
    StateAdvances(s, trace, m);
    CountersAt(s, trace, m);
    CountersAt(s, trace, n);
    var i := Inserting(trace, m);
    if i.Some? && i.value.0 == ptr {
      k := m;
      j := RequestIsAnAction(s, trace, m, trace[m].0);
    } else {
      j, k := LiveRecordIsRequested(s, trace, m, ptr);
    }
  }

  // ----- One allocation at a time

  /** An allocation and its free, with nothing in between: the request is counted in and out again. */
  lemma AllocateAndFreeAlone(s: State, t: nat, ptr: nat, size: nat) returns (trace: Trace)
    requires Inv(s) && PcOf(s, t).Outside? && ptr !in s.handedOut
    ensures Runs(s, trace)
    ensures var c, c', bytes := s.c, Final(s, trace).c, if size == 0 then 1 else size;
            && c'.live == c.live && c'.liveBytes == c.liveBytes && c'.totalAllocBytes == c.totalAllocBytes + bytes
            && c'.allocCount == c.allocCount + 1 && c'.freeCount == c.freeCount + 1
            && c'.untrackedFreeCount == c.untrackedFreeCount
    ensures PcOf(Final(s, trace), t).Outside? && Final(s, trace).handedOut == s.handedOut
  {
    var s1 := Step(s, t, Allocate(ptr, size));
    var bytes := if size == 0 then 1 else size;
    assert PcOf(s1, t) == Recording(ptr, bytes, s.c.epoch) && ptr !in s.c.live;
    var s2 := Step(s1, t, InsertRecord);
    assert PcOf(s2, t) == Outside && s2.c.live == s.c.live[ptr := Record(bytes, s.c.epoch)];
    var s3 := Step(s2, t, RemoveRecord(ptr));
    assert PcOf(s3, t) == Freeing(ptr) && s3.c.live == s.c.live;
    trace := RunCons(s3, t, RawFree, []);
    trace := RunCons(s2, t, RemoveRecord(ptr), trace);
    trace := RunCons(s1, t, InsertRecord, trace);
    trace := RunCons(s, t, Allocate(ptr, size), trace);
    assert s.handedOut + {ptr} - {ptr} == s.handedOut;
  }

  /** Freeing memory that was never recorded counts as untracked and changes nothing else. */
  lemma ForeignFreeAlone(s: State, t: nat, ptr: nat) returns (trace: Trace)
    requires Inv(s) && PcOf(s, t).Outside? && ptr !in s.handedOut
    ensures Runs(s, trace)
    ensures Final(s, trace).c == s.c.(untrackedFreeCount := s.c.untrackedFreeCount + 1)
    ensures Final(s, trace).handedOut == s.handedOut
  {
    trace := RunCons(s, t, RemoveRecord(ptr), []);
  }
}
