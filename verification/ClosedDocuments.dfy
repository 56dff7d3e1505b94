/**
 The life of one document over a run: it keeps the handle it was given until a close or a
 finalizer commits, is closed exactly from then on, and that handle has been freed, once.
 */
module ClosedDocuments {
  import opened Basics
  import opened ParserLifecycle

  /** The state before action `n` of the run. */
  function StateAt(s: State, trace: Trace, n: nat): State
    requires Runs(s, trace) && n <= |trace|
    decreases n
  {
    if n == 0 then s else StateAt(Step(s, trace[0].0, trace[0].1), trace[1..], n - 1)
  }

  lemma {:induction false} StateAdvances(s: State, trace: Trace, n: nat)
    requires Runs(s, trace) && n < |trace|
    ensures Enabled(StateAt(s, trace, n), trace[n].0, trace[n].1)
    ensures StateAt(s, trace, n + 1) == Step(StateAt(s, trace, n), trace[n].0, trace[n].1)
    decreases n
  {
    if n > 0 {
      StateAdvances(Step(s, trace[0].0, trace[0].1), trace[1..], n - 1);
    }
  }

  lemma {:induction false} ReachableAt(s: State, trace: Trace, n: nat)
    requires Initial(s) && Runs(s, trace) && n <= |trace|
    ensures Reachable(StateAt(s, trace, n))
    decreases n
  {
    if n == 0 {
      InitialInv(s);
    } else {
      StateAdvances(s, trace, n - 1);
      ReachableAt(s, trace, n - 1);
      StepIsReachable(StateAt(s, trace, n - 1), trace[n - 1].0, trace[n - 1].1);
    }
  }

  // ----- Who is at work on which document

  /** The document whose close or finalizer thread `t` entered last among the first `n` actions. */
  function Entered(trace: Trace, n: nat, t: nat): Option<nat>
    requires n <= |trace|
  {
    if n == 0 then None
    else if trace[n - 1].0 == t && (trace[n - 1].1.EnterDocClose? || trace[n - 1].1.EnterFinalizer?) then
      Some(trace[n - 1].1.doc)
    else Entered(trace, n - 1, t)
  }

  /** Action `n` commits a close or a finalizer of document `d`. */
  predicate Commits(trace: Trace, n: nat, d: nat) {
    && n < |trace| && IsCommit(trace[n].1)
    && Entered(trace, n, trace[n].0) == Some(d)
  }

  predicate AtWork(pc: Pc) {
    pc.DocClosing? || pc.DocFreed? || pc.Finalizing? || pc.Finalized?
  }

  /** The thread works with the document's own handle, which is freed once native free succeeded. */
  predicate WorkOk(s: State, t: nat, entered: Option<nat>) {
    var pc := PcOf(s, t);
    && (AtWork(pc) ==>
          && entered == Some(pc.d) && pc.d < |s.docs|
          && (s.docs[pc.d].closed || s.docs[pc.d].handle == pc.handle))
    && (pc.DocFreed? || pc.Finalized? ==> pc.handle in s.freed)
  }

  /** What an action leaves to every thread: open documents' handles, and past frees. */
  predicate DocsMove(s: State, s': State) {
    && |s.docs| <= |s'.docs| && s.freed <= s'.freed
    && (forall d :: 0 <= d < |s.docs| ==>
          s'.docs[d].closed || (!s.docs[d].closed && s'.docs[d].handle == s.docs[d].handle))
  }

  lemma OtherStays(s: State, t: nat, a: Action, u: nat)
    requires Enabled(s, t, a) && u != t
    ensures PcOf(Step(s, t, a), u) == PcOf(s, u)
  {
  }

  lemma DocsStep(s: State, t: nat, a: Action)
    requires Enabled(s, t, a)
    ensures DocsMove(s, Step(s, t, a))
  {
  }

  lemma OwnWorkStep(s: State, t: nat, a: Action, entered: Option<nat>)
    requires Enabled(s, t, a) && WorkOk(s, t, entered)
    ensures WorkOk(Step(s, t, a), t, if a.EnterDocClose? || a.EnterFinalizer? then Some(a.doc) else entered)
  {
  }

  lemma OtherWorkStep(s: State, s': State, u: nat, entered: Option<nat>)
    requires DocsMove(s, s') && PcOf(s', u) == PcOf(s, u) && WorkOk(s, u, entered)
    ensures WorkOk(s', u, entered)
  {
  }

  lemma WorkStep(s: State, t: nat, a: Action, u: nat, entered: Option<nat>)
    requires Enabled(s, t, a) && WorkOk(s, u, entered)
    ensures WorkOk(Step(s, t, a), u, if u == t && (a.EnterDocClose? || a.EnterFinalizer?) then Some(a.doc) else entered)
  {
    if u == t {
      OwnWorkStep(s, t, a, entered);
    } else {
      OtherStays(s, t, a, u);
      DocsStep(s, t, a);
      OtherWorkStep(s, Step(s, t, a), u, entered);
    }
  }

  lemma {:induction false} WorkAt(s: State, trace: Trace, n: nat, t: nat)
    requires Initial(s) && Runs(s, trace) && n <= |trace|
    ensures WorkOk(StateAt(s, trace, n), t, Entered(trace, n, t))
    decreases n
  {
    if n > 0 {
      var (u, a) := trace[n - 1];
      StateAdvances(s, trace, n - 1);
      WorkAt(s, trace, n - 1, t);
      WorkStep(StateAt(s, trace, n - 1), u, a, t, Entered(trace, n - 1, t));
    }
  }

  // ----- One document

  predicate IsCommit(a: Action) {
    a.CommitDocClose? || a.CommitFinalizer?
  }

  /** A commit closes the document that its thread entered, whose handle has been freed, and no other. */
  lemma CommitStep(s: State, t: nat, a: Action, d: nat, entered: Option<nat>)
    requires Enabled(s, t, a) && IsCommit(a) && WorkOk(s, t, entered) && d < |s.docs|
    ensures var s' := Step(s, t, a);
            && d < |s'.docs| && s'.freed == s.freed
            && if entered == Some(d)
               then s'.docs[d].closed && s'.docs[d].handle == 0 && (s.docs[d].closed || s.docs[d].handle in s.freed)
               else s'.docs[d] == s.docs[d]
  {
  }

  /** Any other action leaves a document open or closed, with the handle it has. */
  lemma DocStays(s: State, t: nat, a: Action, d: nat)
    requires Enabled(s, t, a) && !IsCommit(a) && d < |s.docs|
    ensures var s' := Step(s, t, a);
            && d < |s'.docs| && s.freed <= s'.freed
            && s'.docs[d].closed == s.docs[d].closed && s'.docs[d].handle == s.docs[d].handle
  {
  }

  predicate CommittedIn(trace: Trace, d: nat, first: nat, until: nat) {
    exists i: nat :: first <= i < until && Commits(trace, i, d)
  }

  lemma CommittedStep(trace: Trace, d: nat, first: nat, m: nat)
    requires first <= m
    ensures CommittedIn(trace, d, first, m + 1) <==> CommittedIn(trace, d, first, m) || Commits(trace, m, d)
  {
  }

  /** From any time `k` at which the document was open: closed exactly since a commit, with its handle freed. */
  lemma {:induction false} DocSince(s: State, trace: Trace, d: nat, k: nat, n: nat)
    requires Initial(s) && Runs(s, trace) && k <= n <= |trace|
    requires d < |StateAt(s, trace, k).docs| && !StateAt(s, trace, k).docs[d].closed
    ensures var h, f := StateAt(s, trace, k).docs[d].handle, StateAt(s, trace, n);
            && d < |f.docs| && (f.docs[d].closed <==> CommittedIn(trace, d, k, n))
            && (f.docs[d].closed ==> f.docs[d].handle == 0 && h in f.freed)
            && (!f.docs[d].closed ==> f.docs[d].handle == h)
    decreases n
  {
    if k < n {
      var (t, a) := trace[n - 1];
      StateAdvances(s, trace, n - 1);
      DocSince(s, trace, d, k, n - 1);
      WorkAt(s, trace, n - 1, t);
      if IsCommit(a) {
        CommitStep(StateAt(s, trace, n - 1), t, a, d, Entered(trace, n - 1, t));
      } else {
        DocStays(StateAt(s, trace, n - 1), t, a, d);
      }
      CommittedStep(trace, d, k, n - 1);
    }
  }

  /**
   A document is closed exactly from the first commit of a close or finalizer of it on.  Its handle
   has then been freed once, never is live again, and every later native free of it fails.
   */
  lemma CommittedDocumentIsFreedOnce(s: State, trace: Trace, d: nat, k: nat, n: nat)
    requires Initial(s) && Runs(s, trace) && k <= n <= |trace|
    requires d < |StateAt(s, trace, k).docs| && !StateAt(s, trace, k).docs[d].closed
    ensures var h, f := StateAt(s, trace, k).docs[d].handle, StateAt(s, trace, n);
            && d < |f.docs| && (f.docs[d].closed <==> CommittedIn(trace, d, k, n))
            && (CommittedIn(trace, d, k, n) ==>
                  f.docs[d].handle == 0 && f.freed[h] == 1 && f.native != Busy(h) && !FreeSucceeds(f, h, true))
            && (!CommittedIn(trace, d, k, n) ==> f.docs[d].handle == h)
  {
    DocSince(s, trace, d, k, n);
    ReachableAt(s, trace, n);
  }

  /** A published document is open with the handle that native parse returned, behind the documents before it. */
  lemma PublishedDocumentIsOpen(s: State, trace: Trace, n: nat)
    requires Initial(s) && Runs(s, trace) && n < |trace| && trace[n].1.Publish?
    ensures var before, after := StateAt(s, trace, n), StateAt(s, trace, n + 1);
            && before.native == Busy(after.liveDoc) && after.native == before.native
            && after.docs == before.docs + [DocState(after.liveDoc, false, None)]
  {
    var f, t := StateAt(s, trace, n), trace[n].0;
    StateAdvances(s, trace, n);
    ReachableAt(s, trace, n);
    assert if Inv(f) then ThreadOk(f, t) else !PcOf(f, t).ParseGot?;
  }
}
