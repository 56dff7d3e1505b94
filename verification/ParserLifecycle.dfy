/**
 One parser and its documents, over all interleavings of Parse, Doc.Close, Parser.Close and any
 number of document finalizers.

 Every step is one atomic action of one thread: a stretch of code under `p.mu` or `d.mu`, or
 one native call.  `p.mu` and the document mutexes are held across native calls exactly where
 the Go code holds them; finalizers call native free without any mutex.  Native document
 handles are taken to be fresh, as the generation counters make them.
 */
module ParserLifecycle {
  import opened Basics

  // ----- State

  datatype Native = Idle | Busy(doc: nat) | Freed

  datatype DocState = DocState(handle: nat, closed: bool, mu: Option<nat>)

  datatype Pc =
    | Outside
    | ParseChecked
    | ParseGot(handle: nat)
    | CloseChecked
    | DocClosing(d: nat, handle: nat)
    | DocFreed(d: nat, handle: nat)
    | Finalizing(d: nat, handle: nat)
    | Finalized(d: nat, handle: nat)
    | Clearing(handle: nat)

  /**
   `liveDoc` is 0 when no document is marked.  `published` are the handles some Doc was given,
   `freed` counts successful native frees, and `orphaned` records that a document without a
   root could not be freed either.
   */
  datatype State = State(
    mu: Option<nat>,
    closed: bool,
    liveDoc: nat,
    docs: seq<DocState>,
    native: Native,
    next: nat,
    published: set<nat>,
    freed: multiset<nat>,
    orphaned: bool,
    pcs: map<nat, Pc>)

  function PcOf(s: State, t: nat): Pc {
    if t in s.pcs then s.pcs[t] else Outside
  }

  // ----- Native calls

  /** Native free of a document: an error for every handle that is not the live one. */
  predicate FreeSucceeds(s: State, handle: nat, ok: bool) {
    ok && s.native == Busy(handle)
  }

  function NativeFree(s: State, handle: nat): State {
    s.(native := Idle, freed := s.freed + multiset{handle})
  }

  // ----- Steps

  datatype Action =
    | EnterParse
    | NativeParse(ok: bool)
    | Publish
    | RootFails(ok: bool)
    | EnterClose
    | NativeClose(ok: bool)
    | EnterDocClose(doc: nat)
    | FreeInClose(ok: bool)
    | CommitDocClose
    | EnterFinalizer(doc: nat)
    | FreeInFinalizer(ok: bool)
    | CommitFinalizer
    | ClearLiveDoc

  predicate Enabled(s: State, t: nat, a: Action) {
    var pc := PcOf(s, t);
    match a
    case EnterParse => pc.Outside? && s.mu.None?
    case NativeParse(_) => pc.ParseChecked?
    case Publish => pc.ParseGot?
    case RootFails(_) => pc.ParseGot?
    case EnterClose => pc.Outside? && s.mu.None?
    case NativeClose(_) => pc.CloseChecked?
    case EnterDocClose(d) => pc.Outside? && d < |s.docs| && s.docs[d].mu.None?
    case FreeInClose(_) => pc.DocClosing? && pc.d < |s.docs|
    case CommitDocClose => pc.DocFreed? && pc.d < |s.docs|
    case EnterFinalizer(d) => pc.Outside? && d < |s.docs| && s.docs[d].mu.None?
    case FreeInFinalizer(_) => pc.Finalizing?
    case CommitFinalizer => pc.Finalized? && pc.d < |s.docs| && s.docs[pc.d].mu.None?
    case ClearLiveDoc => pc.Clearing? && s.mu.None?
  }

  function SetPc(s: State, t: nat, pc: Pc): State {
    s.(pcs := s.pcs[t := pc])
  }

  function SetDoc(s: State, d: nat, doc: DocState): State
    requires d < |s.docs|
  {
    s.(docs := s.docs[d := doc])
  }

  function Step(s: State, t: nat, a: Action): State
    requires Enabled(s, t, a)
  {
    var pc := PcOf(s, t);
    match a
    case EnterParse => if s.closed || s.liveDoc != 0 then s else SetPc(s, t, ParseChecked).(mu := Some(t))
    case NativeParse(ok) =>
      if ok && s.native.Idle? then SetPc(s, t, ParseGot(s.next)).(native := Busy(s.next), next := s.next + 1)
      else SetPc(s, t, Outside).(mu := None)
    case Publish =>
      SetPc(s, t, Outside).(mu := None, liveDoc := pc.handle, published := s.published + {pc.handle},
                            docs := s.docs + [DocState(pc.handle, false, None)])
    case RootFails(ok) =>
      var s' := SetPc(s, t, Outside).(mu := None);
      if FreeSucceeds(s, pc.handle, ok) then NativeFree(s', pc.handle) else s'.(orphaned := true)
    case EnterClose => if s.closed || s.liveDoc != 0 then s else SetPc(s, t, CloseChecked).(mu := Some(t))
    case NativeClose(ok) =>
      var s' := SetPc(s, t, Outside).(mu := None);
      if ok && s.native.Idle? then s'.(native := Freed, closed := true) else s'
    case EnterDocClose(d) =>
      if s.docs[d].closed then s
      else SetPc(SetDoc(s, d, s.docs[d].(mu := Some(t))), t, DocClosing(d, s.docs[d].handle))
    case FreeInClose(ok) =>
      if FreeSucceeds(s, pc.handle, ok) then SetPc(NativeFree(s, pc.handle), t, DocFreed(pc.d, pc.handle))
      else SetPc(SetDoc(s, pc.d, s.docs[pc.d].(mu := None)), t, Outside)
    case CommitDocClose => SetPc(SetDoc(s, pc.d, DocState(0, true, None)), t, Clearing(pc.handle))
    case EnterFinalizer(d) =>
      if s.docs[d].closed then s else SetPc(s, t, Finalizing(d, s.docs[d].handle))
    case FreeInFinalizer(ok) =>
      if FreeSucceeds(s, pc.handle, ok) then SetPc(NativeFree(s, pc.handle), t, Finalized(pc.d, pc.handle))
      else SetPc(s, t, Outside)
    case CommitFinalizer => SetPc(SetDoc(s, pc.d, DocState(0, true, None)), t, Clearing(pc.handle))
    case ClearLiveDoc => SetPc(s, t, Outside).(liveDoc := if s.liveDoc == pc.handle then 0 else s.liveDoc)
  }

  // ----- The invariant

  /** The thread holds `p.mu`. */
  predicate HoldsMu(pc: Pc) {
    pc.ParseChecked? || pc.ParseGot? || pc.CloseChecked?
  }

  /** The thread freed `handle` natively and has its mark still to clear. */
  predicate WillClear(pc: Pc, handle: nat) {
    (pc.DocFreed? || pc.Finalized? || pc.Clearing?) && pc.handle == handle
  }

  /** What every thread keeps, come what may: mutex ownership and handles that some Doc was given. */
  predicate ThreadShape(s: State, t: nat) {
    var pc := PcOf(s, t);
    && (HoldsMu(pc) <==> s.mu == Some(t))
    && (pc.DocClosing? || pc.DocFreed? || pc.Finalizing? || pc.Finalized? ==>
          pc.d < |s.docs| && pc.handle in s.published)
    && (pc.DocClosing? || pc.DocFreed? ==> s.docs[pc.d].mu == Some(t))
  }

  predicate ThreadOk(s: State, t: nat) {
    var pc := PcOf(s, t);
    && ThreadShape(s, t)
    && (HoldsMu(pc) ==> s.liveDoc == 0)
    && (pc.ParseChecked? || pc.CloseChecked? ==> s.native.Idle?)
    && (pc.ParseGot? ==> s.native == Busy(pc.handle) && pc.handle !in s.published)
    && (pc.DocFreed? || pc.Finalized? || pc.Clearing? ==> pc.handle in s.freed)
  }

  ghost predicate ThreadsOk(s: State) {
    forall t: nat :: ThreadOk(s, t)
  }

  predicate DocsOk(s: State) {
    forall d :: 0 <= d < |s.docs| ==> !s.docs[d].closed ==> s.docs[d].handle in s.published
  }

  predicate HandlesOk(s: State) {
    && s.next > 0
    && (forall h :: h in s.published ==> 0 < h < s.next)
    && (forall h :: h in s.freed ==> 0 < h < s.next && s.freed[h] == 1)
  }

  /** Who is busy: the live document is the marked one, or the parsing thread has yet to mark it. */
  ghost predicate NativeOk(s: State) {
    && (s.closed <==> s.native.Freed?)
    && (s.native.Busy? ==>
          && 0 < s.native.doc < s.next && s.native.doc !in s.freed
          && (s.liveDoc == s.native.doc || (s.mu.Some? && PcOf(s, s.mu.value) == ParseGot(s.native.doc))))
  }

  /** A marked document is live, or some thread that freed it will clear the mark. */
  ghost predicate MarkOk(s: State) {
    s.liveDoc != 0 ==>
      && s.liveDoc in s.published
      && (s.native == Busy(s.liveDoc) || exists t: nat :: WillClear(PcOf(s, t), s.liveDoc))
  }

  ghost predicate Inv(s: State) {
    !s.orphaned && ThreadsOk(s) && DocsOk(s) && HandlesOk(s) && NativeOk(s) && MarkOk(s)
  }

  /** After an orphaned document: open and unmarked, but natively busy with a handle no Doc was given. */
  ghost predicate Wedged(s: State) {
    && s.orphaned && !s.closed && s.liveDoc == 0 && DocsOk(s) && HandlesOk(s)
    && s.native.Busy? && 0 < s.native.doc < s.next && s.native.doc !in s.published && s.native.doc !in s.freed
    && forall t: nat :: ThreadShape(s, t) && !PcOf(s, t).ParseGot?
  }

  ghost predicate Reachable(s: State) {
    Inv(s) || Wedged(s)
  }

  predicate Initial(s: State) {
    && s.mu == None && !s.closed && s.liveDoc == 0 && s.docs == [] && s.native == Idle && s.next > 0
    && s.published == {} && s.freed == multiset{} && !s.orphaned && s.pcs == map[]
  }

  lemma InitialInv(s: State)
    requires Initial(s)
    ensures Inv(s)
  {
  }

  // ----- One step keeps it, unless it orphans a document

  lemma StepOwnThread(s: State, t: nat, a: Action)
    requires Inv(s) && Enabled(s, t, a) && !Step(s, t, a).orphaned
    ensures ThreadOk(Step(s, t, a), t)
  {
    assert ThreadOk(s, t);
  }

  /** Actions of Parse and Parser.Close. */
  predicate ParserAction(a: Action) {
    a.EnterParse? || a.NativeParse? || a.Publish? || a.RootFails? || a.EnterClose? || a.NativeClose?
  }

  lemma ParserStepOtherThread(s: State, t: nat, a: Action, u: nat)
    requires Inv(s) && Enabled(s, t, a) && !Step(s, t, a).orphaned && u != t && ParserAction(a)
    ensures ThreadOk(Step(s, t, a), u)
  {
    assert ThreadOk(s, t) && ThreadOk(s, u);
  }

  /** Actions of Doc.Close up to its commit. */
  predicate DocCloseAction(a: Action) {
    a.EnterDocClose? || a.FreeInClose? || a.CommitDocClose?
  }

  lemma DocCloseStepOtherThread(s: State, t: nat, a: Action, u: nat)
    requires Inv(s) && Enabled(s, t, a) && u != t && DocCloseAction(a)
    ensures ThreadOk(Step(s, t, a), u)
  {
    assert ThreadOk(s, t) && ThreadOk(s, u);
  }

  lemma FinalizerStepOtherThread(s: State, t: nat, a: Action, u: nat)
    requires Inv(s) && Enabled(s, t, a) && u != t && !ParserAction(a) && !DocCloseAction(a)
    ensures ThreadOk(Step(s, t, a), u)
  {
    assert ThreadOk(s, t) && ThreadOk(s, u);
  }

  lemma StepThreads(s: State, t: nat, a: Action)
    requires Inv(s) && Enabled(s, t, a) && !Step(s, t, a).orphaned
    ensures ThreadsOk(Step(s, t, a))
  {
    StepOwnThread(s, t, a);
    forall u: nat | u != t
      ensures ThreadOk(Step(s, t, a), u)
    {
      if ParserAction(a) {
        ParserStepOtherThread(s, t, a, u);
      } else if DocCloseAction(a) {
        DocCloseStepOtherThread(s, t, a, u);
      } else {
        FinalizerStepOtherThread(s, t, a, u);
      }
    }
  }

  lemma StepDocs(s: State, t: nat, a: Action)
    requires Inv(s) && Enabled(s, t, a) && !Step(s, t, a).orphaned
    ensures DocsOk(Step(s, t, a))
  {
    assert ThreadOk(s, t);
  }

  lemma StepHandles(s: State, t: nat, a: Action)
    requires Inv(s) && Enabled(s, t, a) && !Step(s, t, a).orphaned
    ensures HandlesOk(Step(s, t, a))
  {
    assert ThreadOk(s, t);
  }

  lemma StepNative(s: State, t: nat, a: Action)
    requires Inv(s) && Enabled(s, t, a) && !Step(s, t, a).orphaned
    ensures NativeOk(Step(s, t, a))
  {
    assert ThreadOk(s, t);
    if s.mu.Some? {
      assert ThreadOk(s, s.mu.value);
    }
  }

  lemma StepMark(s: State, t: nat, a: Action)
    requires Inv(s) && Enabled(s, t, a) && !Step(s, t, a).orphaned
    ensures MarkOk(Step(s, t, a))
  {
    var s' := Step(s, t, a);
    assert ThreadOk(s, t);
    if s'.liveDoc != 0 && s'.native != Busy(s'.liveDoc) {
      if a.FreeInClose? || a.FreeInFinalizer? {
        if s.native == Busy(s.liveDoc) {
          assert WillClear(PcOf(s', t), s'.liveDoc);
        }
      }
      if u: nat :| WillClear(PcOf(s, u), s.liveDoc) {
        assert WillClear(PcOf(s', u), s'.liveDoc);
      }
    }
  }

  lemma StepKeepsInv(s: State, t: nat, a: Action)
    requires Inv(s) && Enabled(s, t, a) && !Step(s, t, a).orphaned
    ensures Inv(Step(s, t, a))
  {
    StepThreads(s, t, a);
    StepDocs(s, t, a);
    StepHandles(s, t, a);
    StepNative(s, t, a);
    StepMark(s, t, a);
  }

  // ----- An orphaned document is forever

  lemma StepWedges(s: State, t: nat, a: Action)
    requires Inv(s) && Enabled(s, t, a) && Step(s, t, a).orphaned
    ensures Wedged(Step(s, t, a))
  {
    var s' := Step(s, t, a);
    assert ThreadOk(s, t) && a.RootFails?;
    forall u: nat
      ensures ThreadShape(s', u) && !PcOf(s', u).ParseGot?
    {
      assert ThreadOk(s, u);
    }
  }

  lemma WedgedThreads(s: State, t: nat, a: Action, u: nat)
    requires Wedged(s) && Enabled(s, t, a)
    ensures ThreadShape(Step(s, t, a), u) && !PcOf(Step(s, t, a), u).ParseGot?
  {
    assert ThreadShape(s, t) && ThreadShape(s, u);
  }

  lemma StepKeepsWedged(s: State, t: nat, a: Action)
    requires Wedged(s) && Enabled(s, t, a)
    ensures Wedged(Step(s, t, a))
  {
    assert ThreadShape(s, t);
    forall u: nat
      ensures ThreadShape(Step(s, t, a), u) && !PcOf(Step(s, t, a), u).ParseGot?
    {
      WedgedThreads(s, t, a, u);
    }
  }

  // ----- Runs

  type Trace = seq<(nat, Action)>

  predicate Runs(s: State, trace: Trace)
    decreases |trace|
  {
    trace == [] || (Enabled(s, trace[0].0, trace[0].1) && Runs(Step(s, trace[0].0, trace[0].1), trace[1..]))
  }

  function Final(s: State, trace: Trace): State
    requires Runs(s, trace)
    decreases |trace|
  {
    if trace == [] then s else Final(Step(s, trace[0].0, trace[0].1), trace[1..])
  }

  lemma StepIsReachable(s: State, t: nat, a: Action)
    requires Reachable(s) && Enabled(s, t, a)
    ensures Reachable(Step(s, t, a))
  {
    if Wedged(s) {
      StepKeepsWedged(s, t, a);
    } else if Step(s, t, a).orphaned {
      StepWedges(s, t, a);
    } else {
      StepKeepsInv(s, t, a);
    }
  }

  lemma {:induction false} RunIsReachable(s: State, trace: Trace)
    requires Reachable(s) && Runs(s, trace)
    ensures Reachable(Final(s, trace))
    decreases |trace|
  {
    if trace != [] {
      StepIsReachable(s, trace[0].0, trace[0].1);
      RunIsReachable(Step(s, trace[0].0, trace[0].1), trace[1..]);
    }
  }

  lemma InitialRun(s: State, trace: Trace)
    requires Initial(s) && Runs(s, trace)
    ensures Reachable(Final(s, trace))
  {
    InitialInv(s);
    RunIsReachable(s, trace);
  }

  /** Some document of the run had neither a root nor a successful native free. */
  predicate RootAndFreeFailed(trace: Trace) {
    trace != [] && (trace[0].1 == RootFails(false) || RootAndFreeFailed(trace[1..]))
  }

  lemma OrphanedStep(s: State, t: nat, a: Action)
    requires Reachable(s) && Enabled(s, t, a)
    ensures Step(s, t, a).orphaned <==> s.orphaned || a == RootFails(false)
  {
    assert if Inv(s) then ThreadOk(s, t) else !PcOf(s, t).ParseGot?;
  }

  lemma {:induction false} OrphanedIffRootAndFreeFailed(s: State, trace: Trace)
    requires Reachable(s) && Runs(s, trace)
    ensures Final(s, trace).orphaned <==> s.orphaned || RootAndFreeFailed(trace)
    decreases |trace|
  {
    if trace != [] {
      var s' := Step(s, trace[0].0, trace[0].1);
      StepIsReachable(s, trace[0].0, trace[0].1);
      OrphanedStep(s, trace[0].0, trace[0].1);
      OrphanedIffRootAndFreeFailed(s', trace[1..]);
    }
  }

  // ----- What every run promises

  /**
   An open, unmarked parser whose mutex is free is natively idle if and only if no root lookup
   of the run failed together with the free that follows it.
   */
  lemma UnmarkedParserIsIdle(s: State, trace: Trace)
    requires Initial(s) && Runs(s, trace)
    ensures var f := Final(s, trace);
            && (f.orphaned <==> RootAndFreeFailed(trace))
            && (f.mu == None && !f.closed && f.liveDoc == 0 ==> (f.native.Idle? <==> !RootAndFreeFailed(trace)))
  {
    InitialRun(s, trace);
    OrphanedIffRootAndFreeFailed(s, trace);
  }

  /** Whenever native parse or parser-free is called, the parser is idle if and only if no document was orphaned. */
  lemma NativeBusyNeverReachesGo(s: State, trace: Trace, t: nat, a: Action)
    requires Initial(s) && Runs(s, trace) && Enabled(Final(s, trace), t, a) && (a.NativeParse? || a.NativeClose?)
    ensures Final(s, trace).native.Idle? <==> !Final(s, trace).orphaned
    ensures !Final(s, trace).native.Freed?
  {
    InitialRun(s, trace);
    assert Inv(Final(s, trace)) ==> ThreadOk(Final(s, trace), t);
  }

  /** However late it comes, clearing a mark leaves the mark of a live document alone. */
  lemma ClearKeepsLiveMark(s: State, trace: Trace, t: nat)
    requires Initial(s) && Runs(s, trace) && Enabled(Final(s, trace), t, ClearLiveDoc)
    ensures var f := Final(s, trace);
            f.native == Busy(f.liveDoc) ==> Step(f, t, ClearLiveDoc).liveDoc == f.liveDoc
  {
    InitialRun(s, trace);
    assert Inv(Final(s, trace)) ==> ThreadOk(Final(s, trace), t);
  }

  /** Two closes of the same document never overlap, whatever finalizers do meanwhile. */
  lemma ClosesExcludeEachOther(s: State, trace: Trace, t: nat, u: nat)
    requires Initial(s) && Runs(s, trace)
    requires var f := Final(s, trace);
             && (PcOf(f, t).DocClosing? || PcOf(f, t).DocFreed?) && (PcOf(f, u).DocClosing? || PcOf(f, u).DocFreed?)
             && PcOf(f, t).d == PcOf(f, u).d
    ensures t == u
  {
    InitialRun(s, trace);
    var f := Final(s, trace);
    assert Inv(f) ==> ThreadOk(f, t) && ThreadOk(f, u);
    assert ThreadShape(f, t) && ThreadShape(f, u);
  }

  /** No handle is freed successfully twice. */
  lemma FreedAtMostOnce(s: State, trace: Trace, handle: nat)
    requires Initial(s) && Runs(s, trace)
    ensures Final(s, trace).freed[handle] <= 1
  {
    InitialRun(s, trace);
    assert handle in Final(s, trace).freed || Final(s, trace).freed[handle] == 0;
  }

  /** When no call is under way, mark and native state say the same if and only if no document was orphaned. */
  lemma QuietMarkIsExact(s: State, trace: Trace)
    requires Initial(s) && Runs(s, trace)
    requires forall t: nat :: PcOf(Final(s, trace), t).Outside?
    ensures var f := Final(s, trace);
            && (!f.orphaned <==> (f.liveDoc != 0 <==> f.native.Busy?))
            && (f.liveDoc != 0 ==> f.native == Busy(f.liveDoc))
            && (f.closed <==> f.native.Freed?)
  {
    InitialRun(s, trace);
    var f := Final(s, trace);
    if f.mu.Some? && Inv(f) {
      assert ThreadOk(f, f.mu.value);
    }
  }

  /** Were a document without a root not freed, the unmarked parser would be busy natively. */
  lemma OrphanedDocumentStaysBusy(s: State) returns (trace: Trace)
    requires Initial(s)
    ensures Runs(s, trace)
    ensures var f := Final(s, trace); f.mu == None && !f.closed && f.liveDoc == 0 && f.native.Busy?
  {
    var s1 := Step(s, 0, EnterParse);
    assert PcOf(s1, 0) == ParseChecked && s1.native == Idle;
    var s2 := Step(s1, 0, NativeParse(true));
    assert PcOf(s2, 0) == ParseGot(s.next) && s2.native == Busy(s.next) && s2.liveDoc == 0;
    trace := [];
    trace := RunCons(s2, 0, RootFails(false), trace);
    trace := RunCons(s1, 0, NativeParse(true), trace);
    trace := RunCons(s, 0, EnterParse, trace);
  }

  lemma RunCons(s: State, t: nat, a: Action, rest: Trace) returns (trace: Trace)
    requires Enabled(s, t, a) && Runs(Step(s, t, a), rest)
    ensures Runs(s, trace) && Final(s, trace) == Final(Step(s, t, a), rest)
  {
    trace := [(t, a)] + rest;
    assert trace[1..] == rest;
  }

  // ----- One call at a time

  /** What calls leave behind: the Go fields of the parser and the native state they talk about. */
  datatype Marks = Marks(closed: bool, liveDoc: nat, native: Native, next: nat)

  function MarksOf(s: State): Marks {
    Marks(s.closed, s.liveDoc, s.native, s.next)
  }

  function AfterParse(m: Marks, parseOk: bool, rootOk: bool, freeOk: bool): Marks {
    if m.closed || m.liveDoc != 0 || !m.native.Idle? || !parseOk then m
    else if rootOk then m.(native := Busy(m.next), next := m.next + 1, liveDoc := m.next)
    else m.(native := if freeOk then Native.Idle else Busy(m.next), next := m.next + 1)
  }

  function AfterClose(m: Marks, freeOk: bool): Marks {
    if m.closed || m.liveDoc != 0 || !m.native.Idle? || !freeOk then m else m.(native := Freed, closed := true)
  }

  function AfterDocClose(m: Marks, handle: nat, freeOk: bool): Marks {
    if m.native != Busy(handle) || !freeOk then m
    else m.(native := Native.Idle, liveDoc := if m.liveDoc == handle then 0 else m.liveDoc)
  }

  /** A parse that no other thread interferes with. */
  lemma ParseAlone(s: State, t: nat, parseOk: bool, rootOk: bool, freeOk: bool) returns (trace: Trace)
    requires PcOf(s, t).Outside? && s.mu == None
    ensures Runs(s, trace) && MarksOf(Final(s, trace)) == AfterParse(MarksOf(s), parseOk, rootOk, freeOk)
    ensures var parses := !s.closed && s.liveDoc == 0 && s.native.Idle? && parseOk;
            && Final(s, trace).mu == None && PcOf(Final(s, trace), t).Outside?
            && Final(s, trace).docs == if parses && rootOk then s.docs + [DocState(s.next, false, None)] else s.docs
  {
    trace := [];
    if !s.closed && s.liveDoc == 0 {
      var s1 := Step(s, t, EnterParse);
      assert PcOf(s1, t) == ParseChecked;
      var s2 := Step(s1, t, NativeParse(parseOk));
      if parseOk && s.native.Idle? {
        assert PcOf(s2, t) == ParseGot(s.next);
        trace := RunCons(s2, t, if rootOk then Publish else RootFails(freeOk), trace);
      }
      trace := RunCons(s1, t, NativeParse(parseOk), trace);
    }
    trace := RunCons(s, t, EnterParse, trace);
  }

  lemma CloseAlone(s: State, t: nat, freeOk: bool) returns (trace: Trace)
    requires PcOf(s, t).Outside? && s.mu == None
    ensures Runs(s, trace) && MarksOf(Final(s, trace)) == AfterClose(MarksOf(s), freeOk)
  {
    trace := [];
    if !s.closed && s.liveDoc == 0 {
      var s1 := Step(s, t, EnterClose);
      assert PcOf(s1, t) == CloseChecked;
      trace := RunCons(s1, t, NativeClose(freeOk), trace);
    }
    trace := RunCons(s, t, EnterClose, trace);
  }

  /** A document's state after its close or finalizer: closed and without handle exactly if native free succeeds. */
  predicate ReleasedIf(s: State, f: State, d: nat, freeOk: bool)
    requires d < |s.docs|
  {
    f.docs == if freeOk && s.native == Busy(s.docs[d].handle) then s.docs[d := DocState(0, true, None)] else s.docs
  }

  /** The second half of a close or a finalizer: closing the document, then clearing its mark. */
  lemma ReleaseAlone(s: State, t: nat, d: nat, handle: nat, commit: Action) returns (trace: Trace)
    requires s.mu == None && d < |s.docs| && Enabled(s, t, commit)
    requires || (PcOf(s, t) == DocFreed(d, handle) && commit == CommitDocClose)
             || (PcOf(s, t) == Finalized(d, handle) && commit == CommitFinalizer)
    ensures Runs(s, trace) && PcOf(Final(s, trace), t).Outside?
    ensures Final(s, trace).docs == s.docs[d := DocState(0, true, None)]
    ensures MarksOf(Final(s, trace)) == MarksOf(s).(liveDoc := if s.liveDoc == handle then 0 else s.liveDoc)
  {
    var s' := Step(s, t, commit);
    assert PcOf(s', t) == Clearing(handle);
    trace := RunCons(s', t, ClearLiveDoc, []);
    trace := RunCons(s, t, commit, trace);
  }

  lemma DocCloseAlone(s: State, t: nat, d: nat, freeOk: bool) returns (trace: Trace)
    requires PcOf(s, t).Outside? && s.mu == None && d < |s.docs| && s.docs[d].mu == None && !s.docs[d].closed
    ensures Runs(s, trace) && MarksOf(Final(s, trace)) == AfterDocClose(MarksOf(s), s.docs[d].handle, freeOk)
    ensures ReleasedIf(s, Final(s, trace), d, freeOk) && PcOf(Final(s, trace), t).Outside?
  {
    trace := [];
    var handle := s.docs[d].handle;
    var s1 := Step(s, t, EnterDocClose(d));
    assert PcOf(s1, t) == DocClosing(d, handle);
    var s2 := Step(s1, t, FreeInClose(freeOk));
    if FreeSucceeds(s1, handle, freeOk) {
      assert PcOf(s2, t) == DocFreed(d, handle);
      trace := ReleaseAlone(s2, t, d, handle, CommitDocClose);
    }
    trace := RunCons(s1, t, FreeInClose(freeOk), trace);
    trace := RunCons(s, t, EnterDocClose(d), trace);
  }

  /** A finalizer that no other thread interferes with does what closing the document does. */
  lemma FinalizerAlone(s: State, t: nat, d: nat, freeOk: bool) returns (trace: Trace)
    requires PcOf(s, t).Outside? && s.mu == None && d < |s.docs| && s.docs[d].mu == None && !s.docs[d].closed
    ensures Runs(s, trace) && MarksOf(Final(s, trace)) == AfterDocClose(MarksOf(s), s.docs[d].handle, freeOk)
    ensures ReleasedIf(s, Final(s, trace), d, freeOk) && PcOf(Final(s, trace), t).Outside?
  {
    trace := [];
    var handle := s.docs[d].handle;
    var s1 := Step(s, t, EnterFinalizer(d));
    assert PcOf(s1, t) == Finalizing(d, handle);
    var s2 := Step(s1, t, FreeInFinalizer(freeOk));
    if FreeSucceeds(s1, handle, freeOk) {
      assert PcOf(s2, t) == Finalized(d, handle);
      trace := ReleaseAlone(s2, t, d, handle, CommitFinalizer);
    }
    trace := RunCons(s1, t, FreeInFinalizer(freeOk), trace);
    trace := RunCons(s, t, EnterFinalizer(d), trace);
  }

  // ----- The Go objects

  datatype GoError = ErrClosed | ErrParserBusy | ErrNative(rc: Status) | ErrJoined(rc: Status, freeRc: Status)

  /** What native code answers when the parser is not idle. */
  function NotIdle(native: Native): Status
    requires !native.Idle?
  {
    if native.Busy? then ParserBusy else InvalidHandle
  }

  class Parser {
    var closed: bool
    var liveDoc: nat
    var native: Native
    var next: nat

    constructor ()
      ensures Quiet() && !closed && liveDoc == 0
    {
      closed, liveDoc, native, next := false, 0, Native.Idle, 1;
    }

    ghost function Now(): Marks
      reads this
    {
      Marks(closed, liveDoc, native, next)
    }

    /** The mark says exactly what the native parser is doing. */
    ghost predicate Quiet()
      reads this
    {
      && 0 < next && liveDoc < next && (closed ==> liveDoc == 0)
      && native == if closed then Freed else if liveDoc == 0 then Native.Idle else Busy(liveDoc)
    }

    /** `rc` is what native parsing makes of the input, should it come to that. */
    method NativeParserParse(rc: Status) returns (r: Result<nat, Status>)
      modifies this`native, this`next
      ensures !old(native).Idle? ==> r == Err(NotIdle(old(native)))
      ensures old(native).Idle? ==> r == if rc == StatusOk then Ok(old(next)) else Err(rc)
      ensures r.Ok? ==> native == Busy(old(next)) && next == old(next) + 1
      ensures r.Err? ==> native == old(native) && next == old(next)
    {
      if native.Busy? {
        return Err(ParserBusy);
      } else if native.Freed? {
        return Err(InvalidHandle);
      } else if rc != StatusOk {
        return Err(rc);
      }
      r := Ok(next);
      native, next := Busy(next), next + 1;
    }

    method NativeParserFree(freeRc: Status) returns (rc: Status)
      modifies this`native
      ensures rc == if old(native).Idle? then freeRc else NotIdle(old(native))
      ensures native == if old(native).Idle? && freeRc == StatusOk then Freed else old(native)
    {
      if native.Busy? {
        return ParserBusy;
      } else if native.Freed? {
        return InvalidHandle;
      }
      if freeRc == StatusOk {
        native := Freed;
      }
      return freeRc;
    }

    method NativeDocFree(handle: nat, freeRc: Status) returns (rc: Status)
      modifies this`native
      ensures rc == if old(native) == Busy(handle) then freeRc else InvalidHandle
      ensures native == if rc == StatusOk then Native.Idle else old(native)
    {
      if native != Busy(handle) {
        return InvalidHandle;
      }
      if freeRc == StatusOk {
        native := Native.Idle;
      }
      return freeRc;
    }

    /**
     A new document exactly when the parser is open, unmarked and natively idle and parse and
     root lookup succeed.  Only a failed root lookup whose free fails too spoils a quiet parser.
     */
    method Parse(parseRc: Status, rootRc: Status, freeRc: Status) returns (r: Result<Doc, GoError>)
      modifies this
      ensures Now() == AfterParse(old(Now()), parseRc == StatusOk, rootRc == StatusOk, freeRc == StatusOk)
      ensures r.Ok? ==> fresh(r.value) && r.value.parser == this && !r.value.closed && r.value.handle == liveDoc
      ensures if old(closed) then r == Err(ErrClosed)
              else if old(liveDoc) != 0 then r == Err(ErrParserBusy)
              else if !old(native).Idle? then r == Err(ErrNative(NotIdle(old(native))))
              else if parseRc != StatusOk then r == Err(ErrNative(parseRc))
              else if rootRc == StatusOk then r.Ok?
              else r == Err(if freeRc == StatusOk then ErrNative(rootRc) else ErrJoined(rootRc, freeRc))
      ensures old(Quiet()) ==> (!Quiet() <==> r.Err? && r.error.ErrJoined?)
    {
      if closed {
        return Err(ErrClosed);
      }
      if liveDoc != 0 {
        return Err(ErrParserBusy);
      }
      var parsed := NativeParserParse(parseRc);
      if parsed.Err? {
        return Err(ErrNative(parsed.error));
      }
      if rootRc != StatusOk {
        var freed := NativeDocFree(parsed.value, freeRc);
        return Err(if freed == StatusOk then ErrNative(rootRc) else ErrJoined(rootRc, freed));
      }
      var doc := new Doc(this, parsed.value);
      liveDoc := parsed.value;
      return Ok(doc);
    }

    /** Closes an unmarked parser, refuses a marked one, and is idempotent. */
    method Close(freeRc: Status) returns (r: Option<GoError>)
      modifies this
      ensures Now() == AfterClose(old(Now()), freeRc == StatusOk)
      ensures if old(closed) then r == None
              else if old(liveDoc) != 0 then r == Some(ErrParserBusy)
              else if !old(native).Idle? then r == Some(ErrNative(NotIdle(old(native))))
              else r == if freeRc == StatusOk then None else Some(ErrNative(freeRc))
      ensures old(Quiet()) ==> Quiet()
    {
      if closed {
        return None;
      }
      if liveDoc != 0 {
        return Some(ErrParserBusy);
      }
      var rc := NativeParserFree(freeRc);
      if rc != StatusOk {
        return Some(ErrNative(rc));
      }
      closed, liveDoc := true, 0;
      return None;
    }

    method ClearLiveDoc(doc: nat)
      modifies this`liveDoc
      ensures liveDoc == if old(liveDoc) == doc then 0 else old(liveDoc)
    {
      if liveDoc == doc {
        liveDoc := 0;
      }
    }
  }

  class Doc {
    const parser: Parser
    var handle: nat
    var closed: bool

    constructor (parser: Parser, handle: nat)
      ensures this.parser == parser && this.handle == handle && !closed
    {
      this.parser, this.handle, closed := parser, handle, false;
    }

    /** Frees the document and clears its parser's mark, or reports why native free failed; idempotent. */
    method Close(freeRc: Status) returns (r: Option<Status>)
      modifies this, parser
      ensures old(closed) ==>
                r == None && closed && handle == old(handle) && parser.Now() == old(parser.Now())
      ensures !old(closed) ==>
                && parser.Now() == AfterDocClose(old(parser.Now()), old(handle), freeRc == StatusOk)
                && var rc := if old(parser.native) == Busy(old(handle)) then freeRc else InvalidHandle;
                   if rc == StatusOk then r == None && closed && handle == 0
                   else r == Some(rc) && !closed && handle == old(handle)
      ensures old(parser.Quiet()) && (old(closed) || old(handle) != 0) ==> parser.Quiet()
    {
      if closed {
        return None;
      }
      var was := handle;
      var rc := parser.NativeDocFree(was, freeRc);
      if rc != StatusOk {
        return Some(rc);
      }
      closed, handle := true, 0;
      parser.ClearLiveDoc(was);
      return None;
    }
  }
}
