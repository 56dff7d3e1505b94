/**
 The registry accepts what it handed out and nothing else: over any run, a view that resolves
 and an iterator that is accepted were replies of earlier calls, bit for bit.
 */
module Issued {
  import opened Basics
  import opened Tape
  import opened Handles
  import opened RegistrySpec
  import opened RegistryRuns

  // ----- Views

  /** Equal up to the kind hint, which the registry never reads. */
  predicate SameView(a: ValueView, b: ValueView) {
    a.doc == b.doc && a.state0 == b.state0 && a.state1 == b.state1 && a.reserved == b.reserved
  }

  /** The view of the root of a document that `op` creates. */
  ghost predicate CreatesRoot(s: State, op: Op, view: ValueView)
    requires Inv(s) && NativeSideOk(s, op)
  {
    && op.OpParse? && Parse(s, op.handle, op.input, op.native).1 == Ok(view.doc)
    && view.state1 == ROOT_VIEW_TAG && view.reserved == 0
    && var out := op.native.parse(op.input + Zeros(op.native.padding), |op.input|);
       out.Parsed? && view.state0 == out.rootPtr
  }

  /** The reply of `op` contains the view, or `op` creates the document whose root it is. */
  ghost predicate HandsOutView(s: State, op: Op, view: ValueView)
    requires Inv(s) && NativeSideOk(s, op)
  {
    match op
    case OpParse(_, _, _) => CreatesRoot(s, op, view)
    case OpDescend(from, kind, found) =>
      && Descend(s, from, kind, found).1.Ok?
      && view.doc == from.doc && view.state1 == DESC_VIEW_TAG && view.reserved == 0 && view.state0 in found.value
    case OpNextIter(iter, tag) =>
      var r := NextIter(s, iter, tag).1;
      && r.Ok? && !r.value.Done?
      && (SameView(view, r.value.value) || (r.value.NextField? && SameView(view, r.value.key)))
    case _ => false
  }

  /** A handle names one slot and generation, and each of these has one handle. */
  lemma HandleIsUnique(s: State, a: u64, b: u64)
    requires FindDoc(s, a).Some? && FindDoc(s, a) == FindDoc(s, b)
    ensures a == b
  {
    PackedUnpacks(a);
    PackedUnpacks(b);
  }

  lemma ParseResolvesNothingElse(s: State, op: Op, view: ValueView)
    requires Inv(s) && NativeSideOk(s, op) && op.OpParse? && ResolveView(Step(s, op), view).Some?
    ensures ResolveView(s, view) == ResolveView(Step(s, op), view) || CreatesRoot(s, op, view)
  {
    var (s', r) := Parse(s, op.handle, op.input, op.native);
    if r.Ok? && s'.docs != s.docs {
      NewDocHandleIsLive(s, op.handle, op.input, op.native);
      if FindDoc(s', view.doc) == FindDoc(s', r.value) {
        HandleIsUnique(s', view.doc, r.value);
      }
    }
  }

  lemma FreeDocResolvesNothingElse(s: State, op: Op, view: ValueView)
    requires Inv(s) && NativeSideOk(s, op) && op.OpFreeDoc? && ResolveView(Step(s, op), view).Some?
    ensures ResolveView(s, view) == ResolveView(Step(s, op), view)
  {
    if FindDoc(s, op.handle).Some? {
      assert DocSlotOk(s, FindDoc(s, op.handle).value);
    }
  }

  lemma DescendResolvesNothingElse(s: State, op: Op, view: ValueView)
    requires Inv(s) && NativeSideOk(s, op) && op.OpDescend? && ResolveView(Step(s, op), view).Some?
    ensures ResolveView(s, view) == ResolveView(Step(s, op), view) || HandsOutView(s, op, view)
  {
    var s' := Step(s, op);
    if ResolveView(s, op.view).Some? {
      ResolvedIndexIsStart(s, op.view);
      if FindDoc(s', view.doc) == FindDoc(s', op.view.doc) {
        HandleIsUnique(s', view.doc, op.view.doc);
      }
    }
  }

  lemma NextIterResolvesNothingElse(s: State, op: Op, view: ValueView)
    requires Inv(s) && NativeSideOk(s, op) && op.OpNextIter? && ResolveView(Step(s, op), view).Some?
    ensures ResolveView(s, view) == ResolveView(Step(s, op), view) || HandsOutView(s, op, view)
  {
    var s' := Step(s, op);
    if FindLease(s, op.iter, op.tag).Some? && op.iter.state0 != op.iter.state1 {
      LeaseChildIsStart(s, op.iter, op.tag);
      if FindDoc(s', view.doc) == FindDoc(s', op.iter.doc) {
        HandleIsUnique(s', view.doc, op.iter.doc);
      }
    }
  }

  lemma StepResolvesNothingElse(s: State, op: Op, view: ValueView)
    requires Inv(s) && NativeSideOk(s, op) && ResolveView(Step(s, op), view).Some?
    ensures ResolveView(s, view) == ResolveView(Step(s, op), view) || HandsOutView(s, op, view)
  {
    match op
    case OpParse(_, _, _) => ParseResolvesNothingElse(s, op, view);
    case OpFreeDoc(_, _) => FreeDocResolvesNothingElse(s, op, view);
    case OpDescend(_, _, _) => DescendResolvesNothingElse(s, op, view);
    case OpNextIter(_, _) => NextIterResolvesNothingElse(s, op, view);
    case _ =>
  }

  ghost predicate HandedOutView(s: State, ops: seq<Op>, view: ValueView)
    requires Inv(s) && Runs(s, ops)
    decreases |ops|
  {
    ops != [] && (HandsOutView(s, ops[0], view) || HandedOutView(Step(s, ops[0]), ops[1..], view))
  }

  lemma {:induction false} ResolvingViewWasHandedOut(s: State, ops: seq<Op>, view: ValueView)
    requires Inv(s) && Runs(s, ops) && ResolveView(s, view).None? && ResolveView(Final(s, ops), view).Some?
    ensures HandedOutView(s, ops, view)
    decreases |ops|
  {
    var s' := Step(s, ops[0]);
    if ResolveView(s', view).Some? {
      StepResolvesNothingElse(s, ops[0], view);
    } else {
      ResolvingViewWasHandedOut(s', ops[1..], view);
    }
  }

  /** From the empty registry on, only views that were handed out resolve. */
  lemma OnlyIssuedViewsResolve(ops: seq<Op>, view: ValueView)
    requires Runs(EMPTY, ops) && ResolveView(Final(EMPTY, ops), view).Some?
    ensures HandedOutView(EMPTY, ops, view)
  {
    ResolvingViewWasHandedOut(EMPTY, ops, view);
  }

  lemma CreatedRootResolves(s: State, op: Op, view: ValueView)
    requires Inv(s) && NativeSideOk(s, op) && CreatesRoot(s, op, view)
    ensures ResolveView(Step(s, op), view).Some?
  {
    NewDocHandleIsLive(s, op.handle, op.input, op.native);
  }

  lemma SteppedViewResolves(s: State, op: Op, view: ValueView)
    requires Inv(s) && NativeSideOk(s, op) && op.OpNextIter? && HandsOutView(s, op, view)
    ensures ResolveView(Step(s, op), view).Some?
  {
    LeaseChildIsStart(s, op.iter, op.tag);
    var d := FindLease(s, op.iter, op.tag).value;
    assert DocSlotOk(s, d);
    NodeIsStart(s.docs[d].entry.tape, view.state0);
  }

  lemma HandedOutViewResolves(s: State, op: Op, view: ValueView)
    requires Inv(s) && NativeSideOk(s, op) && HandsOutView(s, op, view)
    ensures ResolveView(Step(s, op), view).Some?
  {
    if op.OpParse? {
      CreatedRootResolves(s, op, view);
    } else if op.OpDescend? {
      DescendedViewsResolve(s, op.view, op.kind, op.found, view.state0);
    } else {
      SteppedViewResolves(s, op, view);
    }
  }

  /** And a view that was handed out resolves, always to the same element, until its document is freed. */
  lemma IssuedViewsKeepResolving(s: State, op: Op, view: ValueView, ops: seq<Op>)
    requires Inv(s) && NativeSideOk(s, op) && HandsOutView(s, op, view) && Runs(Step(s, op), ops)
    requires ResolveView(Step(s, op), view).Some? ==>
               DocFrees(Step(s, op), ops, ResolveView(Step(s, op), view).value.0) == 0
    ensures ResolveView(Step(s, op), view).Some?
    ensures ResolveView(Final(Step(s, op), ops), view) == ResolveView(Step(s, op), view)
  {
    HandedOutViewResolves(s, op, view);
    var s1 := Step(s, op);
    LiveDocIsUnchanged(s1, ops, ResolveView(s1, view).value.0);
    assert DocSlotOk(s1, ResolveView(s1, view).value.0);
    assert DocSlotOk(Final(s1, ops), ResolveView(s1, view).value.0);
  }

  // ----- Iterators

  ghost predicate HandsOutIter(s: State, op: Op, iter: IterView)
    requires Inv(s) && NativeSideOk(s, op)
  {
    match op
    case OpNewIter(view, tag) => NewIter(s, view, tag).1 == Ok(iter)
    case OpNextIter(earlier, tag) =>
      var r := NextIter(s, earlier, tag).1;
      r.Ok? && !r.value.Done? && r.value.iter == iter
    case _ => false
  }

  lemma NewIterAcceptsNothingElse(s: State, op: Op, iter: IterView, tag: u16)
    requires Inv(s) && NativeSideOk(s, op) && op.OpNewIter? && FindLease(Step(s, op), iter, tag).Some?
    ensures FindLease(s, iter, tag).Some? || HandsOutIter(s, op, iter)
  {
    var s' := Step(s, op);
    if NewIter(s, op.view, op.tag).1.Ok? {
      ResolvedIndexIsStart(s, op.view);
      if FindDoc(s', iter.doc) == FindDoc(s', op.view.doc) {
        HandleIsUnique(s', iter.doc, op.view.doc);
      }
    }
  }

  lemma NextIterAcceptsNothingElse(s: State, op: Op, iter: IterView, tag: u16)
    requires Inv(s) && NativeSideOk(s, op) && op.OpNextIter? && FindLease(Step(s, op), iter, tag).Some?
    ensures FindLease(s, iter, tag).Some? || HandsOutIter(s, op, iter)
  {
    var s' := Step(s, op);
    if FindLease(s, op.iter, op.tag).Some? && op.iter.state0 != op.iter.state1 {
      LeaseChildIsStart(s, op.iter, op.tag);
      if FindDoc(s', iter.doc) == FindDoc(s', op.iter.doc) {
        HandleIsUnique(s', iter.doc, op.iter.doc);
      }
    }
  }

  lemma OtherStepAcceptsNothingElse(s: State, op: Op, iter: IterView, tag: u16)
    requires Inv(s) && NativeSideOk(s, op) && !op.OpNewIter? && !op.OpNextIter?
    requires FindLease(Step(s, op), iter, tag).Some?
    ensures FindLease(s, iter, tag).Some?
  {
    var d := FindLease(Step(s, op), iter, tag).value;
    if d < |s.docs| {
      assert DocSlotOk(s, d);
    }
    if op.OpFreeDoc? && FindDoc(s, op.handle).Some? {
      assert DocSlotOk(s, FindDoc(s, op.handle).value);
    }
  }

  ghost predicate HandedOutIter(s: State, ops: seq<Op>, iter: IterView)
    requires Inv(s) && Runs(s, ops)
    decreases |ops|
  {
    ops != [] && (HandsOutIter(s, ops[0], iter) || HandedOutIter(Step(s, ops[0]), ops[1..], iter))
  }

  lemma {:induction false} AcceptedIterWasHandedOut(s: State, ops: seq<Op>, iter: IterView, tag: u16)
    requires Inv(s) && Runs(s, ops) && FindLease(s, iter, tag).None? && FindLease(Final(s, ops), iter, tag).Some?
    ensures HandedOutIter(s, ops, iter)
    decreases |ops|
  {
    var s' := Step(s, ops[0]);
    if FindLease(s', iter, tag).None? {
      AcceptedIterWasHandedOut(s', ops[1..], iter, tag);
    } else if ops[0].OpNewIter? {
      NewIterAcceptsNothingElse(s, ops[0], iter, tag);
    } else if ops[0].OpNextIter? {
      NextIterAcceptsNothingElse(s, ops[0], iter, tag);
    } else {
      OtherStepAcceptsNothingElse(s, ops[0], iter, tag);
    }
  }

  /** From the empty registry on, only iterator structs that were handed out are accepted, bit for bit. */
  lemma OnlyIssuedItersAreAccepted(ops: seq<Op>, iter: IterView, tag: u16)
    requires Runs(EMPTY, ops) && FindLease(Final(EMPTY, ops), iter, tag).Some?
    ensures HandedOutIter(EMPTY, ops, iter)
  {
    AcceptedIterWasHandedOut(EMPTY, ops, iter, tag);
  }
}
