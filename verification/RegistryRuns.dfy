/**
 Whole runs of the registry: any sequence of calls, in any order, with any arguments.
 */
module RegistryRuns {
  import opened Basics
  import opened Tape
  import opened Handles
  import opened RegistrySpec

  datatype Op =
    | OpNewParser(maxCapacity: u64, maxDepth: u32)
    | OpFreeParser(handle: u64, nativeRc: Status)
    | OpParse(handle: u64, input: Bytes, native: Native)
    | OpFreeDoc(handle: u64, nativeRc: Status)
    | OpDescend(view: ValueView, kind: Option<u32>, found: Result<seq<nat>, Status>)
    | OpNewIter(view: ValueView, tag: u16)
    | OpNextIter(iter: IterView, tag: u16)

  /** What is assumed of the native side, never of the caller. */
  ghost predicate NativeSideOk(s: State, op: Op)
    requires Inv(s)
  {
    match op
    case OpParse(_, _, native) => NativeOk(native)
    case OpDescend(view, _, found) => FoundBelow(s, view, found)
    case OpNewIter(_, tag) => IsIterTag(tag)
    case OpNextIter(_, tag) => IsIterTag(tag)
    case _ => true
  }

  ghost function Step(s: State, op: Op): (s': State)
    requires Inv(s) && NativeSideOk(s, op)
    ensures Inv(s')
  {
    match op
    case OpNewParser(maxCapacity, maxDepth) =>
      NewParserKeepsInv(s, maxCapacity, maxDepth);
      NewParser(s, maxCapacity, maxDepth).0
    case OpFreeParser(handle, rc) =>
      FreeParserKeepsInv(s, handle, rc);
      FreeParser(s, handle, rc).0
    case OpParse(handle, input, native) =>
      ParseKeepsInv(s, handle, input, native);
      Parse(s, handle, input, native).0
    case OpFreeDoc(handle, rc) =>
      FreeDocKeepsInv(s, handle, rc);
      FreeDoc(s, handle, rc).0
    case OpDescend(view, kind, found) =>
      DescendKeepsInv(s, view, kind, found);
      Descend(s, view, kind, found).0
    case OpNewIter(view, tag) =>
      NewIterKeepsInv(s, view, tag);
      NewIter(s, view, tag).0
    case OpNextIter(iter, tag) =>
      NextIterKeepsInv(s, iter, tag);
      NextIter(s, iter, tag).0
  }

  ghost predicate Runs(s: State, ops: seq<Op>)
    requires Inv(s)
    decreases |ops|
  {
    ops == [] || (NativeSideOk(s, ops[0]) && Runs(Step(s, ops[0]), ops[1..]))
  }

  ghost function Final(s: State, ops: seq<Op>): (s': State)
    requires Inv(s) && Runs(s, ops)
    ensures Inv(s')
    decreases |ops|
  {
    if ops == [] then s else Final(Step(s, ops[0]), ops[1..])
  }

  // ----- Consequences of the invariant in every reached state

  /** Parser slot `p` and document slot `d` hold each other: Busy state and owner name one another. */
  predicate Owns(s: State, p: int, d: int) {
    && 0 <= p < |s.parsers| && s.parsers[p].Occupied? && 0 <= d < |s.docs| && s.docs[d].Occupied?
    && s.parsers[p].entry.state.Busy? && s.parsers[p].entry.state.docSlot == d + 1
    && s.parsers[p].entry.state.docGeneration == s.docs[d].entry.generation
    && s.docs[d].entry.ownerSlot == p + 1 && s.docs[d].entry.ownerGeneration == s.parsers[p].entry.generation
  }

  predicate InBijection(s: State) {
    && (forall p :: 0 <= p < |s.parsers| && s.parsers[p].Occupied? && s.parsers[p].entry.state.Busy? ==>
          Owns(s, p, s.parsers[p].entry.state.docSlot - 1))
    && (forall d :: 0 <= d < |s.docs| && s.docs[d].Occupied? ==> Owns(s, s.docs[d].entry.ownerSlot - 1, d))
  }

  lemma BusyParserOwns(s: State, p: nat)
    requires Inv(s) && p < |s.parsers| && s.parsers[p].Occupied? && s.parsers[p].entry.state.Busy?
    ensures Owns(s, p, s.parsers[p].entry.state.docSlot - 1)
  {
    assert ParserSlotOk(s, p);
  }

  lemma LiveDocIsOwned(s: State, d: nat)
    requires Inv(s) && d < |s.docs| && s.docs[d].Occupied?
    ensures Owns(s, s.docs[d].entry.ownerSlot - 1, d)
  {
    assert DocSlotOk(s, d);
  }

  lemma InvIsBijection(s: State)
    requires Inv(s)
    ensures InBijection(s)
  {
    forall p | 0 <= p < |s.parsers| && s.parsers[p].Occupied? && s.parsers[p].entry.state.Busy?
      ensures Owns(s, p, s.parsers[p].entry.state.docSlot - 1)
    {
      BusyParserOwns(s, p);
    }
    forall d | 0 <= d < |s.docs| && s.docs[d].Occupied?
      ensures Owns(s, s.docs[d].entry.ownerSlot - 1, d)
    {
      LiveDocIsOwned(s, d);
    }
  }

  /** After any calls with any arguments, Busy parsers and live documents are in bijection. */
  lemma BusyAndLiveAreInBijection(ops: seq<Op>)
    requires Runs(EMPTY, ops)
    ensures InBijection(Final(EMPTY, ops))
  {
    InvIsBijection(Final(EMPTY, ops));
  }

  predicate LiveParserHandle(s: State, handle: u64) {
    FindParser(s, handle).Some?
  }

  predicate LiveDocHandle(s: State, handle: u64) {
    FindDoc(s, handle).Some?
  }

  lemma LiveHandlesDiffer(s: State, parser: u64, doc: u64)
    requires Inv(s) && LiveParserHandle(s, parser) && LiveDocHandle(s, doc)
    ensures parser != doc
  {
    var p, d := FindParser(s, parser).value, FindDoc(s, doc).value;
    assert ParserSlotOk(s, p) && DocSlotOk(s, d);
    PackedUnpacks(parser);
    PackedUnpacks(doc);
    HandlesNeverCollide(p, SlotGeneration(s.parsers[p]), d, DocSlotGeneration(s.docs[d]));
  }

  /** A number names a live parser or a live document, never both, and zero names neither. */
  lemma LiveHandlesAreDisjoint(s: State, handle: u64)
    requires Inv(s)
    ensures !(LiveParserHandle(s, handle) && LiveDocHandle(s, handle))
    ensures !LiveParserHandle(s, 0) && !LiveDocHandle(s, 0)
  {
    if LiveParserHandle(s, handle) && LiveDocHandle(s, handle) {
      LiveHandlesDiffer(s, handle, handle);
    }
  }

  lemma NewParserHandleIsLive(s: State, maxCapacity: u64, maxDepth: u32)
    requires Inv(s)
    ensures var (s', r) := NewParser(s, maxCapacity, maxDepth);
            r.Ok? ==> r.value != 0 && FindParser(s', r.value) == Some(FirstVacant(s.parsers, 0))
  {
    var p := FirstVacant(s.parsers, 0);
    if p < MAX_SLOT_COUNT {
      UnpackPacked(p, if p < |s.parsers| then s.parsers[p].generation else PARSER_GENERATION_START);
    }
  }

  lemma NewDocHandleIsLive(s: State, handle: u64, input: Bytes, n: Native)
    requires Inv(s) && NativeOk(n)
    ensures var (s', r) := Parse(s, handle, input, n);
            r.Ok? ==> r.value != 0 && FindDoc(s', r.value) == Some(FirstVacant(s.docs, 0))
  {
    var d := FirstVacant(s.docs, 0);
    if d < MAX_SLOT_COUNT {
      UnpackPacked(d, if d < |s.docs| then s.docs[d].generation else DOC_GENERATION_START);
    }
  }

  /** Every issued handle is nonzero and finds exactly the slot it was issued for. */
  lemma IssuedHandlesAreLive(s: State, maxCapacity: u64, maxDepth: u32, handle: u64, input: Bytes, n: Native)
    requires Inv(s) && NativeOk(n)
    ensures var (s', r) := NewParser(s, maxCapacity, maxDepth);
            r.Ok? ==> r.value != 0 && FindParser(s', r.value) == Some(FirstVacant(s.parsers, 0))
    ensures var (s', r) := Parse(s, handle, input, n);
            r.Ok? ==> r.value != 0 && FindDoc(s', r.value) == Some(FirstVacant(s.docs, 0))
  {
    NewParserHandleIsLive(s, maxCapacity, maxDepth);
    NewDocHandleIsLive(s, handle, input, n);
  }

  // ----- One step seen from one document slot

  ghost predicate FreesDoc(s: State, op: Op, d: nat) {
    op.OpFreeDoc? && FindDoc(s, op.handle) == Some(d) && op.nativeRc == StatusOk
  }

  ghost predicate FreesParser(s: State, op: Op, p: nat) {
    && op.OpFreeParser? && FindParser(s, op.handle) == Some(p)
    && s.parsers[p].entry.state == Idle && op.nativeRc == StatusOk
  }

  /** `after` is `before` with a cursor that may have moved towards the same end. */
  predicate Advanced(before: Lease, after: Lease) {
    before.tag == after.tag && before.state1 == after.state1 && before.state0 <= after.state0
  }

  /** The same live document, with at most more views, more leases and advanced leases. */
  predicate SameDoc(s: Slot<DocEntry>, s': Slot<DocEntry>) {
    && s.Occupied? && s'.Occupied?
    && var e, e' := s.entry, s'.entry;
       && e'.generation == e.generation && e'.tape == e.tape && e'.rootPtr == e.rootPtr
       && e'.ownerSlot == e.ownerSlot && e'.ownerGeneration == e.ownerGeneration
       && e'.inputStorage == e.inputStorage
       && e.descendantIndices <= e'.descendantIndices
       && forall id :: id in e.iterLeases ==> id in e'.iterLeases && Advanced(e.iterLeases[id], e'.iterLeases[id])
  }

  lemma StepFromDocSlot(s: State, op: Op, d: nat)
    requires Inv(s) && NativeSideOk(s, op) && d < |s.docs|
    ensures d < |Step(s, op).docs|
    ensures FreesDoc(s, op, d) ==>
              Step(s, op).docs[d] == Vacant(NextDocGeneration(DocSlotGeneration(s.docs[d])))
    ensures !FreesDoc(s, op, d) ==>
              DocSlotGeneration(Step(s, op).docs[d]) == DocSlotGeneration(s.docs[d])
    ensures !FreesDoc(s, op, d) && s.docs[d].Occupied? ==> SameDoc(s.docs[d], Step(s, op).docs[d])
  {
    match op
    case OpNewIter(view, tag) => NewIterFromDocSlot(s, view, tag, d);
    case OpNextIter(iter, tag) => NextIterFromDocSlot(s, iter, tag, d);
    case OpParse(handle, input, native) => ParseFromDocSlot(s, handle, input, native, d);
    case _ =>
  }

  /** The slot keeps its generation, and a live document in it stays the same document. */
  predicate KeepsSlot(s: State, s': State, d: nat)
    requires d < |s.docs|
  {
    && d < |s'.docs| && DocSlotGeneration(s'.docs[d]) == DocSlotGeneration(s.docs[d])
    && (s.docs[d].Occupied? ==> SameDoc(s.docs[d], s'.docs[d]))
  }

  lemma NewIterFromDocSlot(s: State, view: ValueView, tag: u16, d: nat)
    requires Inv(s) && IsIterTag(tag) && d < |s.docs|
    ensures KeepsSlot(s, NewIter(s, view, tag).0, d)
  {
    if NewIter(s, view, tag).1.Ok? && ResolveView(s, view).value.0 == d {
      assert DocSlotOk(s, d);
      var e := s.docs[d].entry;
      FreshLeaseExistsIffRoom(e.iterLeases, e.nextIterLease);
      var e' := NewIter(s, view, tag).0.docs[d].entry;
      assert forall id :: id in e.iterLeases ==> id in e'.iterLeases && e'.iterLeases[id] == e.iterLeases[id];
    }
  }

  lemma NextIterFromDocSlot(s: State, iter: IterView, tag: u16, d: nat)
    requires Inv(s) && IsIterTag(tag) && d < |s.docs|
    ensures KeepsSlot(s, NextIter(s, iter, tag).0, d)
  {
    if FindLease(s, iter, tag).Some? && iter.state0 != iter.state1 {
      LeaseChildIsStart(s, iter, tag);
    }
  }

  lemma ParseFromDocSlot(s: State, handle: u64, input: Bytes, n: Native, d: nat)
    requires Inv(s) && NativeOk(n) && d < |s.docs|
    ensures KeepsSlot(s, Parse(s, handle, input, n).0, d)
  {
  }

  lemma StepFromParserSlot(s: State, op: Op, p: nat)
    requires Inv(s) && NativeSideOk(s, op) && p < |s.parsers|
    ensures p < |Step(s, op).parsers|
    ensures SlotGeneration(Step(s, op).parsers[p]) ==
            if FreesParser(s, op, p) then NextParserGeneration(SlotGeneration(s.parsers[p]))
            else SlotGeneration(s.parsers[p])
  {
    if op.OpFreeDoc? && FindDoc(s, op.handle).Some? {
      assert DocSlotOk(s, FindDoc(s, op.handle).value);
    }
  }

  // ----- Handles over runs

  ghost function DocFrees(s: State, ops: seq<Op>, d: nat): nat
    requires Inv(s) && Runs(s, ops)
    decreases |ops|
  {
    if ops == [] then 0
    else (if FreesDoc(s, ops[0], d) then 1 else 0) + DocFrees(Step(s, ops[0]), ops[1..], d)
  }

  ghost function ParserFrees(s: State, ops: seq<Op>, p: nat): nat
    requires Inv(s) && Runs(s, ops)
    decreases |ops|
  {
    if ops == [] then 0
    else (if FreesParser(s, ops[0], p) then 1 else 0) + ParserFrees(Step(s, ops[0]), ops[1..], p)
  }

  lemma {:induction false} DocGenerationOverRun(s: State, ops: seq<Op>, d: nat)
    requires Inv(s) && Runs(s, ops) && d < |s.docs|
    ensures d < |Final(s, ops).docs|
    ensures DocSlotGeneration(Final(s, ops).docs[d]) ==
            DocGenerationAfter(DocSlotGeneration(s.docs[d]), DocFrees(s, ops, d))
    decreases |ops|
  {
    if ops != [] {
      StepFromDocSlot(s, ops[0], d);
      DocGenerationOverRun(Step(s, ops[0]), ops[1..], d);
      DocGenerationAfterFirst(DocSlotGeneration(s.docs[d]), DocFrees(Step(s, ops[0]), ops[1..], d));
    }
  }

  lemma {:induction false} DocGenerationAfterFirst(g: u32, n: nat)
    ensures DocGenerationAfter(NextDocGeneration(g), n) == DocGenerationAfter(g, n + 1)
  {
    if n > 0 {
      DocGenerationAfterFirst(g, n - 1);
    }
  }

  lemma {:induction false} ParserGenerationOverRun(s: State, ops: seq<Op>, p: nat)
    requires Inv(s) && Runs(s, ops) && p < |s.parsers|
    ensures p < |Final(s, ops).parsers|
    ensures SlotGeneration(Final(s, ops).parsers[p]) ==
            ParserGenerationAfter(SlotGeneration(s.parsers[p]), ParserFrees(s, ops, p))
    decreases |ops|
  {
    if ops != [] {
      StepFromParserSlot(s, ops[0], p);
      ParserGenerationOverRun(Step(s, ops[0]), ops[1..], p);
      ParserGenerationAfterFirst(SlotGeneration(s.parsers[p]), ParserFrees(Step(s, ops[0]), ops[1..], p));
    }
  }

  lemma {:induction false} ParserGenerationAfterFirst(g: u32, n: nat)
    ensures ParserGenerationAfter(NextParserGeneration(g), n) == ParserGenerationAfter(g, n + 1)
  {
    if n > 0 {
      ParserGenerationAfterFirst(g, n - 1);
    }
  }

  /** A document handle whose slot is freed during the run is rejected until a full cycle of frees. */
  lemma FreedDocHandleIsRejected(s: State, ops: seq<Op>, handle: u64)
    requires Inv(s) && Runs(s, ops) && LiveDocHandle(s, handle)
    requires 0 < DocFrees(s, ops, FindDoc(s, handle).value) <= DOC_CYCLE
    ensures DocFrees(s, ops, FindDoc(s, handle).value) < DOC_CYCLE ==> !LiveDocHandle(Final(s, ops), handle)
    ensures DocFrees(s, ops, FindDoc(s, handle).value) == DOC_CYCLE ==>
              var d := FindDoc(s, handle).value;
              d < |Final(s, ops).docs| && DocSlotGeneration(Final(s, ops).docs[d]) == DocSlotGeneration(s.docs[d])
  {
    var d := FindDoc(s, handle).value;
    assert DocSlotOk(s, d);
    DocGenerationOverRun(s, ops, d);
    DocGenerationRecurs(DocSlotGeneration(s.docs[d]), DocFrees(s, ops, d));
  }

  lemma FreedParserHandleIsRejected(s: State, ops: seq<Op>, handle: u64)
    requires Inv(s) && Runs(s, ops) && LiveParserHandle(s, handle)
    requires 0 < ParserFrees(s, ops, FindParser(s, handle).value) <= PARSER_CYCLE
    ensures ParserFrees(s, ops, FindParser(s, handle).value) < PARSER_CYCLE ==>
              !LiveParserHandle(Final(s, ops), handle)
    ensures ParserFrees(s, ops, FindParser(s, handle).value) == PARSER_CYCLE ==>
              var p := FindParser(s, handle).value;
              p < |Final(s, ops).parsers| && SlotGeneration(Final(s, ops).parsers[p]) == SlotGeneration(s.parsers[p])
  {
    var p := FindParser(s, handle).value;
    assert ParserSlotOk(s, p);
    ParserGenerationOverRun(s, ops, p);
    ParserGenerationRecurs(SlotGeneration(s.parsers[p]), ParserFrees(s, ops, p));
  }

  // ----- Documents over runs

  lemma SameDocTransitive(a: Slot<DocEntry>, b: Slot<DocEntry>, c: Slot<DocEntry>)
    requires SameDoc(a, b) && SameDoc(b, c)
    ensures SameDoc(a, c)
  {
  }

  /** Until it is freed, a document keeps its tape, its owner and its input bytes. */
  lemma {:induction false} LiveDocIsUnchanged(s: State, ops: seq<Op>, d: nat)
    requires Inv(s) && Runs(s, ops) && d < |s.docs| && s.docs[d].Occupied?
    requires DocFrees(s, ops, d) == 0
    ensures d < |Final(s, ops).docs| && SameDoc(s.docs[d], Final(s, ops).docs[d])
    decreases |ops|
  {
    if ops != [] {
      StepFromDocSlot(s, ops[0], d);
      LiveDocIsUnchanged(Step(s, ops[0]), ops[1..], d);
      SameDocTransitive(s.docs[d], Step(s, ops[0]).docs[d], Final(s, ops).docs[d]);
    }
  }

  /** A call that gets past the handle, state, reset and capacity checks takes the arena. */
  predicate TakesArena(e: ParserEntry, input: Bytes, n: Native) {
    e.state == Idle && n.resetRc == StatusOk && |input| <= e.maxCapacity
  }

  predicate PaddingUsable(input: Bytes, n: Native) {
    n.padding > 0 && |input| + n.padding <= U64_MAX
  }

  /**
   Where the arena is after a parse call: untouched if the call was rejected early; with the
   new document if it succeeded; otherwise back with the Idle parser, holding the padded input,
   exactly when the padding was usable.
   */
  lemma ParseMovesArena(s: State, handle: u64, input: Bytes, n: Native)
    requires Inv(s) && NativeOk(n) && FindParser(s, handle).Some?
    ensures var p := FindParser(s, handle).value;
            var e := s.parsers[p].entry;
            var (s', r) := Parse(s, handle, input, n);
            && p < |s'.parsers| && s'.parsers[p].Occupied?
            && var e' := s'.parsers[p].entry;
               if !TakesArena(e, input, n) then r.Err? && s' == s
               else if !PaddingUsable(input, n) then r.Err? && e' == e.(reusableInput := [])
               else if r.Err? then e' == e.(reusableInput := input + Zeros(n.padding))
               else
                 && e'.state.Busy? && e'.reusableInput == []
                 && FindDoc(s', r.value).Some?
                 && s'.docs[FindDoc(s', r.value).value].entry.inputStorage == input + Zeros(n.padding)
                 && Owns(s', p, FindDoc(s', r.value).value)
  {
    NewDocHandleIsLive(s, handle, input, n);
  }

  /** The effect of freeing a live document: its parser is Idle again and holds the document's bytes. */
  lemma FreeDocReturnsArena(s: State, handle: u64, d: nat)
    requires Inv(s) && FindDoc(s, handle) == Some(d)
    ensures var p := s.docs[d].entry.ownerSlot - 1;
            var (s', rc) := FreeDoc(s, handle, StatusOk);
            && rc == StatusOk
            && 0 <= p < |s.parsers| && s.parsers[p].Occupied? && s.parsers[p].entry.reusableInput == []
            && |s'.parsers| == |s.parsers| && s'.parsers[p].Occupied?
            && s'.parsers[p].entry.state == Idle
            && s'.parsers[p].entry.reusableInput == s.docs[d].entry.inputStorage
  {
    assert DocSlotOk(s, d);
    assert ParserSlotOk(s, s.docs[d].entry.ownerSlot - 1);
  }

  lemma LiveHandleStaysFound(s: State, ops: seq<Op>, handle: u64, d: nat)
    requires Inv(s) && Runs(s, ops) && FindDoc(s, handle) == Some(d) && DocFrees(s, ops, d) == 0
    ensures FindDoc(Final(s, ops), handle) == Some(d)
    ensures Final(s, ops).docs[d].entry.ownerSlot == s.docs[d].entry.ownerSlot
    ensures Final(s, ops).docs[d].entry.inputStorage == s.docs[d].entry.inputStorage
  {
    LiveDocIsUnchanged(s, ops, d);
  }

  /** The arena that a parse filled comes back to its parser, unchanged, when the document is freed. */
  lemma ArenaReturns(s: State, ops: seq<Op>, handle: u64)
    requires Inv(s) && Runs(s, ops) && LiveDocHandle(s, handle)
    requires DocFrees(s, ops, FindDoc(s, handle).value) == 0
    ensures var d := FindDoc(s, handle).value;
            var p := s.docs[d].entry.ownerSlot - 1;
            var (s', rc) := FreeDoc(Final(s, ops), handle, StatusOk);
            && rc == StatusOk
            && 0 <= p < |s.parsers| && s.parsers[p].Occupied? && s.parsers[p].entry.reusableInput == []
            && p < |s'.parsers| && s'.parsers[p].Occupied?
            && s'.parsers[p].entry.state == Idle
            && s'.parsers[p].entry.reusableInput == s.docs[d].entry.inputStorage
  {
    var d := FindDoc(s, handle).value;
    FreeDocReturnsArena(s, handle, d);
    LiveHandleStaysFound(s, ops, handle, d);
    FreeDocReturnsArena(Final(s, ops), handle, d);
  }

  // ----- Leases over runs

  /** A copy of an iterator that another copy has overtaken is rejected for the document's life. */
  lemma StaleIteratorIsRejected(s: State, ops: seq<Op>, d: nat, iter: IterView, tag: u16)
    requires Inv(s) && Runs(s, ops) && DocFrees(s, ops, d) == 0
    requires FindDoc(s, iter.doc) == Some(d) && iter.index in s.docs[d].entry.iterLeases
    requires iter.state0 < s.docs[d].entry.iterLeases[iter.index].state0
    ensures FindLease(Final(s, ops), iter, tag) == None
  {
    LiveDocIsUnchanged(s, ops, d);
  }

  /** Advancing is what makes the copy that advanced, and all equal copies, stale. */
  lemma AdvancedIteratorIsStale(s: State, iter: IterView, tag: u16)
    requires Inv(s) && IsIterTag(tag) && FindLease(s, iter, tag).Some? && iter.state0 != iter.state1
    ensures var d := FindLease(s, iter, tag).value;
            var (s', r) := NextIter(s, iter, tag);
            && r.Ok? && !r.value.Done?
            && d < |s'.docs| && s'.docs[d].Occupied? && FindDoc(s', iter.doc) == Some(d)
            && iter.index in s'.docs[d].entry.iterLeases
            && iter.state0 < s'.docs[d].entry.iterLeases[iter.index].state0 <= iter.state1
            && FindLease(s', r.value.iter, tag) == Some(d)
  {
    LeaseChildIsStart(s, iter, tag);
  }

  /** An exhausted iterator reports Done, without error, for the rest of the document's life. */
  lemma DoneStaysDone(s: State, ops: seq<Op>, d: nat, iter: IterView, tag: u16)
    requires Inv(s) && Runs(s, ops) && IsIterTag(tag) && DocFrees(s, ops, d) == 0
    requires FindLease(s, iter, tag) == Some(d) && iter.state0 == iter.state1
    ensures NextIter(Final(s, ops), iter, tag) == (Final(s, ops), Ok(Done))
  {
    LiveDocIsUnchanged(s, ops, d);
    var s' := Final(s, ops);
    assert DocSlotOk(s', d);
    assert LeaseOk(s'.docs[d].entry.tape, s'.docs[d].entry.iterLeases[iter.index]);
  }

  /** Where the children that a lease has not yet handed out start (keys, for an object). */
  function Remaining(t: Words, l: Lease): seq<nat>
    requires IsValueStart(t, ROOT_JSON_INDEX) && LeaseOk(t, l)
  {
    if l.tag == ARRAY_ITER_TAG then ItemStarts(t, l.state0, l.state1) else KeyStarts(t, l.state0, l.state1)
  }

  ghost predicate Visits(s: State, op: Op, d: nat, id: u32)
    requires Inv(s)
  {
    && op.OpNextIter? && IsIterTag(op.tag) && FindLease(s, op.iter, op.tag) == Some(d)
    && op.iter.index == id && op.iter.state0 != op.iter.state1
  }

  /** The children that lease `id` of document `d` hands out during a run, in order. */
  ghost function Visited(s: State, ops: seq<Op>, d: nat, id: u32): seq<nat>
    requires Inv(s) && Runs(s, ops)
    decreases |ops|
  {
    if ops == [] then []
    else (if Visits(s, ops[0], d, id) then [ops[0].iter.state0] else []) + Visited(Step(s, ops[0]), ops[1..], d, id)
  }

  lemma LeaseIsOk(s: State, d: nat, id: u32)
    requires Inv(s) && d < |s.docs| && s.docs[d].Occupied? && id in s.docs[d].entry.iterLeases
    ensures IsValueStart(s.docs[d].entry.tape, ROOT_JSON_INDEX)
    ensures LeaseOk(s.docs[d].entry.tape, s.docs[d].entry.iterLeases[id])
  {
    assert DocSlotOk(s, d);
  }

  ghost function RemainingOf(s: State, d: nat, id: u32): seq<nat>
    requires Inv(s) && d < |s.docs| && s.docs[d].Occupied? && id in s.docs[d].entry.iterLeases
  {
    LeaseIsOk(s, d, id);
    Remaining(s.docs[d].entry.tape, s.docs[d].entry.iterLeases[id])
  }

  lemma StepVisits(s: State, op: Op, d: nat, id: u32)
    requires Inv(s) && NativeSideOk(s, op) && !FreesDoc(s, op, d)
    requires d < |s.docs| && s.docs[d].Occupied? && id in s.docs[d].entry.iterLeases
    ensures d < |Step(s, op).docs| && Step(s, op).docs[d].Occupied?
    ensures id in Step(s, op).docs[d].entry.iterLeases
    ensures RemainingOf(s, d, id) ==
            (if Visits(s, op, d, id) then [op.iter.state0] else []) + RemainingOf(Step(s, op), d, id)
  {
    StepFromDocSlot(s, op, d);
    if Visits(s, op, d, id) {
      LeaseChildIsStart(s, op.iter, op.tag);
    } else {
      LeaseKept(s, op, d, id);
    }
  }

  lemma NewIterKeepsLease(s: State, view: ValueView, tag: u16, d: nat, id: u32)
    requires Inv(s) && IsIterTag(tag)
    requires d < |s.docs| && s.docs[d].Occupied? && id in s.docs[d].entry.iterLeases
    ensures var s' := NewIter(s, view, tag).0;
            && d < |s'.docs| && s'.docs[d].Occupied? && id in s'.docs[d].entry.iterLeases
            && s'.docs[d].entry.iterLeases[id] == s.docs[d].entry.iterLeases[id]
  {
    assert DocSlotOk(s, d);
    FreshLeaseExistsIffRoom(s.docs[d].entry.iterLeases, s.docs[d].entry.nextIterLease);
  }

  lemma LeaseKept(s: State, op: Op, d: nat, id: u32)
    requires Inv(s) && NativeSideOk(s, op) && !FreesDoc(s, op, d) && !Visits(s, op, d, id)
    requires d < |s.docs| && s.docs[d].Occupied? && id in s.docs[d].entry.iterLeases
    ensures d < |Step(s, op).docs| && Step(s, op).docs[d].Occupied?
    ensures id in Step(s, op).docs[d].entry.iterLeases
    ensures Step(s, op).docs[d].entry.iterLeases[id] == s.docs[d].entry.iterLeases[id]
  {
    if op.OpNewIter? {
      NewIterKeepsLease(s, op.view, op.tag, d, id);
    } else {
      StepFromDocSlot(s, op, d);
    }
  }

  /**
   Whatever else happens in between, a lease hands out the children of its container exactly
   once each, in document order: those handed out and those left always make up the whole.
   */
  lemma {:induction false} LeaseVisitsInOrder(s: State, ops: seq<Op>, d: nat, id: u32)
    requires Inv(s) && Runs(s, ops) && DocFrees(s, ops, d) == 0
    requires d < |s.docs| && s.docs[d].Occupied? && id in s.docs[d].entry.iterLeases
    ensures d < |Final(s, ops).docs| && Final(s, ops).docs[d].Occupied?
    ensures id in Final(s, ops).docs[d].entry.iterLeases
    ensures RemainingOf(s, d, id) == Visited(s, ops, d, id) + RemainingOf(Final(s, ops), d, id)
    decreases |ops|
  {
    if ops != [] {
      var s1 := Step(s, ops[0]);
      StepVisits(s, ops[0], d, id);
      LeaseVisitsInOrder(s1, ops[1..], d, id);
      var first := if Visits(s, ops[0], d, id) then [ops[0].iter.state0] else [];
      assert first + (Visited(s1, ops[1..], d, id) + RemainingOf(Final(s, ops), d, id)) ==
             (first + Visited(s1, ops[1..], d, id)) + RemainingOf(Final(s, ops), d, id);
    }
  }

  /** A fresh lease starts with all the children of its container still to come. */
  lemma FreshLeaseCoversContainer(s: State, view: ValueView, tag: u16)
    requires Inv(s) && IsIterTag(tag) && NewIter(s, view, tag).1.Ok?
    ensures var (d, i) := ResolveView(s, view).value;
            var (s', r) := NewIter(s, view, tag);
            && Inv(s') && r.value.index !in s.docs[d].entry.iterLeases
            && d < |s'.docs| && s'.docs[d].Occupied? && r.value.index in s'.docs[d].entry.iterLeases
            && FindLease(s', r.value, tag) == Some(d)
            && s'.docs[d].entry.iterLeases[r.value.index] ==
               Lease(i + 1, After(s.docs[d].entry.tape, i) - 1, tag)
  {
    var (d, i) := ResolveView(s, view).value;
    ResolvedIndexIsStart(s, view);
    assert DocSlotOk(s, d);
    FreshLeaseExistsIffRoom(s.docs[d].entry.iterLeases, s.docs[d].entry.nextIterLease);
    NewIterKeepsInv(s, view, tag);
  }
}
