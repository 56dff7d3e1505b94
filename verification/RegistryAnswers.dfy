/**
 What the registry's replies are made of: the bytes that native code reads, the limits that a
 parser was registered with, and the views and iterators that were handed out before.
 */
module RegistryAnswers {
  import opened Basics
  import opened Tape
  import opened Handles
  import opened RegistrySpec
  import opened RegistryRuns

  // ----- Parsing

  /** Native code reads the input followed by zeros, and its verdict alone makes the reply and the document. */
  lemma ParseReadsPaddedInput(s: State, handle: u64, input: Bytes, n: Native)
    requires Inv(s) && NativeOk(n) && FindParser(s, handle).Some?
    requires TakesArena(s.parsers[FindParser(s, handle).value].entry, input, n) && PaddingUsable(input, n)
    ensures var out := n.parse(input + Zeros(n.padding), |input|);
            var (s', r) := Parse(s, handle, input, n);
            if out.ParseFailed? then r == Err(out.rc)
            else if out.afterRc != StatusOk then r == Err(out.afterRc)
            else if (forall d :: 0 <= d < |s.docs| ==> s.docs[d].Occupied?) && |s.docs| >= MAX_SLOT_COUNT
            then r == Err(Internal)
            else
              && r.Ok? && FindDoc(s', r.value).Some?
              && var e := s'.docs[FindDoc(s', r.value).value].entry;
                 e.tape == out.tape && e.rootPtr == out.rootPtr && e.inputStorage == input + Zeros(n.padding)
  {
    NewDocHandleIsLive(s, handle, input, n);
    var d := FirstVacant(s.docs, 0);
    assert d < |s.docs| ==> s.docs[d].Vacant?;
  }

  /** Each refusal of a parse has its own status, in this order, and leaves every document as it is. */
  lemma ParseRefusals(s: State, handle: u64, input: Bytes, n: Native)
    requires Inv(s) && NativeOk(n)
    ensures var (s', r) := Parse(s, handle, input, n);
            var p := FindParser(s, handle);
            if p == None then s' == s && r == Err(InvalidHandle)
            else
              var e := s.parsers[p.value].entry;
              if e.state != Idle then s' == s && r == Err(ParserBusy)
              else if n.resetRc != StatusOk then s' == s && r == Err(n.resetRc)
              else if |input| > e.maxCapacity then s' == s && r == Err(CapacityLimit)
              else if n.padding == 0 then s'.docs == s.docs && r == Err(Internal)
              else if |input| + n.padding > U64_MAX then s'.docs == s.docs && r == Err(InvalidArgument)
              else TakesArena(e, input, n) && PaddingUsable(input, n)
  {
  }

  /** A parser is freed exactly when it is found, idle and native free succeeds; its handle is dead from then on. */
  lemma FreeParserAnswers(s: State, handle: u64, nativeRc: Status)
    requires Inv(s)
    ensures var (s', rc) := FreeParser(s, handle, nativeRc);
            var p := FindParser(s, handle);
            if p == None then s' == s && rc == InvalidHandle
            else if s.parsers[p.value].entry.state != Idle then s' == s && rc == ParserBusy
            else if nativeRc != StatusOk then s' == s && rc == nativeRc
            else rc == StatusOk && FindParser(s', handle) == None && s'.parsers[p.value].Vacant? && s'.docs == s.docs
  {
  }

  /** A document is freed exactly when it is found and native free succeeds; its owner is idle from then on. */
  lemma FreeDocAnswers(s: State, handle: u64, nativeRc: Status)
    requires Inv(s)
    ensures var (s', rc) := FreeDoc(s, handle, nativeRc);
            var d := FindDoc(s, handle);
            if d == None then s' == s && rc == InvalidHandle
            else if nativeRc != StatusOk then s' == s && rc == nativeRc
            else
              && rc == StatusOk && FindDoc(s', handle) == None && s'.docs[d.value].Vacant?
              && 1 <= s.docs[d.value].entry.ownerSlot <= |s'.parsers|
              && var owner := s'.parsers[s.docs[d.value].entry.ownerSlot - 1];
                 owner.Occupied? && owner.entry.state == Idle
  {
    if FindDoc(s, handle).Some? {
      assert DocSlotOk(s, FindDoc(s, handle).value);
    }
  }

  /** The reply does not depend on what an earlier document left in the arena. */
  lemma ReplyIgnoresArena(s: State, handle: u64, input: Bytes, n: Native, p: nat, arena: Bytes)
    requires Inv(s) && NativeOk(n) && FindParser(s, handle) == Some(p) && s.parsers[p].entry.state == Idle
    ensures Inv(SetArena(s, p, arena))
    ensures Parse(SetArena(s, p, arena), handle, input, n).1 == Parse(s, handle, input, n).1
    ensures TakesArena(s.parsers[p].entry, input, n) ==>
              Parse(SetArena(s, p, arena), handle, input, n).0 == Parse(s, handle, input, n).0
  {
    SetArenaKeepsInv(s, p, arena);
    assert FindParser(SetArena(s, p, arena), handle) == Some(p);
    assert SetArena(s, p, arena).docs == s.docs;
    if TakesArena(s.parsers[p].entry, input, n) {
      assert forall x: Bytes :: SetArena(SetArena(s, p, arena), p, x).parsers == SetArena(s, p, x).parsers;
    }
  }

  // ----- The limits of a parser

  /** A parser with this generation and these limits sits in slot `p`. */
  predicate Registered(s: State, p: nat, generation: u32, maxCapacity: u64, maxDepth: u32) {
    && p < |s.parsers| && s.parsers[p].Occupied?
    && var e := s.parsers[p].entry;
       e.generation == generation && e.maxCapacity == maxCapacity && e.maxDepth == maxDepth
  }

  lemma LimitsSurviveStep(s: State, op: Op, p: nat, generation: u32, maxCapacity: u64, maxDepth: u32)
    requires Inv(s) && NativeSideOk(s, op) && Registered(s, p, generation, maxCapacity, maxDepth)
    requires !FreesParser(s, op, p)
    ensures Registered(Step(s, op), p, generation, maxCapacity, maxDepth)
  {
    if op.OpFreeDoc? && FindDoc(s, op.handle).Some? {
      assert DocSlotOk(s, FindDoc(s, op.handle).value);
    }
  }

  lemma {:induction false} LimitsSurviveRun(s: State, ops: seq<Op>, p: nat, generation: u32, maxCapacity: u64,
                                            maxDepth: u32)
    requires Inv(s) && Runs(s, ops) && Registered(s, p, generation, maxCapacity, maxDepth)
    requires ParserFrees(s, ops, p) == 0
    ensures Registered(Final(s, ops), p, generation, maxCapacity, maxDepth)
    decreases |ops|
  {
    if ops != [] {
      LimitsSurviveStep(s, ops[0], p, generation, maxCapacity, maxDepth);
      LimitsSurviveRun(Step(s, ops[0]), ops[1..], p, generation, maxCapacity, maxDepth);
    }
  }

  lemma NewParserIsRegistered(s: State, maxCapacity: u64, maxDepth: u32)
    requires Inv(s)
    ensures var (s', r) := NewParser(s, maxCapacity, maxDepth);
            r.Ok? ==>
              && FindParser(s', r.value).Some?
              && var p := FindParser(s', r.value).value;
                 && Registered(s', p, s'.parsers[p].entry.generation, maxCapacity, maxDepth)
                 && s'.parsers[p].entry.state == Idle
  {
    var p := FirstVacant(s.parsers, 0);
    if p < MAX_SLOT_COUNT {
      UnpackPacked(p, if p < |s.parsers| then s.parsers[p].generation else PARSER_GENERATION_START);
    }
  }

  /**
   However much later, a parse on an issued handle of a parser that was not freed is refused for
   capacity exactly when the input is longer than the capacity it was registered with.
   */
  lemma CapacityIsTheRegisteredOne(s: State, maxCapacity: u64, maxDepth: u32, ops: seq<Op>, input: Bytes, n: Native)
    requires Inv(s) && NewParser(s, maxCapacity, maxDepth).1.Ok? && NativeOk(n) && n.resetRc == StatusOk
    requires var (s1, h) := NewParser(s, maxCapacity, maxDepth);
             && Inv(s1) && Runs(s1, ops) && FindParser(s1, h.value).Some?
             && ParserFrees(s1, ops, FindParser(s1, h.value).value) == 0
    ensures var (s1, h) := NewParser(s, maxCapacity, maxDepth);
            var f := Final(s1, ops);
            && FindParser(f, h.value) == FindParser(s1, h.value)
            && var e := f.parsers[FindParser(f, h.value).value].entry;
               e.state == Idle ==>
                 if |input| > maxCapacity then Parse(f, h.value, input, n) == (f, Err(CapacityLimit))
                 else TakesArena(e, input, n)
  {
    NewParserIsRegistered(s, maxCapacity, maxDepth);
    var (s1, h) := NewParser(s, maxCapacity, maxDepth);
    var p := FindParser(s1, h.value).value;
    LimitsSurviveRun(s1, ops, p, s1.parsers[p].entry.generation, maxCapacity, maxDepth);
  }

  // ----- Descending

  /** A lookup on a container of the kind it is for gives the upstream answer; on another kind it is refused. */
  lemma DescendAnswers(s: State, view: ValueView, kind: Option<u32>, found: Result<seq<nat>, Status>)
    requires Inv(s)
    ensures var (s', r) := Descend(s, view, kind, found);
            match ResolveView(s, view)
            case None => r == Err(InvalidHandle) && s' == s
            case Some(x) =>
              && IsValueStart(s.docs[x.0].entry.tape, x.1)
              && if kind == None || kind == Some(KindAt(s.docs[x.0].entry.tape, x.1)) then r == found
                 else r == Err(WrongType) && s' == s
  {
    if ResolveView(s, view).Some? {
      ResolvedIndexIsStart(s, view);
    }
  }

  /** An iterator is given for a container of its kind, as long as a lease is free; otherwise the status says why. */
  lemma NewIterAnswers(s: State, view: ValueView, tag: u16)
    requires Inv(s) && IsIterTag(tag)
    ensures var (s', r) := NewIter(s, view, tag);
            match ResolveView(s, view)
            case None => r == Err(InvalidHandle) && s' == s
            case Some(x) =>
              && IsValueStart(s.docs[x.0].entry.tape, x.1)
              && if KindAt(s.docs[x.0].entry.tape, x.1) != (if tag == ARRAY_ITER_TAG then KIND_ARRAY else KIND_OBJECT)
                 then r == Err(WrongType) && s' == s
                 else if |s.docs[x.0].entry.iterLeases| >= U32_MAX then r == Err(Internal) && s' == s
                 else r.Ok?
  {
    var x := ResolveView(s, view);
    if x.Some? {
      ResolvedIndexIsStart(s, view);
      assert DocSlotOk(s, x.value.0);
      FreshLeaseExistsIffRoom(s.docs[x.value.0].entry.iterLeases, s.docs[x.value.0].entry.nextIterLease);
    }
  }
}
