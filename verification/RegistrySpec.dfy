/**
 The handle registry as a transition system.

 `State` holds the parser and document slots.  Every operation is a function from a state and
 arbitrary caller-supplied handles, views and iterator structs to the next state and a reply.
 `Inv` is what every operation keeps.
 */
module RegistrySpec {
  import opened Basics
  import opened Tape
  import opened Handles

  // ----- Wire constants

  const ROOT_VIEW_TAG: u64 := 0x544F_4F52_4A44_5350
  const DESC_VIEW_TAG: u64 := 0x4353_4544_4A44_5350
  const ARRAY_ITER_TAG: u16 := 0x5241
  const OBJECT_ITER_TAG: u16 := 0x424F

  // ----- Entries

  datatype Slot<+T> = Vacant(generation: u32) | Occupied(entry: T)

  datatype ParserState = Idle | Busy(docSlot: u32, docGeneration: u32)

  datatype ParserEntry = ParserEntry(
    generation: u32,
    state: ParserState,
    reusableInput: Bytes,
    maxCapacity: u64,
    maxDepth: u32)

  datatype Lease = Lease(state0: u64, state1: u64, tag: u16)

  /** `tape` stands for the native document that the entry points to. */
  datatype DocEntry = DocEntry(
    generation: u32,
    tape: Words,
    rootPtr: u64,
    rootAfterIndex: u64,
    ownerSlot: u32,
    ownerGeneration: u32,
    inputStorage: Bytes,
    descendantIndices: set<nat>,
    iterLeases: map<u32, Lease>,
    nextIterLease: u32)

  datatype State = State(parsers: seq<Slot<ParserEntry>>, docs: seq<Slot<DocEntry>>)

  const EMPTY: State := State([], [])

  // ----- Structs the caller passes in, with any bits whatever

  datatype ValueView = ValueView(doc: u64, state0: u64, state1: u64, kindHint: u32, reserved: u32)

  const DEFAULT_VIEW: ValueView := ValueView(0, 0, 0, 0, 0)

  datatype IterView = IterView(doc: u64, state0: u64, state1: u64, index: u32, tag: u16, reserved: u16)

  // ----- Lookups

  function SlotGeneration(s: Slot<ParserEntry>): u32 {
    match s
    case Vacant(g) => g
    case Occupied(e) => e.generation
  }

  function DocSlotGeneration(s: Slot<DocEntry>): u32 {
    match s
    case Vacant(g) => g
    case Occupied(e) => e.generation
  }

  function FindParser(s: State, handle: u64): (r: Option<nat>)
    ensures r.Some? ==> r.value < |s.parsers| && s.parsers[r.value].Occupied?
    ensures r.Some? ==> UnpackHandle(handle) == Ok((r.value, SlotGeneration(s.parsers[r.value])))
  {
    match UnpackHandle(handle)
    case Err(_) => None
    case Ok((index, generation)) =>
      if index < |s.parsers| && s.parsers[index].Occupied? && s.parsers[index].entry.generation == generation
      then Some(index) else None
  }

  function FindDoc(s: State, handle: u64): (r: Option<nat>)
    ensures r.Some? ==> r.value < |s.docs| && s.docs[r.value].Occupied?
    ensures r.Some? ==> UnpackHandle(handle) == Ok((r.value, DocSlotGeneration(s.docs[r.value])))
  {
    match UnpackHandle(handle)
    case Err(_) => None
    case Ok((index, generation)) =>
      if index < |s.docs| && s.docs[index].Occupied? && s.docs[index].entry.generation == generation
      then Some(index) else None
  }

  function FirstVacant<T>(slots: seq<Slot<T>>, i: nat): (r: nat)
    requires i <= |slots|
    ensures i <= r <= |slots|
    ensures r < |slots| ==> slots[r].Vacant?
    ensures forall j :: i <= j < r ==> slots[j].Occupied?
    decreases |slots| - i
  {
    if i == |slots| || slots[i].Vacant? then i else FirstVacant(slots, i + 1)
  }

  // ----- Well-formed documents

  function DocNodes(t: Words): set<nat>
    requires IsValueStart(t, ROOT_JSON_INDEX)
  {
    Nodes(t, ROOT_JSON_INDEX, After(t, ROOT_JSON_INDEX))
  }

  /** The unvisited part of a lease is a run of whole children of one container. */
  predicate LeaseOk(t: Words, l: Lease)
    requires IsValueStart(t, ROOT_JSON_INDEX)
  {
    && ROOT_JSON_INDEX < l.state0 <= l.state1 < After(t, ROOT_JSON_INDEX)
    && ((l.tag == ARRAY_ITER_TAG && WfItems(t, l.state0, l.state1)
         && ItemNodes(t, l.state0, l.state1) <= DocNodes(t))
        || (l.tag == OBJECT_ITER_TAG && WfFields(t, l.state0, l.state1)
            && FieldNodes(t, l.state0, l.state1) <= DocNodes(t)))
  }

  predicate DocOk(e: DocEntry) {
    && IsValueStart(e.tape, ROOT_JSON_INDEX)
    && e.rootAfterIndex == After(e.tape, ROOT_JSON_INDEX)
    && e.rootPtr != 0
    && e.descendantIndices <= DocNodes(e.tape)
    && 0 !in e.iterLeases
    && forall id :: id in e.iterLeases ==> LeaseOk(e.tape, e.iterLeases[id])
  }

  // ----- The invariant

  /** A Busy parser names a live document that names it back. */
  predicate ParserSlotOk(s: State, p: nat)
    requires p < |s.parsers|
  {
    match s.parsers[p]
    case Vacant(g) => IsParserGeneration(g)
    case Occupied(e) =>
      && IsParserGeneration(e.generation)
      && match e.state
         case Idle => true
         case Busy(docSlot, docGeneration) =>
           && e.reusableInput == []
           && 1 <= docSlot <= |s.docs|
           && s.docs[docSlot - 1].Occupied?
           && var d := s.docs[docSlot - 1].entry;
              d.generation == docGeneration && d.ownerSlot == p + 1 && d.ownerGeneration == e.generation
  }

  /** A live document names a live parser that is Busy with exactly this document. */
  predicate DocSlotOk(s: State, d: nat)
    requires d < |s.docs|
  {
    match s.docs[d]
    case Vacant(g) => IsDocGeneration(g)
    case Occupied(e) =>
      && IsDocGeneration(e.generation)
      && DocOk(e)
      && 1 <= e.ownerSlot <= |s.parsers|
      && s.parsers[e.ownerSlot - 1].Occupied?
      && var p := s.parsers[e.ownerSlot - 1].entry;
         && p.generation == e.ownerGeneration
         && p.state.Busy? && p.state.docSlot == d + 1 && p.state.docGeneration == e.generation
  }

  predicate Inv(s: State) {
    && |s.parsers| <= MAX_SLOT_COUNT
    && |s.docs| <= MAX_SLOT_COUNT
    && (forall p :: 0 <= p < |s.parsers| ==> ParserSlotOk(s, p))
    && (forall d :: 0 <= d < |s.docs| ==> DocSlotOk(s, d))
  }

  // ----- Parsers

  function NewParserEntry(generation: u32, maxCapacity: u64, maxDepth: u32): ParserEntry {
    ParserEntry(generation, Idle, [], maxCapacity, maxDepth)
  }

  /** Registers a parser in the first vacant slot, or in a new one. */
  function NewParser(s: State, maxCapacity: u64, maxDepth: u32): (State, Result<u64, Status>)
    requires Inv(s)
  {
    var p := FirstVacant(s.parsers, 0);
    if p < |s.parsers| then
      var g := s.parsers[p].generation;
      (s.(parsers := s.parsers[p := Occupied(NewParserEntry(g, maxCapacity, maxDepth))]), Ok(PackHandle(p + 1, g)))
    else if |s.parsers| >= MAX_SLOT_COUNT then (s, Err(Internal))
    else
      (s.(parsers := s.parsers + [Occupied(NewParserEntry(PARSER_GENERATION_START, maxCapacity, maxDepth))]),
       Ok(PackHandle(p + 1, PARSER_GENERATION_START)))
  }

  /** `nativeRc` is what the native free returns, should it be reached. */
  function FreeParser(s: State, handle: u64, nativeRc: Status): (State, Status)
    requires Inv(s)
  {
    match FindParser(s, handle)
    case None => (s, InvalidHandle)
    case Some(p) =>
      var e := s.parsers[p].entry;
      if e.state != Idle then (s, ParserBusy)
      else if nativeRc != StatusOk then (s, nativeRc)
      else (s.(parsers := s.parsers[p := Vacant(NextParserGeneration(e.generation))]), StatusOk)
  }

  // ----- Parsing

  /** What the native parser makes of a buffer. */
  datatype NativeParse =
    | ParseFailed(rc: Status)
    | Parsed(tape: Words, rootPtr: u64, afterRc: Status)

  /** The native side of one parse call; `parse` receives the padded buffer and the input length. */
  datatype Native = Native(resetRc: Status, padding: nat, parse: (Bytes, nat) -> NativeParse)

  /** Native code returns well-formed tapes and real error codes. */
  ghost predicate NativeOk(n: Native) {
    forall buffer, len ::
      match n.parse(buffer, len)
      case ParseFailed(rc) => rc != StatusOk
      case Parsed(tape, rootPtr, _) =>
        IsValueStart(tape, ROOT_JSON_INDEX) && After(tape, ROOT_JSON_INDEX) <= U64_MAX && rootPtr != 0
  }

  function NewDocEntry(generation: u32, tape: Words, rootPtr: u64, p: nat, ownerGeneration: u32, input: Bytes): DocEntry
    requires p < MAX_SLOT_COUNT && IsValueStart(tape, ROOT_JSON_INDEX) && After(tape, ROOT_JSON_INDEX) <= U64_MAX
  {
    DocEntry(generation, tape, rootPtr, After(tape, ROOT_JSON_INDEX), p + 1, ownerGeneration, input,
             {}, map[], ITER_LEASE_START)
  }

  function SetArena(s: State, p: nat, arena: Bytes): State
    requires p < |s.parsers| && s.parsers[p].Occupied?
  {
    s.(parsers := s.parsers[p := Occupied(s.parsers[p].entry.(reusableInput := arena))])
  }

  function SetBusy(s: State, p: nat, d: nat, generation: u32): State
    requires p < |s.parsers| && s.parsers[p].Occupied? && d < MAX_SLOT_COUNT
  {
    s.(parsers := s.parsers[p := Occupied(
      s.parsers[p].entry.(state := Busy(d + 1, generation), reusableInput := []))])
  }

  /** Gives a parsed tape a document slot and makes parser `p` Busy with it. */
  function AttachDoc(s: State, p: nat, tape: Words, rootPtr: u64, buffer: Bytes): (State, Result<u64, Status>)
    requires Inv(s) && p < |s.parsers| && s.parsers[p].Occupied?
    requires IsValueStart(tape, ROOT_JSON_INDEX) && After(tape, ROOT_JSON_INDEX) <= U64_MAX
  {
    var d := FirstVacant(s.docs, 0);
    var owner := s.parsers[p].entry.generation;
    if d < |s.docs| then
      var g := s.docs[d].generation;
      (SetBusy(s.(docs := s.docs[d := Occupied(NewDocEntry(g, tape, rootPtr, p, owner, buffer))]), p, d, g),
       Ok(PackHandle(d + 1, g)))
    else if |s.docs| >= MAX_SLOT_COUNT then (SetArena(s, p, buffer), Err(Internal))
    else
      var g := DOC_GENERATION_START;
      (SetBusy(s.(docs := s.docs + [Occupied(NewDocEntry(g, tape, rootPtr, p, owner, buffer))]), p, d, g),
       Ok(PackHandle(d + 1, g)))
  }

  /** The native parser sees `input` followed by `padding` zeros, whatever the arena held before. */
  function Parse(s: State, handle: u64, input: Bytes, n: Native): (State, Result<u64, Status>)
    requires Inv(s) && NativeOk(n)
  {
    match FindParser(s, handle)
    case None => (s, Err(InvalidHandle))
    case Some(p) =>
      var e := s.parsers[p].entry;
      if e.state != Idle then (s, Err(ParserBusy))
      else if n.resetRc != StatusOk then (s, Err(n.resetRc))
      else if |input| > e.maxCapacity then (s, Err(CapacityLimit))
      else if n.padding == 0 then (SetArena(s, p, []), Err(Internal))
      else if |input| + n.padding > U64_MAX then (SetArena(s, p, []), Err(InvalidArgument))
      else
        var buffer := input + Zeros(n.padding);
        match n.parse(buffer, |input|)
        case ParseFailed(rc) => (SetArena(s, p, buffer), Err(rc))
        case Parsed(tape, rootPtr, afterRc) =>
          if afterRc != StatusOk then (SetArena(s, p, buffer), Err(afterRc))
          else AttachDoc(s, p, tape, rootPtr, buffer)
  }

  function FreeDoc(s: State, handle: u64, nativeRc: Status): (State, Status)
    requires Inv(s)
  {
    match FindDoc(s, handle)
    case None => (s, InvalidHandle)
    case Some(d) =>
      assert DocSlotOk(s, d);
      var e := s.docs[d].entry;
      var p := e.ownerSlot - 1;
      if nativeRc != StatusOk then (s, nativeRc)
      else
        (State(s.parsers[p := Occupied(s.parsers[p].entry.(state := Idle, reusableInput := e.inputStorage))],
               s.docs[d := Vacant(NextDocGeneration(e.generation))]),
         StatusOk)
  }

  // ----- Views

  /** The document and tape index that a view names, if it is one the registry issued. */
  function ResolveView(s: State, view: ValueView): (r: Option<(nat, nat)>)
    ensures r.Some? ==> r.value.0 < |s.docs| && s.docs[r.value.0].Occupied?
  {
    if view.state0 == 0 || view.reserved != 0 then None
    else
      match FindDoc(s, view.doc)
      case None => None
      case Some(d) =>
        var e := s.docs[d].entry;
        if view.state1 == ROOT_VIEW_TAG then
          if e.rootPtr == view.state0 then Some((d, ROOT_JSON_INDEX)) else None
        else if view.state1 == DESC_VIEW_TAG then
          if ROOT_JSON_INDEX <= view.state0 < e.rootAfterIndex && view.state0 in e.descendantIndices
          then Some((d, view.state0)) else None
        else None
  }

  /** Whatever bits the caller passes, a view resolves only to the start of an element or key. */
  lemma ResolvedIndexIsStart(s: State, view: ValueView)
    requires Inv(s) && ResolveView(s, view).Some?
    ensures var (d, i) := ResolveView(s, view).value;
            var t := s.docs[d].entry.tape;
            && IsValueStart(t, ROOT_JSON_INDEX) && i in DocNodes(t)
            && ROOT_JSON_INDEX <= i && IsValueStart(t, i) && After(t, i) <= After(t, ROOT_JSON_INDEX)
            && Nodes(t, i, After(t, i)) <= DocNodes(t)
  {
    var (d, i) := ResolveView(s, view).value;
    assert DocSlotOk(s, d);
    var t := s.docs[d].entry.tape;
    NodesAreStarts(t, ROOT_JSON_INDEX, After(t, ROOT_JSON_INDEX));
    assert ROOT_JSON_INDEX in DocNodes(t);
    assert NodeWithin(t, i, ROOT_JSON_INDEX, After(t, ROOT_JSON_INDEX), DocNodes(t));
  }

  function DescView(doc: u64, t: Words, i: nat): ValueView
    requires IsValueStart(t, i) && i <= U64_MAX
  {
    ValueView(doc, i, DESC_VIEW_TAG, KindAt(t, i), 0)
  }

  function SetDoc(s: State, d: nat, e: DocEntry): State
    requires d < |s.docs|
  {
    s.(docs := s.docs[d := Occupied(e)])
  }

  function Members(indices: seq<nat>): set<nat> {
    set n | n in indices
  }

  lemma MembersSnoc(indices: seq<nat>, n: nat)
    ensures Members(indices + [n]) == Members(indices) + {n}
  {
    assert forall m :: m in indices + [n] <==> m in indices || m == n;
  }

  function WithViews(e: DocEntry, issued: set<nat>): DocEntry {
    e.(descendantIndices := e.descendantIndices + issued)
  }

  lemma WithViewsComposes(e: DocEntry, a: set<nat>, b: set<nat>)
    ensures WithViews(e, {}) == e
    ensures WithViews(WithViews(e, a), b) == WithViews(e, a + b)
  {
    assert e.descendantIndices + {} == e.descendantIndices;
    assert (e.descendantIndices + a) + b == e.descendantIndices + (a + b);
  }

  /**
   Records elements found below a view (by field name, index, pointer, path or wildcard path)
   and hands out their views.  `kind` is the container kind the call insists on, if any.
   */
  function Descend(s: State, view: ValueView, kind: Option<u32>, found: Result<seq<nat>, Status>)
      : (State, Result<seq<nat>, Status>)
    requires Inv(s)
  {
    match ResolveView(s, view)
    case None => (s, Err(InvalidHandle))
    case Some((d, i)) =>
      ResolvedIndexIsStart(s, view);
      var e := s.docs[d].entry;
      if kind.Some? && KindAt(e.tape, i) != kind.value then (s, Err(WrongType))
      else
        match found
        case Err(rc) => (s, Err(rc))
        case Ok(indices) =>
          (SetDoc(s, d, WithViews(e, Members(indices))), Ok(indices))
  }

  /** Upstream lookups return element starts inside the receiver. */
  ghost predicate FoundBelow(s: State, view: ValueView, found: Result<seq<nat>, Status>)
    requires Inv(s)
  {
    match ResolveView(s, view)
    case None => true
    case Some((d, i)) =>
      ResolvedIndexIsStart(s, view);
      var t := s.docs[d].entry.tape;
      found.Ok? ==> forall n :: n in found.value ==> n in Nodes(t, i, After(t, i))
  }

  lemma NodeIsStart(t: Words, n: nat)
    requires IsValueStart(t, ROOT_JSON_INDEX) && n in DocNodes(t)
    ensures ROOT_JSON_INDEX <= n && IsValueStart(t, n) && After(t, n) <= After(t, ROOT_JSON_INDEX)
  {
    NodesAreStarts(t, ROOT_JSON_INDEX, After(t, ROOT_JSON_INDEX));
    assert NodeWithin(t, n, ROOT_JSON_INDEX, After(t, ROOT_JSON_INDEX), DocNodes(t));
  }

  /** Views handed out by `Descend` resolve, in the state it leaves, to the elements found. */
  lemma DescendedViewsResolve(s: State, view: ValueView, kind: Option<u32>, found: Result<seq<nat>, Status>, n: nat)
    requires Inv(s) && FoundBelow(s, view, found)
    requires Descend(s, view, kind, found).1.Ok? && n in found.value
    ensures var d := ResolveView(s, view).value.0;
            var t := s.docs[d].entry.tape;
            && IsValueStart(t, n) && n <= U64_MAX
            && ResolveView(Descend(s, view, kind, found).0, DescView(view.doc, t, n)) == Some((d, n))
  {
    ResolvedIndexIsStart(s, view);
    assert DocSlotOk(s, ResolveView(s, view).value.0);
    NodeIsStart(s.docs[ResolveView(s, view).value.0].entry.tape, n);
  }

  // ----- Iterators

  function ContainerKind(tag: u16): u32 {
    if tag == ARRAY_ITER_TAG then KIND_ARRAY else KIND_OBJECT
  }

  predicate IsIterTag(tag: u16) {
    tag == ARRAY_ITER_TAG || tag == OBJECT_ITER_TAG
  }

  function WithLease(e: DocEntry, id: u32, l: Lease): DocEntry {
    e.(iterLeases := e.iterLeases[id := l])
  }

  function NewIter(s: State, view: ValueView, tag: u16): (State, Result<IterView, Status>)
    requires Inv(s) && IsIterTag(tag)
  {
    match ResolveView(s, view)
    case None => (s, Err(InvalidHandle))
    case Some((d, i)) =>
      ResolvedIndexIsStart(s, view);
      assert DocSlotOk(s, d);
      var e := s.docs[d].entry;
      if KindAt(e.tape, i) != ContainerKind(tag) then (s, Err(WrongType))
      else
        var (state0, state1) := IterBounds(e.tape, i);
        match FreshLease(e.iterLeases, e.nextIterLease)
        case None => (s, Err(Internal))
        case Some(id) =>
          (SetDoc(s, d, WithLease(e, id, Lease(state0, state1, tag)).(nextIterLease := NextIterLease(id))),
           Ok(IterView(view.doc, state0, state1, id, tag, 0)))
  }

  /** The lease that an iterator struct names, if its header and both bounds match. */
  function FindLease(s: State, iter: IterView, tag: u16): (r: Option<nat>)
    ensures r.Some? ==> r.value < |s.docs| && s.docs[r.value].Occupied?
    ensures r.Some? ==> iter.index in s.docs[r.value].entry.iterLeases
                        && s.docs[r.value].entry.iterLeases[iter.index] == Lease(iter.state0, iter.state1, tag)
  {
    if iter.reserved != 0 || iter.tag != tag then None
    else
      match FindDoc(s, iter.doc)
      case None => None
      case Some(d) =>
        var leases := s.docs[d].entry.iterLeases;
        if iter.index in leases && leases[iter.index] == Lease(iter.state0, iter.state1, tag) then Some(d) else None
  }

  datatype IterReply =
    | Done
    | NextItem(iter: IterView, value: ValueView)
    | NextField(iter: IterView, key: ValueView, value: ValueView)

  lemma LeaseChildIsStart(s: State, iter: IterView, tag: u16)
    requires Inv(s) && FindLease(s, iter, tag).Some? && iter.state0 != iter.state1
    ensures var t := s.docs[FindLease(s, iter, tag).value].entry.tape;
            var v := if tag == ARRAY_ITER_TAG then iter.state0 else iter.state0 + 1;
            && IsValueStart(t, ROOT_JSON_INDEX)
            && (tag != ARRAY_ITER_TAG ==> tag == OBJECT_ITER_TAG && IsValueStart(t, iter.state0)
                                          && IsKeyWord(t[iter.state0]) && iter.state0 in DocNodes(t))
            && IsValueStart(t, v) && v in DocNodes(t) && v < iter.state1
            && iter.state0 < After(t, v) <= iter.state1
            && LeaseOk(t, Lease(After(t, v), iter.state1, tag))
  {
    var d := FindLease(s, iter, tag).value;
    assert DocSlotOk(s, d);
    var t := s.docs[d].entry.tape;
    assert LeaseOk(t, Lease(iter.state0, iter.state1, tag));
    if tag == ARRAY_ITER_TAG {
      assert iter.state0 in Nodes(t, iter.state0, After(t, iter.state0));
    } else {
      assert iter.state0 + 1 in Nodes(t, iter.state0 + 1, After(t, iter.state0 + 1));
      assert WfValue(t, iter.state0, iter.state0 + 1);
    }
  }

  lemma KeyIsString(t: Words, i: nat)
    requires IsValueStart(t, i) && IsKeyWord(t[i])
    ensures KindAt(t, i) == KIND_STRING
  {
  }

  function NextIter(s: State, iter: IterView, tag: u16): (State, Result<IterReply, Status>)
    requires Inv(s) && IsIterTag(tag)
  {
    match FindLease(s, iter, tag)
    case None => (s, Err(InvalidHandle))
    case Some(d) =>
      if iter.state0 == iter.state1 then (s, Ok(Done))
      else
        LeaseChildIsStart(s, iter, tag);
        var e := s.docs[d].entry;
        var v := if tag == ARRAY_ITER_TAG then iter.state0 else iter.state0 + 1;
        var next := After(e.tape, v);
        (SetDoc(s, d, WithLease(WithViews(e, {iter.state0, v}), iter.index, Lease(next, iter.state1, tag))),
         Ok(if tag == ARRAY_ITER_TAG
            then NextItem(iter.(state0 := next), DescView(iter.doc, e.tape, v))
            else NextField(iter.(state0 := next), DescView(iter.doc, e.tape, iter.state0),
                           DescView(iter.doc, e.tape, v))))
  }

  // ----- Every operation keeps the invariant

  lemma NewParserKeepsInv(s: State, maxCapacity: u64, maxDepth: u32)
    requires Inv(s)
    ensures Inv(NewParser(s, maxCapacity, maxDepth).0)
  {
    var s' := NewParser(s, maxCapacity, maxDepth).0;
    forall p | 0 <= p < |s'.parsers|
      ensures ParserSlotOk(s', p)
    {
      if p < |s.parsers| {
        assert ParserSlotOk(s, p);
      }
    }
    forall d | 0 <= d < |s'.docs|
      ensures DocSlotOk(s', d)
    {
      assert DocSlotOk(s, d);
    }
  }

  lemma FreeParserKeepsInv(s: State, handle: u64, nativeRc: Status)
    requires Inv(s)
    ensures Inv(FreeParser(s, handle, nativeRc).0)
  {
    var s' := FreeParser(s, handle, nativeRc).0;
    forall p | 0 <= p < |s'.parsers|
      ensures ParserSlotOk(s', p)
    {
      assert ParserSlotOk(s, p);
      GenerationsKeepParity(SlotGeneration(s.parsers[p]));
    }
    forall d | 0 <= d < |s'.docs|
      ensures DocSlotOk(s', d)
    {
      assert DocSlotOk(s, d);
    }
  }

  lemma SetArenaKeepsInv(s: State, p: nat, arena: Bytes)
    requires Inv(s) && p < |s.parsers| && s.parsers[p].Occupied? && s.parsers[p].entry.state == Idle
    ensures Inv(SetArena(s, p, arena))
  {
    var s' := SetArena(s, p, arena);
    forall q | 0 <= q < |s'.parsers|
      ensures ParserSlotOk(s', q)
    {
      assert ParserSlotOk(s, q);
    }
    forall d | 0 <= d < |s'.docs|
      ensures DocSlotOk(s', d)
    {
      assert DocSlotOk(s, d);
    }
  }

  lemma AttachDocKeepsInv(s: State, p: nat, tape: Words, rootPtr: u64, buffer: Bytes)
    requires Inv(s) && p < |s.parsers| && s.parsers[p].Occupied? && s.parsers[p].entry.state == Idle
    requires IsValueStart(tape, ROOT_JSON_INDEX) && After(tape, ROOT_JSON_INDEX) <= U64_MAX && rootPtr != 0
    ensures Inv(AttachDoc(s, p, tape, rootPtr, buffer).0)
  {
    var d := FirstVacant(s.docs, 0);
    var s' := AttachDoc(s, p, tape, rootPtr, buffer).0;
    if d == |s.docs| == MAX_SLOT_COUNT {
      SetArenaKeepsInv(s, p, buffer);
    } else {
      assert ParserSlotOk(s, p);
      forall q | 0 <= q < |s'.parsers|
        ensures ParserSlotOk(s', q)
      {
        assert ParserSlotOk(s, q);
      }
      forall c | 0 <= c < |s'.docs|
        ensures DocSlotOk(s', c)
      {
        if c < |s.docs| {
          assert DocSlotOk(s, c);
        }
      }
    }
  }

  lemma ParseKeepsInv(s: State, handle: u64, input: Bytes, n: Native)
    requires Inv(s) && NativeOk(n)
    ensures Inv(Parse(s, handle, input, n).0)
  {
    var found := FindParser(s, handle);
    if found.Some? && s.parsers[found.value].entry.state == Idle {
      var p := found.value;
      var buffer := input + Zeros(n.padding);
      SetArenaKeepsInv(s, p, []);
      SetArenaKeepsInv(s, p, buffer);
      var r := n.parse(buffer, |input|);
      if r.Parsed? {
        AttachDocKeepsInv(s, p, r.tape, r.rootPtr, buffer);
      }
    }
  }

  lemma FreeDocKeepsInv(s: State, handle: u64, nativeRc: Status)
    requires Inv(s)
    ensures Inv(FreeDoc(s, handle, nativeRc).0)
  {
    var s' := FreeDoc(s, handle, nativeRc).0;
    var found := FindDoc(s, handle);
    if found.Some? && nativeRc == StatusOk {
      assert DocSlotOk(s, found.value);
      GenerationsKeepParity(DocSlotGeneration(s.docs[found.value]));
      forall p | 0 <= p < |s'.parsers|
        ensures ParserSlotOk(s', p)
      {
        assert ParserSlotOk(s, p);
      }
      forall d | 0 <= d < |s'.docs|
        ensures DocSlotOk(s', d)
      {
        assert DocSlotOk(s, d);
      }
    }
  }

  /** Changing a live document's views and leases, and nothing else, keeps the invariant. */
  lemma SetDocKeepsInv(s: State, d: nat, e: DocEntry)
    requires Inv(s) && d < |s.docs| && s.docs[d].Occupied? && DocOk(e)
    requires var was := s.docs[d].entry;
             e.generation == was.generation && e.ownerSlot == was.ownerSlot && e.ownerGeneration == was.ownerGeneration
    ensures Inv(SetDoc(s, d, e))
  {
    var s' := SetDoc(s, d, e);
    forall p | 0 <= p < |s'.parsers|
      ensures ParserSlotOk(s', p)
    {
      assert ParserSlotOk(s, p);
    }
    forall c | 0 <= c < |s'.docs|
      ensures DocSlotOk(s', c)
    {
      assert DocSlotOk(s, c);
    }
  }

  lemma DescendKeepsInv(s: State, view: ValueView, kind: Option<u32>, found: Result<seq<nat>, Status>)
    requires Inv(s) && FoundBelow(s, view, found)
    ensures Inv(Descend(s, view, kind, found).0)
  {
    var r := ResolveView(s, view);
    if r.Some? && found.Ok? {
      ResolvedIndexIsStart(s, view);
      var e := s.docs[r.value.0].entry;
      assert DocSlotOk(s, r.value.0);
      SetDocKeepsInv(s, r.value.0, WithViews(e, Members(found.value)));
    }
  }

  /** The bounds of a container are a lease over all of its children. */
  lemma BoundsAreLease(t: Words, i: nat, tag: u16)
    requires IsIterTag(tag) && IsValueStart(t, ROOT_JSON_INDEX) && IsValueStart(t, i)
    requires ROOT_JSON_INDEX <= i && After(t, i) <= After(t, ROOT_JSON_INDEX) <= U64_MAX
    requires Nodes(t, i, After(t, i)) <= DocNodes(t) && KindAt(t, i) == ContainerKind(tag)
    ensures LeaseOk(t, Lease(IterBounds(t, i).0, IterBounds(t, i).1, tag))
  {
  }

  lemma LeaseKeepsDocOk(e: DocEntry, id: u32, l: Lease)
    requires DocOk(e) && LeaseOk(e.tape, l) && id != 0
    ensures DocOk(WithLease(e, id, l))
  {
  }

  lemma NewIterKeepsInv(s: State, view: ValueView, tag: u16)
    requires Inv(s) && IsIterTag(tag)
    ensures Inv(NewIter(s, view, tag).0)
  {
    var r := ResolveView(s, view);
    if r.Some? && NewIter(s, view, tag).1.Ok? {
      ResolvedIndexIsStart(s, view);
      var (d, i) := r.value;
      assert DocSlotOk(s, d);
      var e := s.docs[d].entry;
      var (state0, state1) := IterBounds(e.tape, i);
      FreshLeaseExistsIffRoom(e.iterLeases, e.nextIterLease);
      var id := FreshLease(e.iterLeases, e.nextIterLease).value;
      BoundsAreLease(e.tape, i, tag);
      LeaseKeepsDocOk(e, id, Lease(state0, state1, tag));
      SetDocKeepsInv(s, d, WithLease(e, id, Lease(state0, state1, tag)).(nextIterLease := NextIterLease(id)));
    }
  }

  lemma NextIterKeepsInv(s: State, iter: IterView, tag: u16)
    requires Inv(s) && IsIterTag(tag)
    ensures Inv(NextIter(s, iter, tag).0)
  {
    var found := FindLease(s, iter, tag);
    if found.Some? && iter.state0 != iter.state1 {
      LeaseChildIsStart(s, iter, tag);
      assert DocSlotOk(s, found.value);
      SetDocKeepsInv(s, found.value, NextIter(s, iter, tag).0.docs[found.value].entry);
    }
  }
}
