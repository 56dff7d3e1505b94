/**
 The registry object: slot vectors updated in place by scanning, probing and guarded updates.

 Each method is proved equal to its transition in `RegistrySpec`.  The defensive exits of the
 source are kept; where the invariant makes one unreachable the branch says `assert false`.
 */
module Registry {
  import opened Basics
  import opened Tape
  import opened Handles
  import opened RegistrySpec

  class Registry {
    var parsers: seq<Slot<ParserEntry>>
    var docs: seq<Slot<DocEntry>>

    ghost function Now(): State
      reads this
    {
      State(parsers, docs)
    }

    constructor ()
      ensures Now() == EMPTY && Inv(Now())
    {
      parsers, docs := [], [];
    }

    // ----- Allocation

    method AllocParser(maxCapacity: u64, maxDepth: u32) returns (r: Result<u64, Status>)
      requires Inv(Now())
      modifies this
      ensures (Now(), r) == NewParser(old(Now()), maxCapacity, maxDepth) && Inv(Now())
    {
      NewParserKeepsInv(Now(), maxCapacity, maxDepth);
      var index := 0;
      while index < |parsers|
        invariant index <= |parsers| && Now() == old(Now())
        invariant FirstVacant(parsers, 0) == FirstVacant(parsers, index)
      {
        if parsers[index].Vacant? {
          var generation := parsers[index].generation;
          parsers := parsers[index := Occupied(NewParserEntry(generation, maxCapacity, maxDepth))];
          return Ok(PackHandle(index + 1, generation));
        }
        index := index + 1;
      }
      if |parsers| >= MAX_SLOT_COUNT {
        return Err(Internal);
      }
      parsers := parsers + [Occupied(NewParserEntry(PARSER_GENERATION_START, maxCapacity, maxDepth))];
      return Ok(PackHandle(|parsers|, PARSER_GENERATION_START));
    }

    /** Puts a document in the first vacant slot, or in a new one; fails when every slot is taken. */
    method AllocDoc(tape: Words, rootPtr: u64, p: nat, ownerGeneration: u32, input: Bytes)
        returns (r: Result<u64, Status>)
      requires p < MAX_SLOT_COUNT && |docs| <= MAX_SLOT_COUNT
      requires IsValueStart(tape, ROOT_JSON_INDEX) && After(tape, ROOT_JSON_INDEX) <= U64_MAX
      modifies this`docs
      ensures var d := FirstVacant(old(docs), 0);
              if d < |old(docs)| then
                var g := old(docs)[d].generation;
                && docs == old(docs)[d := Occupied(NewDocEntry(g, tape, rootPtr, p, ownerGeneration, input))]
                && r == Ok(PackHandle(d + 1, g))
              else if d < MAX_SLOT_COUNT then
                && docs == old(docs) +
                           [Occupied(NewDocEntry(DOC_GENERATION_START, tape, rootPtr, p, ownerGeneration, input))]
                && r == Ok(PackHandle(d + 1, DOC_GENERATION_START))
              else docs == old(docs) && r == Err(Internal)
    {
      var index := 0;
      while index < |docs|
        invariant index <= |docs| && docs == old(docs)
        invariant FirstVacant(docs, 0) == FirstVacant(docs, index)
      {
        if docs[index].Vacant? {
          var generation := docs[index].generation;
          docs := docs[index := Occupied(NewDocEntry(generation, tape, rootPtr, p, ownerGeneration, input))];
          return Ok(PackHandle(index + 1, generation));
        }
        index := index + 1;
      }
      if |docs| >= MAX_SLOT_COUNT {
        return Err(Internal);
      }
      docs := docs + [Occupied(NewDocEntry(DOC_GENERATION_START, tape, rootPtr, p, ownerGeneration, input))];
      return Ok(PackHandle(|docs|, DOC_GENERATION_START));
    }

    // ----- Parsers

    method ParserFree(handle: u64, nativeRc: Status) returns (rc: Status)
      requires Inv(Now())
      modifies this
      ensures (Now(), rc) == FreeParser(old(Now()), handle, nativeRc) && Inv(Now())
    {
      FreeParserKeepsInv(Now(), handle, nativeRc);
      var parts := UnpackHandle(handle);
      if parts.Err? {
        return parts.error;
      }
      var (index, generation) := parts.value;
      if index >= |parsers| || parsers[index].Vacant? || parsers[index].entry.generation != generation {
        return InvalidHandle;
      }
      if parsers[index].entry.state != Idle {
        return ParserBusy;
      }
      if nativeRc != StatusOk {
        return nativeRc;
      }
      parsers := parsers[index := Vacant(NextParserGeneration(generation))];
      return StatusOk;
    }

    method RestoreParserInputBuffer(index: nat, generation: u32, input: Bytes)
      modifies this`parsers
      ensures parsers ==
              if index < |old(parsers)| && old(parsers)[index].Occupied?
                 && old(parsers)[index].entry.generation == generation && old(parsers)[index].entry.state == Idle
              then old(parsers)[index := Occupied(old(parsers)[index].entry.(reusableInput := input))]
              else old(parsers)
    {
      if index < |parsers| && parsers[index].Occupied? {
        var entry := parsers[index].entry;
        if entry.generation == generation && entry.state == Idle {
          parsers := parsers[index := Occupied(entry.(reusableInput := input))];
        }
      }
    }

    /** The arena resized, overwritten with the input and zero-filled behind it. */
    method FillArena(arena: Bytes, input: Bytes, padding: nat) returns (owned: Bytes)
      ensures owned == input + Zeros(padding)
    {
      var total := |input| + padding;
      owned := if |arena| >= total then arena[..total] else arena + Zeros(total - |arena|);
      owned := input + owned[|input|..];
      owned := owned[..|input|] + Zeros(total - |input|);
    }

    /** Gives a parsed tape a document and marks its parser Busy, or puts the buffer back. */
    method AttachParsed(index: nat, generation: u32, tape: Words, rootPtr: u64, owned: Bytes)
        returns (r: Result<u64, Status>)
      requires index < |parsers| && index < MAX_SLOT_COUNT && |docs| <= MAX_SLOT_COUNT
      requires parsers[index].Occupied? && parsers[index].entry.generation == generation
      requires parsers[index].entry.state == Idle && parsers[index].entry.reusableInput == []
      requires IsValueStart(tape, ROOT_JSON_INDEX) && After(tape, ROOT_JSON_INDEX) <= U64_MAX
      modifies this
      ensures var d := FirstVacant(old(docs), 0);
              var g := if d < |old(docs)| then old(docs)[d].generation else DOC_GENERATION_START;
              var doc := Occupied(NewDocEntry(g, tape, rootPtr, index, generation, owned));
              var parser := old(parsers)[index].entry;
              if d >= MAX_SLOT_COUNT then
                && r == Err(Internal) && docs == old(docs)
                && parsers == old(parsers)[index := Occupied(parser.(reusableInput := owned))]
              else
                && r == Ok(PackHandle(d + 1, g))
                && docs == (if d < |old(docs)| then old(docs)[d := doc] else old(docs) + [doc])
                && parsers == old(parsers)[index := Occupied(parser.(state := Busy(d + 1, g)))]
    {
      ghost var d := FirstVacant(docs, 0);
      ghost var g := if d < |docs| then docs[d].generation else DOC_GENERATION_START;
      var doc := AllocDoc(tape, rootPtr, index, generation, owned);
      if doc.Err? {
        RestoreParserInputBuffer(index, generation, owned);
        return doc;
      }
      UnpackPacked(d, g);
      var (docIndex, docGeneration) := UnpackHandle(doc.value).value;
      if index < |parsers| && parsers[index].Occupied? && parsers[index].entry.generation == generation {
        parsers := parsers[index := Occupied(parsers[index].entry.(state := Busy(docIndex + 1, docGeneration)))];
        return doc;
      }
      assert false;
    }

    method ParserParse(handle: u64, input: Bytes, native: Native) returns (r: Result<u64, Status>)
      requires Inv(Now()) && NativeOk(native)
      modifies this
      ensures (Now(), r) == Parse(old(Now()), handle, input, native) && Inv(Now())
    {
      ghost var before := Now();
      ParseKeepsInv(before, handle, input, native);
      var parts := UnpackHandle(handle);
      if parts.Err? {
        return Err(parts.error);
      }
      var (index, generation) := parts.value;
      if index >= |parsers| || parsers[index].Vacant? || parsers[index].entry.generation != generation {
        return Err(InvalidHandle);
      }
      var entry := parsers[index].entry;
      if entry.state != Idle {
        return Err(ParserBusy);
      }
      if native.resetRc != StatusOk {
        return Err(native.resetRc);
      }
      if |input| > entry.maxCapacity {
        return Err(CapacityLimit);
      }
      parsers := parsers[index := Occupied(entry.(reusableInput := []))];
      if native.padding == 0 {
        return Err(Internal);
      }
      if |input| + native.padding > U64_MAX {
        return Err(InvalidArgument);
      }
      var owned := FillArena(entry.reusableInput, input, native.padding);
      var parsed := native.parse(owned, |input|);
      if parsed.ParseFailed? || parsed.afterRc != StatusOk {
        RestoreParserInputBuffer(index, generation, owned);
        assert Now() == SetArena(before, index, owned);
        return Err(if parsed.ParseFailed? then parsed.rc else parsed.afterRc);
      }
      r := AttachParsed(index, generation, parsed.tape, parsed.rootPtr, owned);
      assert Now() == AttachDoc(before, index, parsed.tape, parsed.rootPtr, owned).0;
    }

    method DocFree(handle: u64, nativeRc: Status) returns (rc: Status)
      requires Inv(Now())
      modifies this
      ensures (Now(), rc) == FreeDoc(old(Now()), handle, nativeRc) && Inv(Now())
    {
      ghost var before := Now();
      FreeDocKeepsInv(before, handle, nativeRc);
      var parts := UnpackHandle(handle);
      if parts.Err? {
        return parts.error;
      }
      var (docIndex, docGeneration) := parts.value;
      if docIndex >= |docs| || docs[docIndex].Vacant? || docs[docIndex].entry.generation != docGeneration {
        return InvalidHandle;
      }
      assert DocSlotOk(before, docIndex);
      var entry := docs[docIndex].entry;
      if entry.ownerSlot == 0 {
        assert false;
      }
      var parserIndex := entry.ownerSlot - 1;
      if parserIndex >= |parsers| || parsers[parserIndex].Vacant?
         || parsers[parserIndex].entry.generation != entry.ownerGeneration
         || parsers[parserIndex].entry.state != Busy(docIndex + 1, docGeneration)
      {
        assert false;
      }
      if nativeRc != StatusOk {
        return nativeRc;
      }
      docs := docs[docIndex := Vacant(NextDocGeneration(docGeneration))];
      parsers := parsers[parserIndex := Occupied(
        parsers[parserIndex].entry.(state := Idle, reusableInput := entry.inputStorage))];
      return StatusOk;
    }

    // ----- Views

    /** The root view of a live document. */
    method DocRoot(handle: u64) returns (r: Result<ValueView, Status>)
      requires Inv(Now())
      ensures r.Ok? <==> FindDoc(Now(), handle).Some?
      ensures r.Ok? ==> ResolveView(Now(), r.value) == Some((FindDoc(Now(), handle).value, ROOT_JSON_INDEX))
      ensures r.Ok? ==> var t := docs[FindDoc(Now(), handle).value].entry.tape;
                        IsValueStart(t, ROOT_JSON_INDEX) && r.value.kindHint == KindAt(t, ROOT_JSON_INDEX)
      ensures r.Err? ==> r.error == InvalidHandle
    {
      var found := FindDocIndex(handle);
      if found.None? {
        return Err(InvalidHandle);
      }
      assert DocSlotOk(Now(), found.value);
      var entry := docs[found.value].entry;
      return Ok(ValueView(handle, entry.rootPtr, ROOT_VIEW_TAG, KindAt(entry.tape, ROOT_JSON_INDEX), 0));
    }

    method FindDocIndex(handle: u64) returns (r: Option<nat>)
      ensures r == FindDoc(Now(), handle)
    {
      var parts := UnpackHandle(handle);
      if parts.Err? {
        return None;
      }
      var (index, generation) := parts.value;
      if index < |docs| && docs[index].Occupied? && docs[index].entry.generation == generation {
        return Some(index);
      }
      return None;
    }

    /** Resolves a caller-supplied view to a document slot and a tape index fit for native code. */
    method WithResolvedView(view: ValueView) returns (r: Result<(nat, nat), Status>)
      requires Inv(Now())
      ensures r == match ResolveView(Now(), view) { case None => Err(InvalidHandle) case Some(x) => Ok(x) }
      ensures r.Ok? ==> IsValueStart(docs[r.value.0].entry.tape, r.value.1)
    {
      if view.state0 == 0 || view.reserved != 0 {
        return Err(InvalidHandle);
      }
      var found := FindDocIndex(view.doc);
      if found.None? {
        return Err(InvalidHandle);
      }
      var entry := docs[found.value].entry;
      if view.state1 == ROOT_VIEW_TAG {
        if entry.rootPtr != view.state0 {
          return Err(InvalidHandle);
        }
        r := Ok((found.value, ROOT_JSON_INDEX));
      } else if view.state1 == DESC_VIEW_TAG {
        if view.state0 < ROOT_JSON_INDEX || view.state0 >= entry.rootAfterIndex
           || view.state0 !in entry.descendantIndices
        {
          return Err(InvalidHandle);
        }
        r := Ok((found.value, view.state0));
      } else {
        return Err(InvalidHandle);
      }
      ResolvedIndexIsStart(Now(), view);
    }

    /** Records one element found below a document and returns its view. */
    method EncodeDescendantView(d: nat, handle: u64, i: nat) returns (r: Result<ValueView, Status>)
      requires d < |docs| && docs[d].Occupied? && DocOk(docs[d].entry) && i in DocNodes(docs[d].entry.tape)
      modifies this`docs
      ensures var e := old(docs)[d].entry;
              && IsValueStart(e.tape, i) && i <= U64_MAX
              && docs == old(docs)[d := Occupied(WithViews(e, {i}))]
              && r == Ok(DescView(handle, e.tape, i))
    {
      var entry := docs[d].entry;
      NodeIsStart(entry.tape, i);
      if i == 0 || i >= entry.rootAfterIndex {
        assert false;
      }
      docs := docs[d := Occupied(WithViews(entry, {i}))];
      return Ok(DescView(handle, entry.tape, i));
    }

    /** The views of elements that an upstream lookup found below `view`. */
    method DescendTo(view: ValueView, kind: Option<u32>, found: Result<seq<nat>, Status>)
        returns (r: Result<seq<ValueView>, Status>)
      requires Inv(Now()) && FoundBelow(Now(), view, found)
      modifies this
      ensures Now() == Descend(old(Now()), view, kind, found).0 && Inv(Now())
      ensures r.Err? ==> Descend(old(Now()), view, kind, found).1 == Err(r.error)
      ensures r.Ok? ==> Descend(old(Now()), view, kind, found).1.Ok? && |r.value| == |found.value|
      ensures r.Ok? ==> forall j :: 0 <= j < |r.value| ==>
                          ResolveView(Now(), r.value[j]) ==
                          Some((ResolveView(old(Now()), view).value.0, found.value[j]))
    {
      ghost var before := Now();
      DescendKeepsInv(before, view, kind, found);
      var resolved := WithResolvedView(view);
      if resolved.Err? {
        return Err(resolved.error);
      }
      var (d, i) := resolved.value;
      ResolvedIndexIsStart(before, view);
      assert DocSlotOk(before, d);
      if kind.Some? && KindAt(docs[d].entry.tape, i) != kind.value {
        return Err(WrongType);
      }
      if found.Err? {
        return Err(found.error);
      }
      r := EncodeAll(d, view.doc, found.value);
      forall j | 0 <= j < |r.value|
        ensures ResolveView(Now(), r.value[j]) == Some((d, found.value[j]))
      {
        assert found.value[j] in found.value;
        DescendedViewsResolve(before, view, kind, found, found.value[j]);
      }
    }

    /** Records every listed element and returns their views in the same order. */
    method EncodeAll(d: nat, handle: u64, indices: seq<nat>) returns (r: Result<seq<ValueView>, Status>)
      requires d < |docs| && docs[d].Occupied? && DocOk(docs[d].entry)
      requires After(docs[d].entry.tape, ROOT_JSON_INDEX) <= U64_MAX
      requires forall n :: n in indices ==> n in DocNodes(docs[d].entry.tape)
      modifies this`docs
      ensures var e := old(docs)[d].entry;
              && docs == old(docs)[d := Occupied(WithViews(e, Members(indices)))]
              && r.Ok? && |r.value| == |indices|
              && forall j :: 0 <= j < |indices| ==>
                   IsValueStart(e.tape, indices[j]) && indices[j] <= U64_MAX
                   && r.value[j] == DescView(handle, e.tape, indices[j])
    {
      ghost var e := docs[d].entry;
      var out: seq<ValueView> := [];
      var next := 0;
      WithViewsComposes(e, {}, {});
      assert Members(indices[..0]) == {};
      while next < |indices|
        invariant next == |out| <= |indices|
        invariant docs == old(docs)[d := Occupied(WithViews(e, Members(indices[..next])))]
        invariant Members(indices[..next]) <= DocNodes(e.tape)
        invariant forall j :: 0 <= j < next ==>
                    IsValueStart(e.tape, indices[j]) && indices[j] <= U64_MAX
                    && out[j] == DescView(handle, e.tape, indices[j])
      {
        assert indices[..next + 1] == indices[..next] + [indices[next]];
        MembersSnoc(indices[..next], indices[next]);
        WithViewsComposes(e, Members(indices[..next]), {indices[next]});
        assert indices[next] in indices;
        var one := EncodeDescendantView(d, handle, indices[next]);
        out := out + [one.value];
        next := next + 1;
      }
      assert indices[..next] == indices;
      return Ok(out);
    }

    // ----- Iterators

    /** Finds an unused lease id by cyclic probing and records the lease under it. */
    method AllocIterLease(d: nat, tag: u16, state0: u64, state1: u64) returns (r: Result<u32, Status>)
      requires d < |docs| && docs[d].Occupied? && 0 !in docs[d].entry.iterLeases
      modifies this`docs
      ensures var e := old(docs)[d].entry;
              match FreshLease(e.iterLeases, e.nextIterLease)
              case None => r == Err(Internal) && docs == old(docs) && |e.iterLeases| >= U32_MAX
              case Some(id) =>
                && r == Ok(id)
                && docs == old(docs)[d := Occupied(
                     WithLease(e, id, Lease(state0, state1, tag)).(nextIterLease := NextIterLease(id)))]
    {
      var entry := docs[d].entry;
      FreshLeaseExistsIffRoom(entry.iterLeases, entry.nextIterLease);
      if |entry.iterLeases| >= U32_MAX {
        return Err(Internal);
      }
      var leaseId: u32 := if entry.nextIterLease == 0 then ITER_LEASE_START else entry.nextIterLease;
      var tries := 0;
      while tries < U32_MAX
        invariant tries <= U32_MAX && docs == old(docs)
        invariant Probe(entry.iterLeases, leaseId, U32_MAX - tries) ==
                  FreshLease(entry.iterLeases, entry.nextIterLease)
      {
        if leaseId !in entry.iterLeases {
          docs := docs[d := Occupied(WithLease(entry, leaseId, Lease(state0, state1, tag))
                                     .(nextIterLease := NextIterLease(leaseId)))];
          return Ok(leaseId);
        }
        leaseId := NextIterLease(leaseId);
        tries := tries + 1;
      }
      assert false;
    }

    method IterNew(view: ValueView, tag: u16) returns (r: Result<IterView, Status>)
      requires Inv(Now()) && IsIterTag(tag)
      modifies this
      ensures (Now(), r) == NewIter(old(Now()), view, tag) && Inv(Now())
    {
      ghost var before := Now();
      NewIterKeepsInv(before, view, tag);
      var resolved := WithResolvedView(view);
      if resolved.Err? {
        return Err(resolved.error);
      }
      var (d, i) := resolved.value;
      assert DocSlotOk(before, d);
      ResolvedIndexIsStart(before, view);
      var tape := docs[d].entry.tape;
      if KindAt(tape, i) != ContainerKind(tag) {
        return Err(WrongType);
      }
      var (state0, state1) := IterBounds(tape, i);
      var leaseId := AllocIterLease(d, tag, state0, state1);
      if leaseId.Err? {
        return Err(leaseId.error);
      }
      return Ok(IterView(view.doc, state0, state1, leaseId.value, tag, 0));
    }

    method ArrayIterNew(view: ValueView) returns (r: Result<IterView, Status>)
      requires Inv(Now())
      modifies this
      ensures (Now(), r) == NewIter(old(Now()), view, ARRAY_ITER_TAG) && Inv(Now())
    {
      r := IterNew(view, ARRAY_ITER_TAG);
    }

    method ObjectIterNew(view: ValueView) returns (r: Result<IterView, Status>)
      requires Inv(Now())
      modifies this
      ensures (Now(), r) == NewIter(old(Now()), view, OBJECT_ITER_TAG) && Inv(Now())
    {
      r := IterNew(view, OBJECT_ITER_TAG);
    }

    /** The document slot of an iterator whose header, lease and bounds all check out. */
    method WithIterDoc(iter: IterView, expectedTag: u16) returns (r: Result<nat, Status>)
      requires Inv(Now())
      ensures r == match FindLease(Now(), iter, expectedTag) { case None => Err(InvalidHandle) case Some(d) => Ok(d) }
    {
      if iter.reserved != 0 || iter.tag != expectedTag {
        return Err(InvalidHandle);
      }
      var found := FindDocIndex(iter.doc);
      if found.None? {
        return Err(InvalidHandle);
      }
      var entry := docs[found.value].entry;
      assert DocSlotOk(Now(), found.value);
      if iter.index !in entry.iterLeases
         || entry.iterLeases[iter.index] != Lease(iter.state0, iter.state1, expectedTag)
      {
        return Err(InvalidHandle);
      }
      assert LeaseOk(entry.tape, entry.iterLeases[iter.index]);
      if iter.state0 > iter.state1
         || iter.state0 == 0 || iter.state0 >= entry.rootAfterIndex
         || iter.state1 == 0 || iter.state1 >= entry.rootAfterIndex
      {
        assert false;
      }
      return Ok(found.value);
    }

    method UpdateIterLease(d: nat, leaseId: u32, state0: u64, state1: u64, tag: u16) returns (rc: Status)
      requires d < |docs| && docs[d].Occupied?
      modifies this`docs
      ensures var e := old(docs)[d].entry;
              if leaseId in e.iterLeases && e.iterLeases[leaseId].tag == tag
              then rc == StatusOk && docs == old(docs)[d := Occupied(WithLease(e, leaseId, Lease(state0, state1, tag)))]
              else rc == InvalidHandle && docs == old(docs)
    {
      var entry := docs[d].entry;
      if leaseId in entry.iterLeases && entry.iterLeases[leaseId].tag == tag {
        docs := docs[d := Occupied(WithLease(entry, leaseId, Lease(state0, state1, tag)))];
        return StatusOk;
      }
      return InvalidHandle;
    }

    method ArrayIterNext(iter: IterView) returns (r: Result<IterReply, Status>)
      requires Inv(Now())
      modifies this
      ensures (Now(), r) == NextIter(old(Now()), iter, ARRAY_ITER_TAG) && Inv(Now())
    {
      ghost var before := Now();
      NextIterKeepsInv(before, iter, ARRAY_ITER_TAG);
      var found := WithIterDoc(iter, ARRAY_ITER_TAG);
      if found.Err? {
        return Err(found.error);
      }
      if iter.state0 == iter.state1 {
        return Ok(Done);
      }
      var d := found.value;
      assert DocSlotOk(before, d);
      LeaseChildIsStart(before, iter, ARRAY_ITER_TAG);
      var tape := docs[d].entry.tape;
      var value := EncodeDescendantView(d, iter.doc, iter.state0);
      var next := AfterIndex(tape, iter.state0);
      if next <= iter.state0 || next > iter.state1 {
        assert false;
      }
      var rc := UpdateIterLease(d, iter.index, next, iter.state1, ARRAY_ITER_TAG);
      assert {iter.state0, iter.state0} == {iter.state0};
      assert Now() == NextIter(before, iter, ARRAY_ITER_TAG).0;
      return Ok(NextItem(iter.(state0 := next), value.value));
    }

    /** The views of a key and of its value. */
    method EncodeField(d: nat, handle: u64, i: nat, v: nat) returns (key: ValueView, value: ValueView)
      requires d < |docs| && docs[d].Occupied? && DocOk(docs[d].entry)
      requires i in DocNodes(docs[d].entry.tape) && v in DocNodes(docs[d].entry.tape)
      modifies this`docs
      ensures var e := old(docs)[d].entry;
              && IsValueStart(e.tape, i) && IsValueStart(e.tape, v) && i <= U64_MAX && v <= U64_MAX
              && docs == old(docs)[d := Occupied(WithViews(e, {i, v}))]
              && key == DescView(handle, e.tape, i) && value == DescView(handle, e.tape, v)
    {
      ghost var entry := docs[d].entry;
      var first := EncodeDescendantView(d, handle, i);
      var second := EncodeDescendantView(d, handle, v);
      WithViewsComposes(entry, {i}, {v});
      assert {i} + {v} == {i, v};
      return first.value, second.value;
    }

    method ObjectIterNext(iter: IterView) returns (r: Result<IterReply, Status>)
      requires Inv(Now())
      modifies this
      ensures (Now(), r) == NextIter(old(Now()), iter, OBJECT_ITER_TAG) && Inv(Now())
    {
      ghost var before := Now();
      NextIterKeepsInv(before, iter, OBJECT_ITER_TAG);
      var found := WithIterDoc(iter, OBJECT_ITER_TAG);
      if found.Err? {
        return Err(found.error);
      }
      if iter.state0 == iter.state1 {
        return Ok(Done);
      }
      var d := found.value;
      assert DocSlotOk(before, d);
      LeaseChildIsStart(before, iter, OBJECT_ITER_TAG);
      var entry := docs[d].entry;
      var tape := entry.tape;
      var valueIndex := iter.state0 + 1;
      if valueIndex >= iter.state1 || valueIndex >= entry.rootAfterIndex {
        assert false;
      }
      KeyIsString(tape, iter.state0);
      if KindAt(tape, iter.state0) != KIND_STRING {
        assert false;
      }
      var key, value := EncodeField(d, iter.doc, iter.state0, valueIndex);
      var next := AfterIndex(tape, valueIndex);
      if next <= valueIndex || next > iter.state1 {
        assert false;
      }
      var rc := UpdateIterLease(d, iter.index, next, iter.state1, OBJECT_ITER_TAG);
      assert Now() == NextIter(before, iter, OBJECT_ITER_TAG).0;
      return Ok(NextField(iter.(state0 := next), key, value));
    }
  }
}
