/**
 The two materializers of the Go package, side by side.

 The accessor path walks the tape through leased iterators; the fast path builds frames and
 decodes them.  Both return the Go value of the subtree, so which one runs cannot be observed.
 */
module Materializers {
  import opened Basics
  import opened Tape
  import opened Json
  import opened Handles
  import opened RegistrySpec
  import opened Registry
  import opened Frames
  import opened Encoder
  import opened FastPath

  // ----- Lease demand of a walk

  /** Containers in the value at [i, k); the walk leases one iterator for each. */
  function Containers(t: Words, i: nat, k: nat): nat
    requires WfValue(t, i, k)
    decreases k - i, 0
  {
    match t[i]
    case StartArray(_) => 1 + ItemContainers(t, i + 1, k - 1)
    case StartObject(_) => 1 + FieldContainers(t, i + 1, k - 1)
    case Leaf(_, _) => 0
  }

  function ItemContainers(t: Words, i: nat, k: nat): nat
    requires WfItems(t, i, k)
    decreases k - i, 1
  {
    if i == k then 0 else Containers(t, i, After(t, i)) + ItemContainers(t, After(t, i), k)
  }

  function FieldContainers(t: Words, i: nat, k: nat): nat
    requires WfFields(t, i, k)
    decreases k - i, 1
  {
    if i == k then 0 else Containers(t, i + 1, After(t, i + 1)) + FieldContainers(t, After(t, i + 1), k)
  }

  // ----- What a walk may change

  /** Only document `d` changed, and it only gained views and leases. */
  ghost predicate Extends(s: State, s': State, d: nat) {
    && s'.parsers == s.parsers && |s'.docs| == |s.docs|
    && d < |s.docs| && s.docs[d].Occupied? && s'.docs[d].Occupied?
    && (forall c :: 0 <= c < |s.docs| && c != d ==> s'.docs[c] == s.docs[c])
    && var e, e' := s.docs[d].entry, s'.docs[d].entry;
       && e'.generation == e.generation && e'.tape == e.tape && e'.rootPtr == e.rootPtr
       && e'.rootAfterIndex == e.rootAfterIndex
       && e.descendantIndices <= e'.descendantIndices
       && forall id :: id in e.iterLeases ==> id in e'.iterLeases && e'.iterLeases[id] == e.iterLeases[id]
  }

  lemma ExtendsTransitive(a: State, b: State, c: State, d: nat)
    requires Extends(a, b, d) && Extends(b, c, d)
    ensures Extends(a, c, d)
  {
  }

  function LeaseCount(s: State, d: nat): nat
    requires d < |s.docs| && s.docs[d].Occupied?
  {
    |s.docs[d].entry.iterLeases|
  }

  /** Lease ids are nonzero 32-bit numbers, so no document holds more leases than there are. */
  lemma LeasesFit(s: State, d: nat)
    requires Inv(s) && d < |s.docs| && s.docs[d].Occupied?
    ensures LeaseCount(s, d) <= U32_MAX
  {
    assert DocSlotOk(s, d);
    var leases := s.docs[d].entry.iterLeases;
    FewIdsFewLeases(leases.Keys, U32_MAX);
  }

  lemma NewIterExtends(s: State, view: ValueView, tag: u16)
    requires Inv(s) && IsIterTag(tag) && ResolveView(s, view).Some?
    requires var (d, i) := ResolveView(s, view).value;
             IsValueStart(s.docs[d].entry.tape, i) && KindAt(s.docs[d].entry.tape, i) == ContainerKind(tag)
    ensures var (d, i) := ResolveView(s, view).value;
            var t := s.docs[d].entry.tape;
            var (s', r) := NewIter(s, view, tag);
            && Extends(s, s', d)
            && if LeaseCount(s, d) >= U32_MAX then r == Err(Internal) && s' == s
               else
                 && r.Ok? && LeaseCount(s', d) == LeaseCount(s, d) + 1
                 && r.value.index !in s.docs[d].entry.iterLeases
                 && r.value.doc == view.doc && r.value.state0 == i + 1 && r.value.state1 == After(t, i) - 1
                 && FindLease(s', r.value, tag) == Some(d)
  {
    var (d, i) := ResolveView(s, view).value;
    assert DocSlotOk(s, d);
    FreshLeaseExistsIffRoom(s.docs[d].entry.iterLeases, s.docs[d].entry.nextIterLease);
  }

  /** One step of a lease that is younger than state `base`. */
  lemma NextIterExtends(base: State, s: State, iter: IterView, tag: u16, d: nat)
    requires Inv(s) && IsIterTag(tag) && Extends(base, s, d) && FindLease(s, iter, tag) == Some(d)
    requires iter.index !in base.docs[d].entry.iterLeases
    ensures var (s', r) := NextIter(s, iter, tag);
            && Extends(base, s', d) && LeaseCount(s', d) == LeaseCount(s, d) && r.Ok?
            && (iter.state0 == iter.state1 ==> r.value == Done && s' == s)
  {
    if iter.state0 != iter.state1 {
      LeaseChildIsStart(s, iter, tag);
      assert s.docs[d].entry.iterLeases.Keys + {iter.index} == s.docs[d].entry.iterLeases.Keys;
    }
  }

  /** `current` is the view of the value at `v`, and the iterator stands just behind it. */
  ghost predicate AtValue(s: State, d: nat, t: Words, end: nat, iter: IterView, v: nat, current: ValueView) {
    && IsValueStart(t, v) && After(t, v) <= end && iter.state0 == After(t, v)
    && ResolveView(s, current) == Some((d, v)) && s.docs[d].entry.tape == t && current.kindHint == KindAt(t, v)
  }

  /** A step that hands out a child: the reply's views resolve and the lease moves past the child. */
  lemma NextIterHandsOut(s: State, iter: IterView, tag: u16, d: nat, t: Words)
    requires Inv(s) && IsIterTag(tag) && FindLease(s, iter, tag) == Some(d) && iter.state0 != iter.state1
    requires s.docs[d].entry.tape == t
    ensures var v := if tag == ARRAY_ITER_TAG then iter.state0 else iter.state0 + 1;
            var (s', r) := NextIter(s, iter, tag);
            && v < iter.state1
            && r.Ok? && !r.value.Done? && r.value.NextItem? == (tag == ARRAY_ITER_TAG)
            && r.value.iter.index == iter.index && r.value.iter.state1 == iter.state1
            && FindLease(s', r.value.iter, tag) == Some(d)
            && AtValue(s', d, t, iter.state1, r.value.iter, v, r.value.value)
            && (tag == OBJECT_ITER_TAG ==>
                  && IsValueStart(t, iter.state0) && IsKeyWord(t[iter.state0])
                  && ResolveView(s', r.value.key) == Some((d, iter.state0)))
  {
    LeaseChildIsStart(s, iter, tag);
    assert DocSlotOk(s, d);
  }

  // ----- Scalar accessors and the sticky iterators of the Go package

  /**
   Reads a scalar of the kind that its accessor is for.  On an element of another kind the
   upstream accessor may convert or refuse; `other` is its answer there.
   */
  method GetScalar(reg: Registry, view: ValueView, kind: u32, other: Result<Scalar, Status>)
      returns (r: Result<Scalar, Status>)
    requires Inv(reg.Now())
    ensures match ResolveView(reg.Now(), view)
            case None => r == Err(InvalidHandle)
            case Some(x) =>
              var t := reg.docs[x.0].entry.tape;
              IsValueStart(t, x.1)
              && r == if t[x.1].Leaf? && KindAt(t, x.1) == kind then Ok(t[x.1].value) else other
  {
    var resolved := reg.WithResolvedView(view);
    if resolved.Err? {
      return Err(resolved.error);
    }
    var (d, i) := resolved.value;
    var tape := reg.docs[d].entry.tape;
    if KindAt(tape, i) == kind && tape[i].Leaf? {
      return Ok(ScalarAt(tape, i));
    }
    return other;
  }

  const NO_ITER: IterView := IterView(0, 0, 0, 0, 0, 0)

  class ArrayIter {
    var iter: IterView
    var currentValue: ValueView
    var done: bool
    var err: Option<Status>

    /** Wraps what the registry returned; a failure to start is remembered. */
    constructor (start: Result<IterView, Status>)
      ensures !done && currentValue == DEFAULT_VIEW
      ensures start.Ok? ==> iter == start.value && err == None
      ensures start.Err? ==> err == Some(start.error)
    {
      iter := if start.Ok? then start.value else NO_ITER;
      err := if start.Ok? then None else Some(start.error);
      currentValue, done := DEFAULT_VIEW, false;
    }

    /** Advances; once done or failed it stays so and touches nothing. */
    method Next(reg: Registry) returns (more: bool)
      requires Inv(reg.Now())
      modifies this, reg
      ensures Inv(reg.Now())
      ensures old(done) || old(err).Some? ==>
                !more && done == old(done) && err == old(err) && iter == old(iter) && reg.Now() == old(reg.Now())
      ensures !old(done) && old(err) == None && !more ==> currentValue == DEFAULT_VIEW
      ensures !old(done) && old(err) == None ==>
                var (s', r) := NextIter(old(reg.Now()), old(iter), ARRAY_ITER_TAG);
                && reg.Now() == s'
                && match r
                   case Err(rc) => !more && done && err == Some(rc) && iter == old(iter)
                   case Ok(reply) =>
                     if reply.Done? then !more && done && err == None && iter == old(iter)
                     else more && !done && err == None && currentValue == reply.value && iter == reply.iter
    {
      if done || err.Some? {
        return false;
      }
      var r := reg.ArrayIterNext(iter);
      if r.Err? {
        currentValue, done, err := DEFAULT_VIEW, true, Some(r.error);
        return false;
      }
      if r.value.Done? {
        currentValue, done := DEFAULT_VIEW, true;
        return false;
      }
      iter, currentValue := r.value.iter, r.value.value;
      return true;
    }
  }

  class ObjectIter {
    var iter: IterView
    var currentValue: ValueView
    var currentKey: Bytes
    var done: bool
    var err: Option<Status>

    constructor (start: Result<IterView, Status>)
      ensures !done && currentValue == DEFAULT_VIEW && currentKey == []
      ensures start.Ok? ==> iter == start.value && err == None
      ensures start.Err? ==> err == Some(start.error)
    {
      iter := if start.Ok? then start.value else NO_ITER;
      err := if start.Ok? then None else Some(start.error);
      currentValue, currentKey, done := DEFAULT_VIEW, [], false;
    }

    /** Advances and copies the key; once done or failed it stays so and touches nothing. */
    method Next(reg: Registry) returns (more: bool)
      requires Inv(reg.Now())
      modifies this, reg
      ensures Inv(reg.Now())
      ensures old(done) || old(err).Some? ==>
                !more && done == old(done) && err == old(err) && iter == old(iter) && reg.Now() == old(reg.Now())
      ensures !old(done) && old(err) == None && !more ==> currentValue == DEFAULT_VIEW && currentKey == []
      ensures !old(done) && old(err) == None ==>
                var (s', r) := NextIter(old(reg.Now()), old(iter), OBJECT_ITER_TAG);
                && reg.Now() == s'
                && match r
                   case Err(rc) => !more && done && err == Some(rc) && iter == old(iter)
                   case Ok(reply) =>
                     if reply.Done? then !more && done && err == None && iter == old(iter)
                     else
                       && more && !done && err == None && currentValue == reply.value && iter == reply.iter
                       && var d := FindLease(old(reg.Now()), old(iter), OBJECT_ITER_TAG).value;
                          var t := old(reg.docs)[d].entry.tape;
                          && old(iter).state0 < |t| && IsKeyWord(t[old(iter).state0])
                          && currentKey == KeyAt(t, old(iter).state0)
    {
      if done || err.Some? {
        return false;
      }
      var r := reg.ObjectIterNext(iter);
      if r.Err? {
        currentValue, currentKey, done, err := DEFAULT_VIEW, [], true, Some(r.error);
        return false;
      }
      if r.value.Done? {
        currentValue, currentKey, done := DEFAULT_VIEW, [], true;
        return false;
      }
      ghost var d := FindLease(old(reg.Now()), iter, OBJECT_ITER_TAG).value;
      NextIterHandsOut(old(reg.Now()), iter, OBJECT_ITER_TAG, d, old(reg.docs)[d].entry.tape);
      iter := r.value.iter;
      var key := GetScalar(reg, r.value.key, KIND_STRING, Err(WrongType));
      if key.Err? {
        assert false;
      }
      currentKey, currentValue := key.value.text, r.value.value;
      return true;
    }
  }

  // ----- The accessor materializer

  /**
   What a walk of the value at [i, k) of document `d` yields: its Go value and one more lease
   per container, or Internal when the lease map would overflow.
   */
  ghost predicate Walked(s: State, s': State, d: nat, t: Words, i: nat, k: nat, r: Result<Any, Status>) {
    && Extends(s, s', d) && s.docs[d].entry.tape == t && WfValue(t, i, k)
    && var need := LeaseCount(s, d) + Containers(t, i, k);
       if need <= U32_MAX then r == Ok(GoValue(Read(t, i, k))) && LeaseCount(s', d) == need
       else r == Err(Internal)
  }

  lemma ItemVisited(t: Words, at: nat, end: nat, values: seq<Any>)
    requires WfItems(t, at, end) && at < end
    ensures var j := After(t, at);
            && values + GoItems(ReadItems(t, at, end)) ==
               (values + [GoValue(Read(t, at, j))]) + GoItems(ReadItems(t, j, end))
            && ItemContainers(t, at, end) == Containers(t, at, j) + ItemContainers(t, j, end)
  {
    var j := After(t, at);
    var v, rest := GoValue(Read(t, at, j)), GoItems(ReadItems(t, j, end));
    GoItemsCons(Read(t, at, j), ReadItems(t, j, end));
    assert values + ([v] + rest) == (values + [v]) + rest;
  }

  lemma FieldVisited(t: Words, at: nat, end: nat, values: map<Bytes, Any>)
    requires WfFields(t, at, end) && at < end
    ensures var j := After(t, at + 1);
            && values + GoFields(ReadFields(t, at, end)) ==
               values[KeyAt(t, at) := GoValue(Read(t, at + 1, j))] + GoFields(ReadFields(t, j, end))
            && FieldContainers(t, at, end) == Containers(t, at + 1, j) + FieldContainers(t, j, end)
  {
    var j := After(t, at + 1);
    var key, v, rest := KeyAt(t, at), GoValue(Read(t, at + 1, j)), GoFields(ReadFields(t, j, end));
    GoFieldsCons(Field(key, Read(t, at + 1, j)), ReadFields(t, j, end));
    assert values + (map[key := v] + rest) == values[key := v] + rest;
  }

  /** The walk of one container's children, those in [lo, end), begun in state `base`. */
  datatype Walk = Walk(base: State, d: nat, t: Words, lo: nat, end: nat)

  ghost predicate Spans(w: Walk, i: nat, kind: u32) {
    && w.d < |w.base.docs| && w.base.docs[w.d].Occupied? && w.base.docs[w.d].entry.tape == w.t
    && IsValueStart(w.t, i) && KindAt(w.t, i) == kind && w.lo == i + 1 && w.end == After(w.t, i) - 1
  }

  /** `iter` is a current view of a lease that was taken after `w.base` and that ends with the walk. */
  ghost predicate IterOf(w: Walk, s: State, iter: IterView, tag: u16) {
    && w.d < |w.base.docs| && w.base.docs[w.d].Occupied?
    && iter.index !in w.base.docs[w.d].entry.iterLeases && iter.state1 == w.end && FindLease(s, iter, tag) == Some(w.d)
  }

  /** `Walked`, for the children of an array; the container itself takes one lease. */
  ghost predicate WalkedItems(w: Walk, s: State, r: Result<Any, Status>) {
    && Extends(w.base, s, w.d) && w.base.docs[w.d].entry.tape == w.t && WfItems(w.t, w.lo, w.end)
    && var need := LeaseCount(w.base, w.d) + 1 + ItemContainers(w.t, w.lo, w.end);
       if need <= U32_MAX
       then r == Ok(GoSlice(GoItems(ReadItems(w.t, w.lo, w.end)))) && LeaseCount(s, w.d) == need
       else r == Err(Internal)
  }

  /** `values` holds the children before `at`, and the rest is to come. */
  ghost predicate ItemsSoFar(w: Walk, at: nat, values: seq<Any>) {
    && WfItems(w.t, w.lo, w.end) && WfItems(w.t, at, w.end)
    && values + GoItems(ReadItems(w.t, at, w.end)) == GoItems(ReadItems(w.t, w.lo, w.end))
  }

  /** A walk that stands at `at`; leases grew by its own one and by what the visited children needed. */
  ghost predicate ArrayWalk(w: Walk, s: State, iter: IterView, at: nat) {
    && Extends(w.base, s, w.d) && w.base.docs[w.d].entry.tape == w.t
    && WfItems(w.t, w.lo, w.end) && WfItems(w.t, at, w.end)
    && LeaseCount(s, w.d) <= U32_MAX
    && LeaseCount(s, w.d) + ItemContainers(w.t, at, w.end) ==
       LeaseCount(w.base, w.d) + 1 + ItemContainers(w.t, w.lo, w.end)
    && IterOf(w, s, iter, ARRAY_ITER_TAG)
  }

  /** The iterator has just handed out the child at `at`. */
  ghost predicate ArrayAtChild(w: Walk, s: State, iter: IterView, at: nat, current: ValueView) {
    && ArrayWalk(w, s, iter, at) && at < w.end
    && AtValue(s, w.d, w.t, w.end, iter, at, current)
  }

  lemma ArrayWalkStarts(w: Walk, view: ValueView, i: nat)
    requires Inv(w.base) && ResolveView(w.base, view) == Some((w.d, i)) && Spans(w, i, KIND_ARRAY)
    ensures var (s, r) := NewIter(w.base, view, ARRAY_ITER_TAG);
            if LeaseCount(w.base, w.d) >= U32_MAX then r == Err(Internal) && WalkedItems(w, s, Err(Internal))
            else r.Ok? && r.value.state0 == w.lo && ArrayWalk(w, s, r.value, w.lo) && ItemsSoFar(w, w.lo, [])
  {
    NewIterExtends(w.base, view, ARRAY_ITER_TAG);
    var all := GoItems(ReadItems(w.t, w.lo, w.end));
    assert [] + all == all;
  }

  /** At the end the iterator reports Done and nothing changes. */
  lemma ArrayWalkStops(w: Walk, s: State, iter: IterView)
    requires Inv(s) && ArrayWalk(w, s, iter, w.end) && iter.state0 == w.end
    ensures NextIter(s, iter, ARRAY_ITER_TAG) == (s, Ok(Done))
  {
  }

  /** Before the end it hands out the child at `at`. */
  lemma ArrayWalkSteps(w: Walk, s: State, iter: IterView, at: nat)
    requires Inv(s) && ArrayWalk(w, s, iter, at) && iter.state0 == at < w.end
    ensures var (s', r) := NextIter(s, iter, ARRAY_ITER_TAG);
            && r.Ok? && !r.value.Done?
            && ArrayAtChild(w, s', r.value.iter, at, r.value.value)
  {
    NextIterExtends(w.base, s, iter, ARRAY_ITER_TAG, w.d);
    NextIterHandsOut(s, iter, ARRAY_ITER_TAG, w.d, w.t);
  }

  /** Visiting the child at `at` moves the walk past it, or proves that the whole walk must fail. */
  lemma ArrayWalkVisits(w: Walk, s: State, s': State, iter: IterView, at: nat, v: nat, values: seq<Any>,
                        current: ValueView, r: Result<Any, Status>)
    requires v == at && ArrayAtChild(w, s, iter, at, current) && ItemsSoFar(w, at, values)
    requires Walked(s, s', w.d, w.t, v, After(w.t, v), r)
    ensures r.Ok? ==> ArrayWalk(w, s', iter, iter.state0) && ItemsSoFar(w, iter.state0, values + [r.value])
    ensures r.Err? ==> WalkedItems(w, s', r)
  {
    ExtendsTransitive(w.base, s, s', w.d);
    ItemVisited(w.t, at, w.end, values);
  }

  lemma ArrayWalkEnds(w: Walk, s: State, iter: IterView, values: seq<Any>)
    requires ArrayWalk(w, s, iter, w.end) && ItemsSoFar(w, w.end, values)
    ensures WalkedItems(w, s, Ok(GoSlice(values)))
  {
    assert values + GoItems(ReadItems(w.t, w.end, w.end)) == values;
  }

  /** A finished walk of the children is a finished walk of their container. */
  lemma ArrayWalked(w: Walk, s: State, i: nat, r: Result<Any, Status>)
    requires Spans(w, i, KIND_ARRAY) && WalkedItems(w, s, r)
    ensures Walked(w.base, s, w.d, w.t, i, After(w.t, i), r)
  {
  }

  /** `Next` as the walk sees it. */
  method NextArrayChild(reg: Registry, iter: ArrayIter, ghost w: Walk, ghost at: nat) returns (more: bool)
    requires Inv(reg.Now()) && !iter.done && iter.err == None && iter.iter.state0 == at
    requires ArrayWalk(w, reg.Now(), iter.iter, at)
    modifies reg, iter
    ensures Inv(reg.Now()) && iter.err == None && (more <==> at < w.end) && (more ==> !iter.done)
    ensures more ==> ArrayAtChild(w, reg.Now(), iter.iter, at, iter.currentValue)
    ensures !more ==> at == w.end && ArrayWalk(w, reg.Now(), iter.iter, at)
  {
    if at < w.end {
      ArrayWalkSteps(w, reg.Now(), iter.iter, at);
    } else {
      ArrayWalkStops(w, reg.Now(), iter.iter);
    }
    more := iter.Next(reg);
  }

  /** `Walked`, for the children of an object; the container itself takes one lease. */
  ghost predicate WalkedFields(w: Walk, s: State, r: Result<Any, Status>) {
    && Extends(w.base, s, w.d) && w.base.docs[w.d].entry.tape == w.t && WfFields(w.t, w.lo, w.end)
    && var need := LeaseCount(w.base, w.d) + 1 + FieldContainers(w.t, w.lo, w.end);
       if need <= U32_MAX
       then r == Ok(GoMap(GoFields(ReadFields(w.t, w.lo, w.end)))) && LeaseCount(s, w.d) == need
       else r == Err(Internal)
  }

  /** `values` holds the children before `at`, and the rest is to come. */
  ghost predicate FieldsSoFar(w: Walk, at: nat, values: map<Bytes, Any>) {
    && WfFields(w.t, w.lo, w.end) && WfFields(w.t, at, w.end)
    && values + GoFields(ReadFields(w.t, at, w.end)) == GoFields(ReadFields(w.t, w.lo, w.end))
  }

  /** A walk that stands at `at`; leases grew by its own one and by what the visited children needed. */
  ghost predicate ObjectWalk(w: Walk, s: State, iter: IterView, at: nat) {
    && Extends(w.base, s, w.d) && w.base.docs[w.d].entry.tape == w.t
    && WfFields(w.t, w.lo, w.end) && WfFields(w.t, at, w.end)
    && LeaseCount(s, w.d) <= U32_MAX
    && LeaseCount(s, w.d) + FieldContainers(w.t, at, w.end) ==
       LeaseCount(w.base, w.d) + 1 + FieldContainers(w.t, w.lo, w.end)
    && IterOf(w, s, iter, OBJECT_ITER_TAG)
  }

  /** The iterator has just handed out the child at `at`. */
  ghost predicate ObjectAtChild(w: Walk, s: State, iter: IterView, at: nat, key: Bytes, current: ValueView) {
    && ObjectWalk(w, s, iter, at) && at < w.end
    && IsKeyWord(w.t[at]) && key == KeyAt(w.t, at)
    && AtValue(s, w.d, w.t, w.end, iter, at + 1, current)
  }

  lemma ObjectWalkStarts(w: Walk, view: ValueView, i: nat)
    requires Inv(w.base) && ResolveView(w.base, view) == Some((w.d, i)) && Spans(w, i, KIND_OBJECT)
    ensures var (s, r) := NewIter(w.base, view, OBJECT_ITER_TAG);
            if LeaseCount(w.base, w.d) >= U32_MAX then r == Err(Internal) && WalkedFields(w, s, Err(Internal))
            else r.Ok? && r.value.state0 == w.lo && ObjectWalk(w, s, r.value, w.lo) && FieldsSoFar(w, w.lo, map[])
  {
    NewIterExtends(w.base, view, OBJECT_ITER_TAG);
    var all := GoFields(ReadFields(w.t, w.lo, w.end));
    assert map[] + all == all;
  }

  /** At the end the iterator reports Done and nothing changes. */
  lemma ObjectWalkStops(w: Walk, s: State, iter: IterView)
    requires Inv(s) && ObjectWalk(w, s, iter, w.end) && iter.state0 == w.end
    ensures NextIter(s, iter, OBJECT_ITER_TAG) == (s, Ok(Done))
  {
  }

  /** Before the end it hands out the child at `at`. */
  lemma ObjectWalkSteps(w: Walk, s: State, iter: IterView, at: nat)
    requires Inv(s) && ObjectWalk(w, s, iter, at) && iter.state0 == at < w.end
    ensures var (s', r) := NextIter(s, iter, OBJECT_ITER_TAG);
            && r.Ok? && !r.value.Done? && IsKeyWord(w.t[at])
            && ObjectAtChild(w, s', r.value.iter, at, KeyAt(w.t, at), r.value.value)
  {
    NextIterExtends(w.base, s, iter, OBJECT_ITER_TAG, w.d);
    NextIterHandsOut(s, iter, OBJECT_ITER_TAG, w.d, w.t);
  }

  lemma FieldsSoFarGrow(w: Walk, at: nat, v: nat, j: nat, values: map<Bytes, Any>)
    requires FieldsSoFar(w, at, values) && at < w.end && v == at + 1 && j == After(w.t, v)
    ensures FieldsSoFar(w, j, values[KeyAt(w.t, at) := GoValue(Read(w.t, v, j))])
  {
    FieldVisited(w.t, at, w.end, values);
  }

  lemma FieldContainersSplit(t: Words, at: nat, v: nat, j: nat, end: nat)
    requires WfFields(t, at, end) && at < end && v == at + 1 && j == After(t, v)
    ensures WfValue(t, v, j) && WfFields(t, j, end)
    ensures FieldContainers(t, at, end) == Containers(t, v, j) + FieldContainers(t, j, end)
  {
  }

  lemma ObjectWalkMoves(w: Walk, s: State, s': State, iter: IterView, at: nat, v: nat, key: Bytes,
                        current: ValueView, r: Result<Any, Status>)
    requires v == at + 1 && ObjectAtChild(w, s, iter, at, key, current)
    requires Walked(s, s', w.d, w.t, v, After(w.t, v), r)
    ensures r.Ok? ==> ObjectWalk(w, s', iter, iter.state0) && r.value == GoValue(Read(w.t, v, After(w.t, v)))
    ensures r.Err? ==> WalkedFields(w, s', r)
  {
    ExtendsTransitive(w.base, s, s', w.d);
    FieldContainersSplit(w.t, at, v, After(w.t, v), w.end);
  }

  /** Visiting the child at `at` moves the walk past it, or proves that the whole walk must fail. */
  lemma ObjectWalkVisits(w: Walk, s: State, s': State, iter: IterView, at: nat, v: nat,
                         values: map<Bytes, Any>, key: Bytes, current: ValueView, r: Result<Any, Status>)
    requires v == at + 1 && ObjectAtChild(w, s, iter, at, key, current) && FieldsSoFar(w, at, values)
    requires Walked(s, s', w.d, w.t, v, After(w.t, v), r)
    ensures r.Ok? ==> ObjectWalk(w, s', iter, iter.state0) && FieldsSoFar(w, iter.state0, values[key := r.value])
    ensures r.Err? ==> WalkedFields(w, s', r)
  {
    ObjectWalkMoves(w, s, s', iter, at, v, key, current, r);
    FieldsSoFarGrow(w, at, v, After(w.t, v), values);
  }

  lemma ObjectWalkEnds(w: Walk, s: State, iter: IterView, values: map<Bytes, Any>)
    requires ObjectWalk(w, s, iter, w.end) && FieldsSoFar(w, w.end, values)
    ensures WalkedFields(w, s, Ok(GoMap(values)))
  {
    assert values + GoFields(ReadFields(w.t, w.end, w.end)) == values;
  }

  /** A finished walk of the children is a finished walk of their container. */
  lemma ObjectWalked(w: Walk, s: State, i: nat, r: Result<Any, Status>)
    requires Spans(w, i, KIND_OBJECT) && WalkedFields(w, s, r)
    ensures Walked(w.base, s, w.d, w.t, i, After(w.t, i), r)
  {
  }

  /** `Next` as the walk sees it. */
  method NextObjectChild(reg: Registry, iter: ObjectIter, ghost w: Walk, ghost at: nat) returns (more: bool)
    requires Inv(reg.Now()) && !iter.done && iter.err == None && iter.iter.state0 == at
    requires ObjectWalk(w, reg.Now(), iter.iter, at)
    modifies reg, iter
    ensures Inv(reg.Now()) && iter.err == None && (more <==> at < w.end) && (more ==> !iter.done)
    ensures more ==> ObjectAtChild(w, reg.Now(), iter.iter, at, iter.currentKey, iter.currentValue)
    ensures !more ==> at == w.end && ObjectWalk(w, reg.Now(), iter.iter, at)
  {
    if at < w.end {
      ObjectWalkSteps(w, reg.Now(), iter.iter, at);
    } else {
      ObjectWalkStops(w, reg.Now(), iter.iter);
    }
    more := iter.Next(reg);
  }

  /** A view carries the element's kind, or no kind at all. */
  predicate HintFits(view: ValueView, t: Words, i: nat) {
    IsValueStart(t, i) && (view.kindHint == KindAt(t, i) || view.kindHint == KIND_INVALID)
  }

  method ElementType(reg: Registry, view: ValueView) returns (r: Result<u32, Status>)
    requires Inv(reg.Now())
    ensures match ResolveView(reg.Now(), view)
            case None => r == Err(InvalidHandle)
            case Some(x) => var t := reg.docs[x.0].entry.tape; IsValueStart(t, x.1) && r == Ok(KindAt(t, x.1))
  {
    var resolved := reg.WithResolvedView(view);
    if resolved.Err? {
      return Err(resolved.error);
    }
    return Ok(KindAt(reg.docs[resolved.value.0].entry.tape, resolved.value.1));
  }

  /** Builds the Go value of the element by its accessors, one lease per container. */
  method MaterializeViaAccessors(reg: Registry, view: ValueView, ghost d: nat, ghost t: Words, ghost i: nat)
      returns (r: Result<Any, Status>)
    requires Inv(reg.Now()) && ResolveView(reg.Now(), view) == Some((d, i))
    requires reg.docs[d].entry.tape == t && IsValueStart(t, i) && HintFits(view, t, i)
    modifies reg
    ensures Inv(reg.Now())
    ensures Walked(old(reg.Now()), reg.Now(), d, t, i, After(t, i), r)
    decreases After(t, i) - i, 2
  {
    var kind := view.kindHint;
    if kind == KIND_INVALID {
      var resolved := ElementType(reg, view);
      kind := resolved.value;
    }
    if kind == KIND_ARRAY {
      r := MaterializeArray(reg, view, d, t, i);
    } else if kind == KIND_OBJECT {
      r := MaterializeObject(reg, view, d, t, i);
    } else {
      LeasesFit(reg.Now(), d);
      var scalar := GetScalar(reg, view, kind, Err(WrongType));
      r := if scalar.Ok? then Ok(GoScalar(scalar.value)) else Err(Internal);
    }
  }

  /** The loop body of the walk: builds the child that the iterator stands on. */
  method VisitArrayChild(reg: Registry, iter: ArrayIter, ghost w: Walk, ghost at: nat, values: seq<Any>)
      returns (r: Result<seq<Any>, Status>)
    requires Inv(reg.Now()) && ArrayAtChild(w, reg.Now(), iter.iter, at, iter.currentValue)
    requires ItemsSoFar(w, at, values)
    modifies reg
    ensures Inv(reg.Now())
    ensures r.Ok? ==> ArrayWalk(w, reg.Now(), iter.iter, iter.iter.state0) && ItemsSoFar(w, iter.iter.state0, r.value)
    ensures r.Err? ==> WalkedItems(w, reg.Now(), Err(r.error))
    decreases w.end - at, 3
  {
    ghost var s, v := reg.Now(), at;
    var child := MaterializeViaAccessors(reg, iter.currentValue, w.d, w.t, v);
    ArrayWalkVisits(w, s, reg.Now(), iter.iter, at, v, values, iter.currentValue, child);
    if child.Err? {
      return Err(child.error);
    }
    r := Ok(values + [child.value]);
  }

  /** One turn of the loop: build the child, store it, ask for the next one. */
  method AdvanceArray(reg: Registry, iter: ArrayIter, ghost w: Walk, ghost at: nat, values: seq<Any>)
      returns (r: Result<seq<Any>, Status>, more: bool, ghost next: nat)
    requires Inv(reg.Now()) && !iter.done && iter.err == None
    requires ArrayAtChild(w, reg.Now(), iter.iter, at, iter.currentValue) && ItemsSoFar(w, at, values)
    modifies reg, iter
    ensures Inv(reg.Now()) && iter.err == None && at < next && (more ==> !iter.done)
    ensures r.Ok? ==> ItemsSoFar(w, next, r.value)
    ensures r.Ok? && more ==> ArrayAtChild(w, reg.Now(), iter.iter, next, iter.currentValue)
    ensures r.Ok? && !more ==> next == w.end && ArrayWalk(w, reg.Now(), iter.iter, next)
    ensures r.Err? ==> WalkedItems(w, reg.Now(), Err(r.error))
    decreases w.end - at, 4
  {
    next := iter.iter.state0;
    r := VisitArrayChild(reg, iter, w, at, values);
    if r.Err? {
      return r, false, next;
    }
    more := NextArrayChild(reg, iter, w, next);
  }

  /** The loop over the children of one array. */
  method CollectItems(reg: Registry, iter: ArrayIter, ghost w: Walk) returns (r: Result<Any, Status>)
    requires Inv(reg.Now()) && !iter.done && iter.err == None && iter.iter.state0 == w.lo
    requires ArrayWalk(w, reg.Now(), iter.iter, w.lo) && ItemsSoFar(w, w.lo, [])
    modifies reg, iter
    ensures Inv(reg.Now()) && WalkedItems(w, reg.Now(), r)
    decreases w.end - w.lo, 5
  {
    ghost var at: nat := w.lo;
    var result: Result<seq<Any>, Status> := Ok([]);
    var more := NextArrayChild(reg, iter, w, at);
    while more
      invariant Inv(reg.Now()) && iter.err == None && result.Ok? && w.lo <= at && (more ==> !iter.done)
      invariant ItemsSoFar(w, at, result.value)
      invariant more ==> ArrayAtChild(w, reg.Now(), iter.iter, at, iter.currentValue)
      invariant !more ==> at == w.end && ArrayWalk(w, reg.Now(), iter.iter, at)
      decreases w.end - at
    {
      result, more, at := AdvanceArray(reg, iter, w, at, result.value);
      if result.Err? {
        return Err(result.error);
      }
    }
    if iter.err.Some? {
      assert false;
    }
    ArrayWalkEnds(w, reg.Now(), iter.iter, result.value);
    r := Ok(GoSlice(result.value));
  }

  method MaterializeArray(reg: Registry, view: ValueView, ghost d: nat, ghost t: Words, ghost i: nat)
      returns (r: Result<Any, Status>)
    requires Inv(reg.Now()) && ResolveView(reg.Now(), view) == Some((d, i))
    requires reg.docs[d].entry.tape == t && IsValueStart(t, i) && KindAt(t, i) == KIND_ARRAY
    modifies reg
    ensures Inv(reg.Now())
    ensures Walked(old(reg.Now()), reg.Now(), d, t, i, After(t, i), r)
    decreases After(t, i) - i, 0
  {
    ghost var w := Walk(reg.Now(), d, t, i + 1, After(t, i) - 1);
    ArrayWalkStarts(w, view, i);
    var start := reg.ArrayIterNew(view);
    var iter := new ArrayIter(start);
    if iter.err.Some? {
      ArrayWalked(w, reg.Now(), i, Err(Internal));
      return Err(iter.err.value);
    }
    r := CollectItems(reg, iter, w);
    ArrayWalked(w, reg.Now(), i, r);
  }

  /** The loop body of the walk: builds the child that the iterator stands on. */
  method VisitObjectChild(reg: Registry, iter: ObjectIter, ghost w: Walk, ghost at: nat, values: map<Bytes, Any>)
      returns (r: Result<map<Bytes, Any>, Status>)
    requires Inv(reg.Now()) && ObjectAtChild(w, reg.Now(), iter.iter, at, iter.currentKey, iter.currentValue)
    requires FieldsSoFar(w, at, values)
    modifies reg
    ensures Inv(reg.Now())
    ensures r.Ok? ==> ObjectWalk(w, reg.Now(), iter.iter, iter.iter.state0) && FieldsSoFar(w, iter.iter.state0, r.value)
    ensures r.Err? ==> WalkedFields(w, reg.Now(), Err(r.error))
    decreases w.end - at, 3
  {
    ghost var s, v := reg.Now(), at + 1;
    var child := MaterializeViaAccessors(reg, iter.currentValue, w.d, w.t, v);
    ObjectWalkVisits(w, s, reg.Now(), iter.iter, at, v, values, iter.currentKey, iter.currentValue, child);
    if child.Err? {
      return Err(child.error);
    }
    r := Ok(values[iter.currentKey := child.value]);
  }

  /** One turn of the loop: build the child, store it, ask for the next one. */
  method AdvanceObject(reg: Registry, iter: ObjectIter, ghost w: Walk, ghost at: nat, values: map<Bytes, Any>)
      returns (r: Result<map<Bytes, Any>, Status>, more: bool, ghost next: nat)
    requires Inv(reg.Now()) && !iter.done && iter.err == None
    requires ObjectAtChild(w, reg.Now(), iter.iter, at, iter.currentKey, iter.currentValue)
    requires FieldsSoFar(w, at, values)
    modifies reg, iter
    ensures Inv(reg.Now()) && iter.err == None && at < next && (more ==> !iter.done)
    ensures r.Ok? ==> FieldsSoFar(w, next, r.value)
    ensures r.Ok? && more ==> ObjectAtChild(w, reg.Now(), iter.iter, next, iter.currentKey, iter.currentValue)
    ensures r.Ok? && !more ==> next == w.end && ObjectWalk(w, reg.Now(), iter.iter, next)
    ensures r.Err? ==> WalkedFields(w, reg.Now(), Err(r.error))
    decreases w.end - at, 4
  {
    next := iter.iter.state0;
    r := VisitObjectChild(reg, iter, w, at, values);
    if r.Err? {
      return r, false, next;
    }
    more := NextObjectChild(reg, iter, w, next);
  }

  /** The loop over the children of one object. */
  method CollectFields(reg: Registry, iter: ObjectIter, ghost w: Walk) returns (r: Result<Any, Status>)
    requires Inv(reg.Now()) && !iter.done && iter.err == None && iter.iter.state0 == w.lo
    requires ObjectWalk(w, reg.Now(), iter.iter, w.lo) && FieldsSoFar(w, w.lo, map[])
    modifies reg, iter
    ensures Inv(reg.Now()) && WalkedFields(w, reg.Now(), r)
    decreases w.end - w.lo, 5
  {
    ghost var at: nat := w.lo;
    var result: Result<map<Bytes, Any>, Status> := Ok(map[]);
    var more := NextObjectChild(reg, iter, w, at);
    while more
      invariant Inv(reg.Now()) && iter.err == None && result.Ok? && w.lo <= at && (more ==> !iter.done)
      invariant FieldsSoFar(w, at, result.value)
      invariant more ==> ObjectAtChild(w, reg.Now(), iter.iter, at, iter.currentKey, iter.currentValue)
      invariant !more ==> at == w.end && ObjectWalk(w, reg.Now(), iter.iter, at)
      decreases w.end - at
    {
      result, more, at := AdvanceObject(reg, iter, w, at, result.value);
      if result.Err? {
        return Err(result.error);
      }
    }
    if iter.err.Some? {
      assert false;
    }
    ObjectWalkEnds(w, reg.Now(), iter.iter, result.value);
    r := Ok(GoMap(result.value));
  }

  method MaterializeObject(reg: Registry, view: ValueView, ghost d: nat, ghost t: Words, ghost i: nat)
      returns (r: Result<Any, Status>)
    requires Inv(reg.Now()) && ResolveView(reg.Now(), view) == Some((d, i))
    requires reg.docs[d].entry.tape == t && IsValueStart(t, i) && KindAt(t, i) == KIND_OBJECT
    modifies reg
    ensures Inv(reg.Now())
    ensures Walked(old(reg.Now()), reg.Now(), d, t, i, After(t, i), r)
    decreases After(t, i) - i, 0
  {
    ghost var w := Walk(reg.Now(), d, t, i + 1, After(t, i) - 1);
    ObjectWalkStarts(w, view, i);
    var start := reg.ObjectIterNew(view);
    var iter := new ObjectIter(start);
    if iter.err.Some? {
      ObjectWalked(w, reg.Now(), i, Err(Internal));
      return Err(iter.err.value);
    }
    r := CollectFields(reg, iter, w);
    ObjectWalked(w, reg.Now(), i, r);
  }

  // ----- The two paths

  /**
   A success is the element's Go value.  The frame path leaves the registry alone and succeeds
   exactly within the build limits while no other build runs; the accessor path is a walk.
   */
  ghost predicate Materialized(s: State, s': State, t: Words, building: bool, hasInternalBuild: bool, d: nat, i: nat,
                               r: Result<Any, Status>)
  {
    && IsValueStart(t, i)
    && (r.Ok? ==> r.value == GoValue(Read(t, i, After(t, i))))
    && if hasInternalBuild then
         var tree := TreeAt(t, i, After(t, i), []);
         && s' == s
         && (r.Ok? <==> !building && CountsFit(tree) && !ReachesDepth(tree, MAX_SUPPORTED_DEPTH))
         && (building ==> r == Err(ParserBusy))
         && (!building && CountsFit(tree) && ReachesDepth(tree, MAX_SUPPORTED_DEPTH) ==> r == Err(DepthLimit))
       else Walked(s, s', d, t, i, After(t, i), r)
  }

  /**
   Builds the Go value of an element whose document is open and locked: from frames when the
   native library offers them, through accessors otherwise.  Whatever path runs, a success is
   the Go value of the element's tree.
   */
  method MaterializeUnderLock(reg: Registry, native: NativeDoc, view: ValueView, hasInternalBuild: bool,
                              ghost d: nat, ghost i: nat) returns (r: Result<Any, Status>)
    requires Inv(reg.Now()) && ResolveView(reg.Now(), view) == Some((d, i))
    requires reg.docs[d].entry.tape == native.tape && HintFits(view, native.tape, i)
    modifies reg, native
    ensures Inv(reg.Now()) && native.materializeInProgress == old(native.materializeInProgress)
    ensures Materialized(old(reg.Now()), reg.Now(), native.tape, old(native.materializeInProgress), hasInternalBuild,
                         d, i, r)
  {
    if !hasInternalBuild {
      r := MaterializeViaAccessors(reg, view, d, native.tape, i);
      return r;
    }
    var resolved := reg.WithResolvedView(view);
    var rc, frames := native.MaterializeBuild(resolved.value.1);
    if rc != StatusOk {
      return Err(rc);
    }
    FramesDecodeToValue(native.tape, i, After(native.tape, i));
    var built := BuildAnyFromFrames(frames);
    r := if built.Ok? then Ok(built.value) else Err(Internal);
  }

  datatype Refusal = DocClosed | DocBusy | Failed(rc: Status)

  /**
   The whole call.  `seenClosed` and `closedUnderLock` are what the two looks at the document's
   closed flag find, `lockHeld` says that someone else holds its mutex.
   */
  method FastMaterializeElement(reg: Registry, native: NativeDoc, view: ValueView, seenClosed: bool, lockHeld: bool,
                                closedUnderLock: bool, hasInternalBuild: bool, ghost d: nat, ghost i: nat)
      returns (r: Result<Any, Refusal>)
    requires Inv(reg.Now())
    requires !seenClosed && !lockHeld && !closedUnderLock ==>
               && ResolveView(reg.Now(), view) == Some((d, i))
               && reg.docs[d].entry.tape == native.tape && HintFits(view, native.tape, i)
    modifies reg, native
    ensures Inv(reg.Now()) && native.materializeInProgress == old(native.materializeInProgress)
    ensures if seenClosed || (closedUnderLock && !lockHeld) then r == Err(DocClosed) && reg.Now() == old(reg.Now())
            else if lockHeld then r == Err(DocBusy) && reg.Now() == old(reg.Now())
            else
              && (r.Err? ==> r.error.Failed?)
              && Materialized(old(reg.Now()), reg.Now(), native.tape, old(native.materializeInProgress),
                              hasInternalBuild, d, i, if r.Ok? then Ok(r.value) else Err(r.error.rc))
  {
    if seenClosed {
      return Err(DocClosed);
    }
    if lockHeld {
      return Err(DocBusy);
    }
    if closedUnderLock {
      return Err(DocClosed);
    }
    var built := MaterializeUnderLock(reg, native, view, hasInternalBuild, d, i);
    r := if built.Ok? then Ok(built.value) else Err(Refusal.Failed(built.error));
  }

  /**
   For every JSON tree, and every element inside its document: the frames built for the element
   decode to exactly what a walk with enough leases returns.
   */
  lemma MaterializersAgree(v: Tree, header: Word, trailer: Word, pad: Scalar -> Words, n: nat,
                           s: State, s': State, d: nat, walked: Result<Any, Status>)
    requires var t := Document(v, header, trailer, pad);
             && IsValueStart(t, ROOT_JSON_INDEX) && n in Elements(t, ROOT_JSON_INDEX, After(t, ROOT_JSON_INDEX))
             && IsValueStart(t, n) && CountsFit(TreeAt(t, n, After(t, n), []))
             && Walked(s, s', d, t, n, After(t, n), walked)
             && LeaseCount(s, d) + Containers(t, n, After(t, n)) <= U32_MAX
    ensures var t := Document(v, header, trailer, pad);
            && walked.Ok? && Decode(Listing(TreeAt(t, n, After(t, n), []))) == Ok(walked.value)
            && (n == ROOT_JSON_INDEX ==> walked.value == GoValue(v))
  {
    var t := Document(v, header, trailer, pad);
    FramesDecodeToValue(t, n, After(t, n));
    DocumentReadsBack(v, header, trailer, pad);
  }
}
