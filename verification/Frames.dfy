/**
 The preorder frame stream and its decoder.

 A `FrameTree` is the tree that a stream lists.  The decoder accepts exactly the listings of
 one valid tree, and a stream lists at most one valid tree.
 */
module Frames {
  import opened Basics
  import opened Tape
  import opened Json

  /** A borrowed byte range: its pointer may be null, its length is `|bytes|`. */
  datatype Span = Span(isNull: bool, bytes: Bytes)

  datatype Frame = Frame(
    kind: u32,
    flags: u32,
    childCount: u32,
    key: Span,
    text: Span,
    int64Value: i64,
    uint64Value: u64,
    float64Bits: u64)

  datatype Violation =
    | EmptySpan
    | TrailingFrames
    | IndexOutOfSpan
    | NilString
    | NilBigInt
    | NilKey
    | ChildCountExceedsSpan
    | UnknownKind

  datatype FrameError = FrameError(index: nat, kind: u32, detail: Violation)

  // ----- Trees of frames

  datatype FrameTree = Node(frame: Frame, kids: seq<FrameTree>)

  function Listing(tree: FrameTree): (r: seq<Frame>)
    ensures |r| >= 1 && r[0] == tree.frame
    decreases tree
  {
    [tree.frame] + ListingAll(tree.kids)
  }

  function ListingAll(trees: seq<FrameTree>): seq<Frame>
    decreases trees
  {
    if trees == [] then [] else Listing(trees[0]) + ListingAll(trees[1..])
  }

  predicate SpanOk(s: Span) {
    s.bytes == [] || !s.isNull
  }

  /** A tree that the decoder must accept. */
  predicate Valid(tree: FrameTree)
    decreases tree
  {
    var f := tree.frame;
    if f.kind == KIND_ARRAY then
      |tree.kids| == f.childCount && forall kid :: kid in tree.kids ==> Valid(kid)
    else if f.kind == KIND_OBJECT then
      |tree.kids| == f.childCount && forall kid :: kid in tree.kids ==> SpanOk(kid.frame.key) && Valid(kid)
    else
      && KIND_NULL <= f.kind <= KIND_BIGINT
      && tree.kids == []
      && (f.kind == KIND_STRING || f.kind == KIND_BIGINT ==> SpanOk(f.text))
  }

  /** What a frame without children stands for. */
  function DenoteLeaf(f: Frame): Any {
    if f.kind == KIND_BOOL then GoBool(f.flags != 0)
    else if f.kind == KIND_INT64 then GoInt64(f.int64Value)
    else if f.kind == KIND_UINT64 then GoUint64(f.uint64Value)
    else if f.kind == KIND_FLOAT64 then GoFloat64(f.float64Bits)
    else if f.kind == KIND_STRING || f.kind == KIND_BIGINT then GoString(f.text.bytes)
    else GoNil
  }

  function Denote(tree: FrameTree): Any
    decreases tree
  {
    if tree.frame.kind == KIND_ARRAY then GoSlice(DenoteElems(tree.kids))
    else if tree.frame.kind == KIND_OBJECT then GoMap(DenoteMembers(tree.kids))
    else DenoteLeaf(tree.frame)
  }

  function DenoteElems(trees: seq<FrameTree>): seq<Any>
    decreases trees
  {
    if trees == [] then [] else [Denote(trees[0])] + DenoteElems(trees[1..])
  }

  function DenoteMembers(trees: seq<FrameTree>): map<Bytes, Any>
    decreases trees
  {
    if trees == [] then map[]
    else map[trees[0].frame.key.bytes := Denote(trees[0])] + DenoteMembers(trees[1..])
  }

  // ----- The decoder as a function

  /** A decoded part and the frame index after it, or the first violation. */
  datatype Step<+T> = Decoded(value: T, next: nat) | Failed(error: FrameError)

  function CopyFrameString(s: Span, index: nat, kind: u32, detail: Violation): Result<Bytes, FrameError> {
    if s.bytes == [] then Ok([])
    else if s.isNull then Err(FrameError(index, kind, detail))
    else Ok(s.bytes)
  }

  /** Elements already decoded, put in front of those still to come. */
  function Prepend(values: seq<Any>, rest: Step<seq<Any>>): Step<seq<Any>> {
    match rest
    case Decoded(vs, k) => Decoded(values + vs, k)
    case Failed(e) => Failed(e)
  }

  /** Members already decoded; those still to come take precedence. */
  function Overlay(values: map<Bytes, Any>, rest: Step<map<Bytes, Any>>): Step<map<Bytes, Any>> {
    match rest
    case Decoded(m, k) => Decoded(values + m, k)
    case Failed(e) => Failed(e)
  }

  lemma PrependComposes(values: seq<Any>, v: Any, rest: Step<seq<Any>>)
    ensures Prepend([], rest) == rest
    ensures Prepend(values, Prepend([v], rest)) == Prepend(values + [v], rest)
  {
    if rest.Decoded? {
      assert [] + rest.value == rest.value;
      assert values + ([v] + rest.value) == (values + [v]) + rest.value;
    }
  }

  lemma OverlayComposes(values: map<Bytes, Any>, key: Bytes, v: Any, rest: Step<map<Bytes, Any>>)
    ensures Overlay(map[], rest) == rest
    ensures Overlay(values, Overlay(map[key := v], rest)) == Overlay(values[key := v], rest)
  {
    if rest.Decoded? {
      assert map[] + rest.value == rest.value;
      assert values + (map[key := v] + rest.value) == values[key := v] + rest.value;
    }
  }

  function Left(fs: seq<Frame>, i: nat): nat {
    if i < |fs| then |fs| - i else 0
  }

  function DecodeFrame(fs: seq<Frame>, i: nat): (r: Step<Any>)
    ensures r.Decoded? ==> i < r.next <= |fs|
    decreases Left(fs, i), 0, 0
  {
    if i >= |fs| then Failed(FrameError(i, KIND_INVALID, IndexOutOfSpan))
    else
      var f := fs[i];
      if f.kind == KIND_ARRAY then
        match DecodeElems(fs, i + 1, f.childCount, i)
        case Decoded(vs, k) => Decoded(GoSlice(vs), k)
        case Failed(e) => Failed(e)
      else if f.kind == KIND_OBJECT then
        match DecodeMembers(fs, i + 1, f.childCount, i)
        case Decoded(m, k) => Decoded(GoMap(m), k)
        case Failed(e) => Failed(e)
      else if f.kind == KIND_STRING || f.kind == KIND_BIGINT then
        match CopyFrameString(f.text, i, f.kind, if f.kind == KIND_STRING then NilString else NilBigInt)
        case Ok(text) => Decoded(GoString(text), i + 1)
        case Err(e) => Failed(e)
      else if KIND_NULL <= f.kind <= KIND_FLOAT64 then Decoded(DenoteLeaf(f), i + 1)
      else Failed(FrameError(i, f.kind, UnknownKind))
  }

  /** `n` array elements starting at frame `i`; `owner` is the frame that announced them. */
  function DecodeElems(fs: seq<Frame>, i: nat, n: nat, owner: nat): (r: Step<seq<Any>>)
    requires owner < |fs| && i <= |fs|
    ensures r.Decoded? ==> i <= r.next <= |fs|
    decreases Left(fs, i), 1, n
  {
    if n == 0 then Decoded([], i)
    else if i >= |fs| then Failed(FrameError(owner, fs[owner].kind, ChildCountExceedsSpan))
    else
      match DecodeFrame(fs, i)
      case Failed(e) => Failed(e)
      case Decoded(v, j) => Prepend([v], DecodeElems(fs, j, n - 1, owner))
  }

  function DecodeMembers(fs: seq<Frame>, i: nat, n: nat, owner: nat): (r: Step<map<Bytes, Any>>)
    requires owner < |fs| && i <= |fs|
    ensures r.Decoded? ==> i <= r.next <= |fs|
    decreases Left(fs, i), 1, n
  {
    if n == 0 then Decoded(map[], i)
    else if i >= |fs| then Failed(FrameError(owner, fs[owner].kind, ChildCountExceedsSpan))
    else
      match CopyFrameString(fs[i].key, i, fs[i].kind, NilKey)
      case Err(e) => Failed(e)
      case Ok(key) =>
        match DecodeFrame(fs, i)
        case Failed(e) => Failed(e)
        case Decoded(v, j) => Overlay(map[key := v], DecodeMembers(fs, j, n - 1, owner))
  }

  function Decode(fs: seq<Frame>): Result<Any, FrameError> {
    if fs == [] then Err(FrameError(0, 0, EmptySpan))
    else
      match DecodeFrame(fs, 0)
      case Failed(e) => Err(e)
      case Decoded(v, consumed) =>
        if consumed != |fs| then Err(FrameError(consumed, 0, TrailingFrames)) else Ok(v)
  }

  // ----- Every listing of a valid tree is accepted

  lemma {:induction false} DecodeListing(fs: seq<Frame>, i: nat, tree: FrameTree)
    requires Valid(tree) && Holds(fs, i, Listing(tree))
    ensures DecodeFrame(fs, i) == Decoded(Denote(tree), i + |Listing(tree)|)
    decreases tree
  {
    HoldsHead(fs, i, tree.frame, ListingAll(tree.kids));
    if tree.frame.kind == KIND_ARRAY {
      DecodeListingElems(fs, i + 1, tree.kids, i);
    } else if tree.frame.kind == KIND_OBJECT {
      DecodeListingMembers(fs, i + 1, tree.kids, i);
    }
  }

  lemma {:induction false} DecodeListingElems(fs: seq<Frame>, i: nat, trees: seq<FrameTree>, owner: nat)
    requires owner < |fs| && Holds(fs, i, ListingAll(trees))
    requires forall kid :: kid in trees ==> Valid(kid)
    ensures DecodeElems(fs, i, |trees|, owner) == Decoded(DenoteElems(trees), i + |ListingAll(trees)|)
    decreases trees
  {
    if trees != [] {
      HoldsSplit(fs, i, Listing(trees[0]), ListingAll(trees[1..]));
      DecodeListing(fs, i, trees[0]);
      DecodeListingElems(fs, i + |Listing(trees[0])|, trees[1..], owner);
    }
  }

  lemma {:induction false} DecodeListingMembers(fs: seq<Frame>, i: nat, trees: seq<FrameTree>, owner: nat)
    requires owner < |fs| && Holds(fs, i, ListingAll(trees))
    requires forall kid :: kid in trees ==> SpanOk(kid.frame.key) && Valid(kid)
    ensures DecodeMembers(fs, i, |trees|, owner) == Decoded(DenoteMembers(trees), i + |ListingAll(trees)|)
    decreases trees
  {
    if trees != [] {
      var first, rest := trees[0], trees[1..];
      var j := i + |Listing(first)|;
      HoldsSplit(fs, i, Listing(first), ListingAll(rest));
      HoldsHead(fs, i, first.frame, ListingAll(first.kids));
      assert CopyFrameString(fs[i].key, i, fs[i].kind, NilKey) == Ok(first.frame.key.bytes);
      DecodeListing(fs, i, first);
      DecodeListingMembers(fs, j, rest, owner);
    }
  }

  // ----- Only listings of valid trees are accepted

  lemma {:induction false} DecodedIsListing(fs: seq<Frame>, i: nat) returns (tree: FrameTree)
    requires DecodeFrame(fs, i).Decoded?
    ensures Valid(tree) && fs[i..DecodeFrame(fs, i).next] == Listing(tree)
    ensures Denote(tree) == DecodeFrame(fs, i).value
    decreases Left(fs, i), 0, 0
  {
    var f := fs[i];
    var kids: seq<FrameTree> := [];
    if f.kind == KIND_ARRAY {
      kids := DecodedElemsAreListings(fs, i + 1, f.childCount, i);
    } else if f.kind == KIND_OBJECT {
      kids := DecodedMembersAreListings(fs, i + 1, f.childCount, i);
    }
    tree := Node(f, kids);
    var j := DecodeFrame(fs, i).next;
    assert fs[i..j] == [f] + fs[i + 1..j];
  }

  lemma {:induction false} DecodedElemsAreListings(fs: seq<Frame>, i: nat, n: nat, owner: nat)
      returns (trees: seq<FrameTree>)
    requires owner < |fs| && i <= |fs| && DecodeElems(fs, i, n, owner).Decoded?
    ensures |trees| == n && forall kid :: kid in trees ==> Valid(kid)
    ensures fs[i..DecodeElems(fs, i, n, owner).next] == ListingAll(trees)
    ensures DenoteElems(trees) == DecodeElems(fs, i, n, owner).value
    decreases Left(fs, i), 1, n
  {
    if n == 0 {
      trees := [];
    } else {
      var first := DecodedIsListing(fs, i);
      var j := DecodeFrame(fs, i).next;
      var rest := DecodedElemsAreListings(fs, j, n - 1, owner);
      trees := [first] + rest;
      var k := DecodeElems(fs, i, n, owner).next;
      assert fs[i..k] == fs[i..j] + fs[j..k];
    }
  }

  lemma {:induction false} DecodedMembersAreListings(fs: seq<Frame>, i: nat, n: nat, owner: nat)
      returns (trees: seq<FrameTree>)
    requires owner < |fs| && i <= |fs| && DecodeMembers(fs, i, n, owner).Decoded?
    ensures |trees| == n && forall kid :: kid in trees ==> SpanOk(kid.frame.key) && Valid(kid)
    ensures fs[i..DecodeMembers(fs, i, n, owner).next] == ListingAll(trees)
    ensures DenoteMembers(trees) == DecodeMembers(fs, i, n, owner).value
    decreases Left(fs, i), 1, n
  {
    if n == 0 {
      trees := [];
    } else {
      var first := DecodedIsListing(fs, i);
      var j := DecodeFrame(fs, i).next;
      assert first.frame == Listing(first)[0] == fs[i..j][0] == fs[i];
      var rest := DecodedMembersAreListings(fs, j, n - 1, owner);
      trees := [first] + rest;
      var k := DecodeMembers(fs, i, n, owner).next;
      assert fs[i..k] == fs[i..j] + fs[j..k];
    }
  }

  // ----- A stream lists at most one valid tree

  lemma {:induction false} ListingIsUnique(fs: seq<Frame>, i: nat, a: FrameTree, b: FrameTree)
    requires Valid(a) && Valid(b) && Holds(fs, i, Listing(a)) && Holds(fs, i, Listing(b))
    ensures a == b
    decreases a
  {
    HoldsHead(fs, i, a.frame, ListingAll(a.kids));
    HoldsHead(fs, i, b.frame, ListingAll(b.kids));
    if a.frame.kind == KIND_ARRAY || a.frame.kind == KIND_OBJECT {
      ListingAllIsUnique(fs, i + 1, a.kids, b.kids);
    }
  }

  lemma {:induction false} ListingAllIsUnique(fs: seq<Frame>, i: nat, a: seq<FrameTree>, b: seq<FrameTree>)
    requires |a| == |b| && Holds(fs, i, ListingAll(a)) && Holds(fs, i, ListingAll(b))
    requires forall kid :: kid in a ==> Valid(kid)
    requires forall kid :: kid in b ==> Valid(kid)
    ensures a == b
    decreases a
  {
    if a != [] {
      HoldsSplit(fs, i, Listing(a[0]), ListingAll(a[1..]));
      HoldsSplit(fs, i, Listing(b[0]), ListingAll(b[1..]));
      ListingIsUnique(fs, i, a[0], b[0]);
      ListingAllIsUnique(fs, i + |Listing(a[0])|, a[1..], b[1..]);
    }
  }

  predicate Lists(tree: FrameTree, fs: seq<Frame>) {
    Valid(tree) && Listing(tree) == fs
  }

  /** On any frame stream: acceptance means the stream is the listing of exactly one valid tree. */
  lemma DecoderAcceptsExactlyListings(fs: seq<Frame>)
    ensures Decode(fs).Ok? <==> exists tree :: Lists(tree, fs)
    ensures forall tree :: Lists(tree, fs) ==> Decode(fs) == Ok(Denote(tree))
    ensures forall a, b :: Lists(a, fs) && Lists(b, fs) ==> a == b
  {
    assert fs[0..|fs|] == fs;
    if Decode(fs).Ok? {
      var tree := DecodedIsListing(fs, 0);
      assert Lists(tree, fs);
    }
    forall tree | Lists(tree, fs)
      ensures Decode(fs) == Ok(Denote(tree))
    {
      DecodeListing(fs, 0, tree);
    }
    forall a, b | Lists(a, fs) && Lists(b, fs)
      ensures a == b
    {
      ListingIsUnique(fs, 0, a, b);
    }
  }

  // ----- The decoder as the loops that run

  method BuildAnyFromFrames(frames: seq<Frame>) returns (r: Result<Any, FrameError>)
    ensures r == Decode(frames)
    ensures r.Ok? <==> exists tree :: Lists(tree, frames)
    ensures forall tree :: Lists(tree, frames) ==> r == Ok(Denote(tree))
  {
    DecoderAcceptsExactlyListings(frames);
    if |frames| == 0 {
      return Err(FrameError(0, 0, EmptySpan));
    }
    var step := BuildAnyFromFrame(frames, 0);
    if step.Failed? {
      return Err(step.error);
    }
    var value, consumed := step.value, step.next;
    if consumed != |frames| {
      return Err(FrameError(consumed, 0, TrailingFrames));
    }
    return Ok(value);
  }

  method BuildAnyFromFrame(frames: seq<Frame>, index: nat) returns (r: Step<Any>)
    ensures r == DecodeFrame(frames, index)
    decreases Left(frames, index)
  {
    if index >= |frames| {
      return Failed(FrameError(index, KIND_INVALID, IndexOutOfSpan));
    }
    var frame := frames[index];
    if frame.kind == KIND_NULL {
      return Decoded(GoNil, index + 1);
    } else if frame.kind == KIND_BOOL {
      return Decoded(GoBool(frame.flags != 0), index + 1);
    } else if frame.kind == KIND_INT64 {
      return Decoded(GoInt64(frame.int64Value), index + 1);
    } else if frame.kind == KIND_UINT64 {
      return Decoded(GoUint64(frame.uint64Value), index + 1);
    } else if frame.kind == KIND_FLOAT64 {
      return Decoded(GoFloat64(frame.float64Bits), index + 1);
    } else if frame.kind == KIND_STRING {
      var text := CopyFrameString(frame.text, index, frame.kind, NilString);
      if text.Err? {
        return Failed(text.error);
      }
      return Decoded(GoString(text.value), index + 1);
    } else if frame.kind == KIND_BIGINT {
      var text := CopyFrameString(frame.text, index, frame.kind, NilBigInt);
      if text.Err? {
        return Failed(text.error);
      }
      return Decoded(GoString(text.value), index + 1);
    } else if frame.kind == KIND_ARRAY {
      var values: seq<Any> := [];
      var nextIndex := index + 1;
      var child := 0;
      PrependComposes(values, GoNil, DecodeElems(frames, nextIndex, frame.childCount, index));
      while child < frame.childCount
        invariant child <= frame.childCount && index < nextIndex <= |frames|
        invariant DecodeElems(frames, index + 1, frame.childCount, index) ==
                  Prepend(values, DecodeElems(frames, nextIndex, frame.childCount - child, index))
      {
        if nextIndex >= |frames| {
          return Failed(FrameError(index, frame.kind, ChildCountExceedsSpan));
        }
        var step := BuildAnyFromFrame(frames, nextIndex);
        if step.Failed? {
          return Failed(step.error);
        }
        PrependComposes(values, step.value,
                        DecodeElems(frames, step.next, frame.childCount - child - 1, index));
        values := values + [step.value];
        nextIndex := step.next;
        child := child + 1;
      }
      assert values + [] == values;
      return Decoded(GoSlice(values), nextIndex);
    } else if frame.kind == KIND_OBJECT {
      var values: map<Bytes, Any> := map[];
      var nextIndex := index + 1;
      var child := 0;
      OverlayComposes(values, [], GoNil, DecodeMembers(frames, nextIndex, frame.childCount, index));
      while child < frame.childCount
        invariant child <= frame.childCount && index < nextIndex <= |frames|
        invariant DecodeMembers(frames, index + 1, frame.childCount, index) ==
                  Overlay(values, DecodeMembers(frames, nextIndex, frame.childCount - child, index))
      {
        if nextIndex >= |frames| {
          return Failed(FrameError(index, frame.kind, ChildCountExceedsSpan));
        }
        var key := CopyFrameString(frames[nextIndex].key, nextIndex, frames[nextIndex].kind, NilKey);
        if key.Err? {
          return Failed(key.error);
        }
        var step := BuildAnyFromFrame(frames, nextIndex);
        if step.Failed? {
          return Failed(step.error);
        }
        OverlayComposes(values, key.value, step.value,
                        DecodeMembers(frames, step.next, frame.childCount - child - 1, index));
        values := values[key.value := step.value];
        nextIndex := step.next;
        child := child + 1;
      }
      assert values + map[] == values;
      return Decoded(GoMap(values), nextIndex);
    }
    return Failed(FrameError(index, frame.kind, UnknownKind));
  }
}
