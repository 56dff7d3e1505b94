/**
 The native document: building the preorder frame stream of a subtree.

 The loop that pushes frames, recurses and back-patches child counts produces exactly the
 listing of the subtree's frame tree, or stops with a status that says why it cannot.
 */
module Encoder {
  import opened Basics
  import opened Tape
  import opened Frames

  const MAX_SUPPORTED_DEPTH: nat := 1024

  // ----- The frame tree of a tape value

  function KeySpan(key: Bytes): Span {
    Span(key == [], key)
  }

  function BaseFrame(kind: u32, key: Bytes): Frame {
    Frame(kind, 0, 0, KeySpan(key), Span(true, []), 0, 0, 0)
  }

  function ScalarFrame(s: Scalar, key: Bytes): Frame {
    var frame := BaseFrame(ScalarKind(s), key);
    match s
    case Null => frame
    case Bool(b) => frame.(flags := if b then 1 else 0)
    case Int64(i) => frame.(int64Value := i)
    case Uint64(u) => frame.(uint64Value := u)
    case Float64(bits) => frame.(float64Bits := bits)
    case Str(text) => frame.(text := KeySpan(text))
    case BigInt(digits) => frame.(text := KeySpan(digits))
  }

  /** The cast of a child count to 32 bits. */
  function Truncate32(n: nat): u32 {
    n % (U32_MAX + 1)
  }

  function ContainerTree(kind: u32, key: Bytes, kids: seq<FrameTree>): FrameTree {
    Node(BaseFrame(kind, key).(childCount := Truncate32(|kids|)), kids)
  }

  function TreeAt(t: Words, i: nat, k: nat, key: Bytes): FrameTree
    requires WfValue(t, i, k)
    decreases k - i, 0
  {
    match t[i]
    case StartArray(_) => ContainerTree(KIND_ARRAY, key, ItemTrees(t, i + 1, k - 1))
    case StartObject(_) => ContainerTree(KIND_OBJECT, key, FieldTrees(t, i + 1, k - 1))
    case Leaf(s, _) => Node(ScalarFrame(s, key), [])
  }

  function ItemTrees(t: Words, i: nat, k: nat): seq<FrameTree>
    requires WfItems(t, i, k)
    decreases k - i, 1
  {
    if i == k then [] else [TreeAt(t, i, After(t, i), [])] + ItemTrees(t, After(t, i), k)
  }

  function FieldTrees(t: Words, i: nat, k: nat): seq<FrameTree>
    requires WfFields(t, i, k)
    decreases k - i, 1
  {
    if i == k then []
    else [TreeAt(t, i + 1, After(t, i + 1), KeyAt(t, i))] + FieldTrees(t, After(t, i + 1), k)
  }

  // ----- Limits

  /** Levels below the root of a tree down to its deepest element. */
  function Height(tree: FrameTree): nat
    decreases tree
  {
    HeightAll(tree.kids)
  }

  function HeightAll(trees: seq<FrameTree>): nat
    decreases trees
  {
    if trees == [] then 0
    else
      var first, rest := 1 + Height(trees[0]), HeightAll(trees[1..]);
      if first > rest then first else rest
  }

  /** Every child count fits its 32-bit field. */
  predicate CountsFit(tree: FrameTree)
    decreases tree
  {
    |tree.kids| <= U32_MAX && CountsFitAll(tree.kids)
  }

  predicate CountsFitAll(trees: seq<FrameTree>)
    decreases trees
  {
    trees == [] || (CountsFit(trees[0]) && CountsFitAll(trees[1..]))
  }

  /** Some element of `tree` lies `d` or more levels below its root. */
  ghost predicate ReachesDepth(tree: FrameTree, d: nat)
    decreases d
  {
    d == 0 || exists kid :: kid in tree.kids && ReachesDepth(kid, d - 1)
  }

  lemma {:induction false} HeightIsDepthReached(tree: FrameTree, d: nat)
    ensures Height(tree) >= d <==> ReachesDepth(tree, d)
    decreases d
  {
    if d > 0 {
      HeightAllIsMax(tree.kids, d);
      forall kid | kid in tree.kids
        ensures Height(kid) >= d - 1 <==> ReachesDepth(kid, d - 1)
      {
        HeightIsDepthReached(kid, d - 1);
      }
    }
  }

  lemma {:induction false} HeightAllIsMax(trees: seq<FrameTree>, d: nat)
    requires d > 0
    ensures HeightAll(trees) >= d <==> exists kid :: kid in trees && Height(kid) >= d - 1
    decreases trees
  {
    if trees != [] {
      HeightAllIsMax(trees[1..], d);
      assert trees == [trees[0]] + trees[1..];
      assert 1 + Height(trees[0]) >= d ==> trees[0] in trees && Height(trees[0]) >= d - 1;
      assert forall kid :: kid in trees <==> kid == trees[0] || kid in trees[1..];
    }
  }

  // ----- What one append does

  predicate Within(trees: seq<FrameTree>, depth: nat) {
    depth + HeightAll(trees) < MAX_SUPPORTED_DEPTH
  }

  /** Appending `tree` at `depth` turned the frames `before` into `after` and returned `rc`. */
  predicate Outcome(tree: FrameTree, depth: nat, rc: Status, before: seq<Frame>, after: seq<Frame>) {
    && (rc == StatusOk || rc == DepthLimit || rc == Internal)
    && (rc == StatusOk <==> depth + Height(tree) < MAX_SUPPORTED_DEPTH && CountsFit(tree))
    && (rc == StatusOk ==> after == before + Listing(tree))
    && (rc == DepthLimit ==> depth + Height(tree) >= MAX_SUPPORTED_DEPTH)
    && (rc == Internal ==> !CountsFit(tree))
  }

  /** `frames` is `prefix` and the listings of the first `count` of `kids`; `rest` are still to come. */
  predicate Progress(kids: seq<FrameTree>, rest: seq<FrameTree>, depth: nat, prefix: seq<Frame>,
                     frames: seq<Frame>, count: nat)
  {
    && count + |rest| == |kids|
    && prefix <= frames
    && frames + ListingAll(rest) == prefix + ListingAll(kids)
    && (CountsFitAll(kids) <==> CountsFitAll(rest))
    && (Within(kids, depth) <==> Within(rest, depth))
  }

  lemma ProgressStep(kids: seq<FrameTree>, child: FrameTree, rest: seq<FrameTree>, depth: nat,
                     prefix: seq<Frame>, frames: seq<Frame>, count: nat)
    requires Progress(kids, [child] + rest, depth, prefix, frames, count)
    requires depth + 1 + Height(child) < MAX_SUPPORTED_DEPTH && CountsFit(child)
    ensures Progress(kids, rest, depth, prefix, frames + Listing(child), count + 1)
  {
    var all := [child] + rest;
    assert all[0] == child && all[1..] == rest;
    assert frames + (Listing(child) + ListingAll(rest)) == (frames + Listing(child)) + ListingAll(rest);
  }

  lemma ProgressStuck(frame: Frame, kids: seq<FrameTree>, child: FrameTree, rest: seq<FrameTree>, depth: nat,
                      frames: seq<Frame>, count: nat, rc: Status, before: seq<Frame>, built: seq<Frame>)
    requires Progress(kids, [child] + rest, depth, before + [frame], frames, count)
    requires Outcome(child, depth + 1, rc, frames, built) && rc != StatusOk
    ensures Outcome(Node(frame.(childCount := Truncate32(|kids|)), kids), depth, rc, before, built)
  {
    var all := [child] + rest;
    assert all[0] == child && all[1..] == rest;
  }

  lemma TooManyChildren(frame: Frame, kids: seq<FrameTree>, depth: nat, before: seq<Frame>, built: seq<Frame>)
    requires |kids| > U32_MAX
    ensures Outcome(Node(frame.(childCount := Truncate32(|kids|)), kids), depth, Internal, before, built)
  {
  }

  /** Writing the count back into the container's own frame completes the listing. */
  lemma BackPatch(frame: Frame, kids: seq<FrameTree>, depth: nat, before: seq<Frame>, frames: seq<Frame>, count: nat)
    requires Progress(kids, [], depth, before + [frame], frames, count)
    requires count <= U32_MAX && depth < MAX_SUPPORTED_DEPTH
    ensures |before| < |frames| && frames[|before|] == frame
    ensures Outcome(Node(frame.(childCount := Truncate32(|kids|)), kids), depth, StatusOk, before,
                    frames[|before| := frame.(childCount := count)])
  {
    var rest: seq<FrameTree> := [];
    assert ListingAll(rest) == [] && HeightAll(rest) == 0;
    assert frames == frames + ListingAll(rest) == before + [frame] + ListingAll(kids);
  }

  lemma LeafOutcome(frame: Frame, depth: nat, before: seq<Frame>)
    requires depth < MAX_SUPPORTED_DEPTH
    ensures Outcome(Node(frame, []), depth, StatusOk, before, before + [frame])
  {
    var none: seq<FrameTree> := [];
    assert HeightAll(none) == 0 && CountsFitAll(none);
    assert Listing(Node(frame, none)) == [frame];
  }

  // ----- The native document

  class NativeDoc {
    const tape: Words
    var materializeFrames: seq<Frame>
    var materializeInProgress: bool

    constructor (tape: Words)
      ensures this.tape == tape && materializeFrames == [] && !materializeInProgress
    {
      this.tape := tape;
      materializeFrames := [];
      materializeInProgress := false;
    }

    /** Appends the frames of the element at `i`; `key` is its object key, if it has one. */
    method AppendMaterializeFrame(i: nat, key: Bytes, depth: nat) returns (rc: Status)
      requires IsValueStart(tape, i)
      modifies this`materializeFrames
      ensures Outcome(TreeAt(tape, i, After(tape, i), key), depth, rc, old(materializeFrames), materializeFrames)
      decreases After(tape, i) - i
    {
      if depth >= MAX_SUPPORTED_DEPTH {
        return DepthLimit;
      }
      match tape[i]
      case Leaf(s, _) =>
        LeafOutcome(ScalarFrame(s, key), depth, materializeFrames);
        materializeFrames := materializeFrames + [ScalarFrame(s, key)];
        return StatusOk;
      case StartArray(_) =>
        rc := AppendArray(i, key, depth);
      case StartObject(_) =>
        rc := AppendObject(i, key, depth);
    }

    method AppendArray(i: nat, key: Bytes, depth: nat) returns (rc: Status)
      requires IsValueStart(tape, i) && tape[i].StartArray? && depth < MAX_SUPPORTED_DEPTH
      modifies this`materializeFrames
      ensures Outcome(TreeAt(tape, i, After(tape, i), key), depth, rc, old(materializeFrames), materializeFrames)
      decreases After(tape, i) - i, 0
    {
      ghost var before := materializeFrames;
      var frame := BaseFrame(KIND_ARRAY, key);
      var frameIndex := |materializeFrames|;
      materializeFrames := materializeFrames + [frame];
      var (current, end) := IterBounds(tape, i);
      ghost var kids := ItemTrees(tape, current, end);
      assert TreeAt(tape, i, After(tape, i), key) == Node(frame.(childCount := Truncate32(|kids|)), kids);
      var childCount := 0;
      while current != end
        invariant i < current <= end && WfItems(tape, current, end)
        invariant childCount <= U32_MAX
        invariant Progress(kids, ItemTrees(tape, current, end), depth, before + [frame], materializeFrames, childCount)
        decreases end - current
      {
        ghost var built := materializeFrames;
        ghost var child := TreeAt(tape, current, After(tape, current), []);
        ghost var rest := ItemTrees(tape, After(tape, current), end);
        assert ItemTrees(tape, current, end) == [child] + rest;
        rc := AppendMaterializeFrame(current, [], depth + 1);
        if rc != StatusOk {
          ProgressStuck(frame, kids, child, rest, depth, built, childCount, rc, before, materializeFrames);
          return rc;
        }
        ProgressStep(kids, child, rest, depth, before + [frame], built, childCount);
        childCount := childCount + 1;
        if childCount > U32_MAX {
          TooManyChildren(frame, kids, depth, before, materializeFrames);
          return Internal;
        }
        current := AfterIndex(tape, current);
      }
      BackPatch(frame, kids, depth, before, materializeFrames, childCount);
      materializeFrames := materializeFrames[frameIndex := materializeFrames[frameIndex].(childCount := childCount)];
      return StatusOk;
    }

    method AppendObject(i: nat, key: Bytes, depth: nat) returns (rc: Status)
      requires IsValueStart(tape, i) && tape[i].StartObject? && depth < MAX_SUPPORTED_DEPTH
      modifies this`materializeFrames
      ensures Outcome(TreeAt(tape, i, After(tape, i), key), depth, rc, old(materializeFrames), materializeFrames)
      decreases After(tape, i) - i, 0
    {
      ghost var before := materializeFrames;
      var frame := BaseFrame(KIND_OBJECT, key);
      var frameIndex := |materializeFrames|;
      materializeFrames := materializeFrames + [frame];
      var (current, end) := IterBounds(tape, i);
      ghost var kids := FieldTrees(tape, current, end);
      assert TreeAt(tape, i, After(tape, i), key) == Node(frame.(childCount := Truncate32(|kids|)), kids);
      var childCount := 0;
      while current != end
        invariant i < current <= end && WfFields(tape, current, end)
        invariant childCount <= U32_MAX
        invariant Progress(kids, FieldTrees(tape, current, end), depth, before + [frame], materializeFrames, childCount)
        decreases end - current
      {
        var value := current + 1;
        ghost var built := materializeFrames;
        ghost var child := TreeAt(tape, value, After(tape, value), KeyAt(tape, current));
        ghost var rest := FieldTrees(tape, After(tape, value), end);
        assert FieldTrees(tape, current, end) == [child] + rest;
        rc := AppendMaterializeFrame(value, KeyAt(tape, current), depth + 1);
        if rc != StatusOk {
          ProgressStuck(frame, kids, child, rest, depth, built, childCount, rc, before, materializeFrames);
          return rc;
        }
        ProgressStep(kids, child, rest, depth, before + [frame], built, childCount);
        childCount := childCount + 1;
        if childCount > U32_MAX {
          TooManyChildren(frame, kids, depth, before, materializeFrames);
          return Internal;
        }
        current := AfterIndex(tape, value);
      }
      BackPatch(frame, kids, depth, before, materializeFrames, childCount);
      materializeFrames := materializeFrames[frameIndex := materializeFrames[frameIndex].(childCount := childCount)];
      return StatusOk;
    }

    /** Builds the frames of the element at `i`; a second build in progress is refused. */
    method MaterializeBuild(i: nat) returns (rc: Status, frames: seq<Frame>)
      requires IsValueStart(tape, i)
      modifies this
      ensures materializeInProgress == old(materializeInProgress)
      ensures old(materializeInProgress) ==>
                rc == ParserBusy && frames == [] && materializeFrames == old(materializeFrames)
      ensures !old(materializeInProgress) ==>
                var tree := TreeAt(tape, i, After(tape, i), []);
                && frames == materializeFrames
                && (rc == StatusOk <==> !ReachesDepth(tree, MAX_SUPPORTED_DEPTH) && CountsFit(tree))
                && (rc == StatusOk ==> frames == Listing(tree))
                && (rc != StatusOk ==> frames == [] && (rc == DepthLimit || rc == Internal))
                && (CountsFit(tree) ==> (rc == DepthLimit <==> ReachesDepth(tree, MAX_SUPPORTED_DEPTH)))
    {
      if materializeInProgress {
        return ParserBusy, [];
      }
      HeightIsDepthReached(TreeAt(tape, i, After(tape, i), []), MAX_SUPPORTED_DEPTH);
      materializeInProgress := true;
      materializeFrames := [];
      rc := AppendMaterializeFrame(i, [], 0);
      if rc != StatusOk {
        materializeFrames := [];
        materializeInProgress := false;
        return rc, [];
      }
      frames := materializeFrames;
      materializeInProgress := false;
    }
  }
}
