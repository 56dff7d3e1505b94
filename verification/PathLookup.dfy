/**
 A lookup that meets what the traversal assumes of the upstream one.

 Any way of taking a single segment step extends to whole spans: scan the span and take the
 steps of its segments.  Text that is not a run of literal segments finds nothing.
 */
module PathLookup {
  import opened Basics
  import opened Tape
  import opened PathScanner
  import opened PathTraversal

  type SegmentStep = (nat, Segment) -> Lookup

  function WalkSegments(step: SegmentStep, i: nat, segments: seq<Segment>): Lookup
    decreases |segments|
  {
    if segments == [] then Found(i)
    else
      var first := step(i, segments[0]);
      if first.Found? then WalkSegments(step, first.index, segments[1..]) else first
  }

  function LookupSpan(step: SegmentStep, i: nat, span: Bytes): Lookup {
    var scanned := Scan(span);
    if span != [] && scanned.Some? && LiteralRun(scanned.value) then WalkSegments(step, i, scanned.value) else Absent
  }

  function LookupBy(step: SegmentStep): AtPath {
    (i: nat, span: Bytes) => LookupSpan(step, i, span)
  }

  lemma SpanIsWalked(step: SegmentStep, i: nat, segments: seq<Segment>)
    requires LiteralRun(segments) && segments != []
    ensures LookupBy(step)(i, Print(segments)) == WalkSegments(step, i, segments)
  {
    assert SegmentsOk(segments);
    ScanInvertsPrint(segments);
    PrintsNothing(segments);
  }

  /** Whatever the single steps are, spans compose. */
  lemma LookupComposes(step: SegmentStep)
    ensures Composes(LookupBy(step))
  {
    forall i: nat, seg, more
      ensures SpanComposes(LookupBy(step), i, seg, more)
    {
      if LiteralRun([seg] + more) && more != [] {
        var all := [seg] + more;
        assert all[0] == seg && all[1..] == more && [seg][1..] == [];
        assert LiteralRun([seg]) by { assert [seg][0] == all[0]; }
        assert LiteralRun(more) by { assert forall k :: 0 <= k < |more| ==> more[k] == all[k + 1]; }
        SpanIsWalked(step, i, all);
        SpanIsWalked(step, i, [seg]);
        assert Print([seg]) == seg.path + [] == seg.path;
        assert Print(all) == seg.path + Print(more);
        var first := step(i, seg);
        if first.Found? {
          SpanIsWalked(step, first.index, more);
        }
      }
    }
  }

  ghost predicate StepsInside(step: SegmentStep, t: Words) {
    forall i: nat, seg :: IsValueStart(t, i) && step(i, seg).Found? ==> Inside(t, i, step(i, seg).index)
  }

  lemma {:induction false} WalkStaysInside(step: SegmentStep, t: Words, i: nat, segments: seq<Segment>)
    requires StepsInside(step, t) && IsValueStart(t, i)
    ensures var r := WalkSegments(step, i, segments); r.Found? ==> Inside(t, i, r.index)
    decreases |segments|
  {
    if segments == [] {
      assert i in Nodes(t, i, After(t, i));
    } else if step(i, segments[0]).Found? {
      var j := step(i, segments[0]).index;
      WalkStaysInside(step, t, j, segments[1..]);
      var r := WalkSegments(step, j, segments[1..]);
      if r.Found? {
        NodesNest(t, i, j, [r.index]);
        assert [r.index][0] == r.index;
      }
    }
  }

  /** Steps that stay inside the receiver make lookups that do. */
  lemma LookupFindsInside(step: SegmentStep, t: Words)
    requires StepsInside(step, t)
    ensures FindsInside(LookupBy(step), t)
  {
    forall i: nat, span | IsValueStart(t, i) && LookupBy(step)(i, span).Found?
      ensures Inside(t, i, LookupBy(step)(i, span).index)
    {
      WalkStaysInside(step, t, i, Scan(span).value);
    }
  }

  // ----- Field lookup by name, as one such step

  /** The value of the first field in [i, k) whose key is `name`. */
  function FindField(t: Words, i: nat, k: nat, name: Bytes): Lookup
    requires WfFields(t, i, k)
    decreases k - i
  {
    if i == k then Absent
    else if KeyAt(t, i) == name then Found(i + 1)
    else FindField(t, After(t, i + 1), k, name)
  }

  function FieldStep(t: Words): SegmentStep {
    (i: nat, seg: Segment) =>
      if IsValueStart(t, i) && t[i].StartObject? && |seg.path| > 0 && seg.path[0] == DOT
      then FindField(t, i + 1, After(t, i) - 1, seg.path[1..]) else Absent
  }

  lemma {:induction false} FieldIsNode(t: Words, i: nat, k: nat, name: Bytes)
    requires WfFields(t, i, k)
    ensures var r := FindField(t, i, k, name); r.Found? ==> r.index in FieldNodes(t, i, k)
    decreases k - i
  {
    if i != k {
      var v := i + 1;
      assert v in Nodes(t, v, After(t, v));
      FieldIsNode(t, After(t, v), k, name);
    }
  }

  lemma FieldStepsInside(t: Words)
    ensures StepsInside(FieldStep(t), t)
  {
    forall i: nat, seg | IsValueStart(t, i) && FieldStep(t)(i, seg).Found?
      ensures Inside(t, i, FieldStep(t)(i, seg).index)
    {
      var j := FieldStep(t)(i, seg).index;
      FieldIsNode(t, i + 1, After(t, i) - 1, seg.path[1..]);
      NodesAreStarts(t, i, After(t, i));
      assert NodeWithin(t, j, i, After(t, i), Nodes(t, i, After(t, i)));
    }
  }

  /** On any tape, looking fields up by name meets both assumptions of the traversal. */
  lemma AssumptionsAreMet(t: Words)
    ensures Composes(LookupBy(FieldStep(t))) && FindsInside(LookupBy(FieldStep(t)), t)
  {
    LookupComposes(FieldStep(t));
    FieldStepsInside(t);
    LookupFindsInside(FieldStep(t), t);
  }

  const NAME_A: Byte := 0x61
  const NAME_B: Byte := 0x62

  /** The document {"a": {"b": null}}. */
  function NestedDocument(): Words {
    [EndObject, StartObject(8), Leaf(Str([NAME_A]), 1), StartObject(7), Leaf(Str([NAME_B]), 1), Leaf(Null, 1),
     EndObject, EndObject]
  }

  lemma FirstFieldIsFound(t: Words, i: nat, end: nat, seg: Segment)
    requires IsValueStart(t, i) && t[i].StartObject? && end == After(t, i) - 1 && i + 1 < end
    requires IsKeyWord(t[i + 1]) && DotSegment(seg.path) && KeyAt(t, i + 1) == seg.path[1..]
    ensures FieldStep(t)(i, seg) == Found(i + 2)
  {
  }

  lemma TwoSegments(step: SegmentStep, i: nat, j: nat, k: nat, a: Segment, b: Segment)
    requires LiteralRun([a, b]) && step(i, a) == Found(j) && step(j, b) == Found(k)
    ensures LookupBy(step)(i, a.path + b.path) == Found(k)
  {
    var all := [a, b];
    assert all[0] == a && all[1] == b && all[1..] == [b] && [b][1..] == [];
    SpanIsWalked(step, i, all);
    assert Print([b]) == b.path + [] == b.path;
    assert Print(all) == a.path + Print([b]);
    assert WalkSegments(step, k, []) == Found(k);
    assert WalkSegments(step, j, [b]) == WalkSegments(step, k, []);
  }

  /** There the two-segment span `.a.b` is found, and the bare text `a` is not. */
  lemma NestedLookupSucceeds()
    ensures IsValueStart(NestedDocument(), ROOT_JSON_INDEX)
    ensures LookupBy(FieldStep(NestedDocument()))(ROOT_JSON_INDEX, [DOT, NAME_A, DOT, NAME_B]) == Found(5)
    ensures LookupBy(FieldStep(NestedDocument()))(ROOT_JSON_INDEX, [NAME_A]) == Absent
  {
    var t := NestedDocument();
    assert WfFields(t, 6, 6) && WfFields(t, 4, 6) && WfValue(t, 3, 7) && WfFields(t, 7, 7) && WfFields(t, 2, 7);
    var a, b := Segment(false, [DOT, NAME_A]), Segment(false, [DOT, NAME_B]);
    assert a.path[1..] == [NAME_A] && b.path[1..] == [NAME_B];
    assert SegmentOk(a) && SegmentOk(b);
    assert Scan([NAME_A]) == None;
    FirstFieldIsFound(t, 1, 7, a);
    FirstFieldIsFound(t, 3, 6, b);
    TwoSegments(FieldStep(t), 1, 3, 5, a, b);
    assert a.path + b.path == [DOT, NAME_A, DOT, NAME_B];
  }
}
